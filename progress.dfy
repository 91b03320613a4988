/**
  The progress store: one JSON file per network, named from a digest of the
  SSID, holding the passwords already tried. The file system is a map from
  file name to file content; the digest (MD5 in the source) is a parameter
  of the store, assumed deterministic and nothing more.
 */
module Progress {

  /** The part of a progress file the program reads back: the attempted
      passwords (a list, written from a set) and the SSID. */
  datatype Record = Record(attempted: seq<string>, ssid: string)

  /** A progress file's content: a JSON object that has an
      `attempted_passwords` field, or anything that fails to load. */
  datatype Stored = Json(record: Record) | Unreadable

  /** The record `load_progress` falls back to. */
  const EmptyRecord := Record([], "")

  const FilePrefix := "wifi_progress_"
  const FileSuffix := ".json"
  /** How many hex digits of the digest go into the file name. */
  const DigestDigits: nat := 10

  /** Python's `s[:n]`. */
  function Prefix(s: string, n: nat): (r: string)
    ensures |r| == if |s| <= n then |s| else n
    ensures r == s[..|r|]
  {
    if |s| <= n then s else s[..n]
  }

  /** `wifi_progress_<first 10 digest digits>.json`. */
  function ProgressFilePath(hexDigest: string): (path: string)
    ensures |FilePrefix| + |FileSuffix| <= |path| <= |FilePrefix| + DigestDigits + |FileSuffix|
    ensures path[..|FilePrefix|] == FilePrefix
    ensures path[|path| - |FileSuffix|..] == FileSuffix
  {
    FilePrefix + Prefix(hexDigest, DigestDigits) + FileSuffix
  }

  /** Two SSIDs share a progress file exactly when the first ten digits of
      their digests agree; nothing more is assumed of the digest, so
      distinct SSIDs may share one. */
  lemma SamePathIffSameDigestPrefix(d1: string, d2: string)
    ensures ProgressFilePath(d1) == ProgressFilePath(d2)
        <==> Prefix(d1, DigestDigits) == Prefix(d2, DigestDigits)
  {
    var p1, p2 := ProgressFilePath(d1), ProgressFilePath(d2);
    var m1, m2 := Prefix(d1, DigestDigits), Prefix(d2, DigestDigits);
    if p1 == p2 {
      assert m1 == p1[|FilePrefix|..|p1| - |FileSuffix|];
      assert m2 == p2[|FilePrefix|..|p2| - |FileSuffix|];
    }
  }

  class ProgressStore {
    /** The hex digest of an SSID (MD5 in the source). */
    const digest: string -> string
    /** The progress files present, by name. */
    var files: map<string, Stored>

    constructor (digest: string -> string, files: map<string, Stored>)
      ensures this.digest == digest && this.files == files
    {
      this.digest := digest;
      this.files := files;
    }

    /** `get_progress_file_path`: the file for an SSID, whose name carries
        the first ten digits of the SSID's digest between the fixed prefix
        and suffix. */
    function PathOf(ssid: string): (path: string)
      ensures |FilePrefix| + |FileSuffix| <= |path|
      ensures path[..|FilePrefix|] == FilePrefix
      ensures path[|FilePrefix|..|path| - |FileSuffix|] == Prefix(digest(ssid), DigestDigits)
      ensures path[|path| - |FileSuffix|..] == FileSuffix
    {
      ProgressFilePath(digest(ssid))
    }

    /** `load_progress`: the stored record when the file exists and loads,
        and the empty record otherwise (missing, corrupt or lacking the
        attempted list). */
    function Load(path: string): (r: Record)
      reads this
      ensures r == EmptyRecord || (path in files && files[path] == Json(r))
      ensures path in files && files[path].Json? ==> r == files[path].record
    {
      if path in files && files[path].Json? then files[path].record else EmptyRecord
    }

    /** `save_progress`: overwrites the file at `path`; loading it back gives
        exactly what was saved. */
    method Save(path: string, attempted: seq<string>, ssid: string)
      modifies this
      ensures files == old(files)[path := Json(Record(attempted, ssid))]
      ensures Load(path) == Record(attempted, ssid)
    {
      files := files[path := Json(Record(attempted, ssid))];
    }

    /** `cleanup_progress`: removes the file at `path` if there is one; on a
        missing file it changes nothing, so a second call is a no-op. */
    method Cleanup(path: string)
      modifies this
      ensures files == old(files) - {path}
      ensures path !in old(files) ==> files == old(files)
      ensures Load(path) == EmptyRecord
    {
      if path in files {
        files := files - {path};
      }
    }
  }
}
