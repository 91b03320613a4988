/**
  The candidate lists of `brute_force_wifi`: the password file read into
  stripped, non-blank entries, the entries not yet attempted, and the
  entries long enough to be tried against the network.
 */
module Candidates {
  import opened Text

  /** Candidates shorter than this are skipped without a trial. */
  const MinLength: nat := 8

  /** The elements of a list, as a set (Python's `set(list)`). */
  function Elems(s: seq<string>): set<string> {
    set p | p in s
  }

  /** Appending an entry adds it to the elements. */
  lemma ElemsSnoc(s: seq<string>, p: string)
    ensures Elems(s + [p]) == Elems(s) + {p}
  {
    assert forall q :: q in s + [p] <==> q in s || q == p;
  }

  /** No entry occurs twice (what `list(some_set)` produces). */
  predicate Distinct(s: seq<string>) {
    forall i, j :: 0 <= i < j < |s| ==> s[i] != s[j]
  }

  /** Appending an entry that is not yet present keeps a list repeat-free. */
  lemma DistinctSnoc(s: seq<string>, p: string)
    requires Distinct(s) && p !in Elems(s)
    ensures Distinct(s + [p])
  {
    assert forall i :: 0 <= i < |s| ==> (s + [p])[i] == s[i];
  }

  /** `[line.strip() for line in file if line.strip()]`: the password
      file's lines, each stripped, blank ones dropped, in file order. */
  function ReadCandidates(lines: seq<string>): (r: seq<string>)
    ensures |r| <= |lines|
  {
    if lines == [] then []
    else
      var c := Strip(lines[0]);
      (if c == [] then [] else [c]) + ReadCandidates(lines[1..])
  }

  /** No candidate is blank, and every candidate is its own strip. */
  lemma {:induction false} CandidatesAreStripped(lines: seq<string>)
    ensures forall p :: p in ReadCandidates(lines) ==> p != [] && Strip(p) == p
  {
    if lines != [] {
      var c := Strip(lines[0]);
      var rest := ReadCandidates(lines[1..]);
      assert ReadCandidates(lines) == (if c == [] then [] else [c]) + rest;
      CandidatesAreStripped(lines[1..]);
      forall p | p in ReadCandidates(lines) ensures p != [] && Strip(p) == p {
        if p !in rest {
          StripOfTrimmed(c);
        }
      }
    }
  }

  /** A file whose lines are all non-blank and already trimmed reads back
      line for line. */
  lemma {:induction false} ReadCandidatesOfTrimmed(lines: seq<string>)
    requires forall i :: 0 <= i < |lines| ==> lines[i] != [] && IsTrimmed(lines[i])
    ensures ReadCandidates(lines) == lines
  {
    if lines != [] {
      StripOfTrimmed(lines[0]);
      ReadCandidatesOfTrimmed(lines[1..]);
      assert lines == [lines[0]] + lines[1..];
    }
  }

  /** Reading a file made of two parts reads each part in turn: the order of
      the file is kept. */
  lemma {:induction false} ReadCandidatesAppend(a: seq<string>, b: seq<string>)
    ensures ReadCandidates(a + b) == ReadCandidates(a) + ReadCandidates(b)
  {
    if a != [] {
      var c := Strip(a[0]);
      var head := if c == [] then [] else [c];
      assert (a + b)[0] == a[0];
      assert (a + b)[1..] == a[1..] + b;
      ReadCandidatesAppend(a[1..], b);
      calc {
        ReadCandidates(a + b);
        head + ReadCandidates(a[1..] + b);
        head + (ReadCandidates(a[1..]) + ReadCandidates(b));
        (head + ReadCandidates(a[1..])) + ReadCandidates(b);
      }
    } else {
      assert a + b == b;
    }
  }

  /** A string is a candidate exactly when it is the non-blank strip of some
      line of the file. */
  lemma {:induction false} ReadCandidatesMembership(lines: seq<string>, p: string)
    ensures p in ReadCandidates(lines) <==>
            p != [] && exists i :: 0 <= i < |lines| && Strip(lines[i]) == p
  {
    if lines != [] {
      var c := Strip(lines[0]);
      var rest := lines[1..];
      assert ReadCandidates(lines) == (if c == [] then [] else [c]) + ReadCandidates(rest);
      ReadCandidatesMembership(rest, p);
      if p in ReadCandidates(lines) {
        if p != c {
          var i :| 0 <= i < |rest| && Strip(rest[i]) == p;
          assert Strip(lines[i + 1]) == p;
        }
      }
      if p != [] && exists i :: 0 <= i < |lines| && Strip(lines[i]) == p {
        var i :| 0 <= i < |lines| && Strip(lines[i]) == p;
        if i > 0 {
          assert Strip(rest[i - 1]) == p;
        }
      }
    }
  }

  /** `[p for p in all if p not in attempted]`: the entries still to try, in
      their original order, each as many times as it occurs. */
  function Remaining(all: seq<string>, attempted: set<string>): (r: seq<string>)
    ensures |r| <= |all|
    ensures forall i :: 0 <= i < |r| ==> r[i] !in attempted
  {
    if all == [] then []
    else (if all[0] in attempted then [] else [all[0]]) + Remaining(all[1..], attempted)
  }

  /** An entry remains exactly when it is in the list and not attempted. */
  lemma {:induction false} RemainingMembership(all: seq<string>, attempted: set<string>, p: string)
    ensures p in Remaining(all, attempted) <==> p in all && p !in attempted
  {
    if all != [] {
      RemainingMembership(all[1..], attempted, p);
      assert all == [all[0]] + all[1..];
    }
  }

  /** The entries of `all` that the attempted set causes to be skipped. */
  function Skipped(all: seq<string>, attempted: set<string>): (r: seq<string>)
    ensures forall i :: 0 <= i < |r| ==> r[i] in attempted
  {
    if all == [] then []
    else (if all[0] in attempted then [all[0]] else []) + Skipped(all[1..], attempted)
  }

  /** The counts the run reports: the skipped and the remaining entries
      together make up the whole list, so `total - remaining` is the number
      of entries (with repeats) found in the attempted set. */
  lemma {:induction false} SkippedPlusRemaining(all: seq<string>, attempted: set<string>)
    ensures |Skipped(all, attempted)| + |Remaining(all, attempted)| == |all|
  {
    if all != [] {
      SkippedPlusRemaining(all[1..], attempted);
    }
  }

  /** Filtering a list made of two parts filters each part in turn. */
  lemma {:induction false} RemainingAppend(a: seq<string>, b: seq<string>, attempted: set<string>)
    ensures Remaining(a + b, attempted) == Remaining(a, attempted) + Remaining(b, attempted)
  {
    if a != [] {
      var head := if a[0] in attempted then [] else [a[0]];
      assert (a + b)[0] == a[0];
      assert (a + b)[1..] == a[1..] + b;
      RemainingAppend(a[1..], b, attempted);
      assert head + (Remaining(a[1..], attempted) + Remaining(b, attempted))
          == (head + Remaining(a[1..], attempted)) + Remaining(b, attempted);
    } else {
      assert a + b == b;
    }
  }

  /** With nothing attempted (a run that does not resume) every entry remains. */
  lemma {:induction false} RemainingNothingAttempted(all: seq<string>)
    ensures Remaining(all, {}) == all
  {
    if all != [] {
      RemainingNothingAttempted(all[1..]);
    }
  }

  /** Filtering again against the same set changes nothing. */
  lemma {:induction false} RemainingIdempotent(all: seq<string>, attempted: set<string>)
    ensures Remaining(Remaining(all, attempted), attempted) == Remaining(all, attempted)
  {
    if all != [] {
      RemainingIdempotent(all[1..], attempted);
      var head := if all[0] in attempted then [] else [all[0]];
      RemainingAppend(head, Remaining(all[1..], attempted), attempted);
    }
  }

  /** When the first `k` entries are attempted and none after them is, the
      run works on exactly the last `|all| - k` entries, in order. */
  lemma {:induction false} RemainingAfterAttemptedPrefix(all: seq<string>, attempted: set<string>, k: nat)
    requires k <= |all|
    requires forall i :: 0 <= i < k ==> all[i] in attempted
    requires forall i :: k <= i < |all| ==> all[i] !in attempted
    ensures Remaining(all, attempted) == all[k..]
  {
    if all != [] {
      assert forall i :: 0 <= i < |all| - 1 ==> all[1..][i] == all[i + 1];
      if k == 0 {
        RemainingAfterAttemptedPrefix(all[1..], attempted, 0);
        assert all == [all[0]] + all[1..];
      } else {
        RemainingAfterAttemptedPrefix(all[1..], attempted, k - 1);
        assert all[1..][k - 1..] == all[k..];
      }
    }
  }

  /** Resuming: if the record holds exactly the first `k` entries of a list
      without repeats, the resumed run works on the other `|all| - k`
      entries, in their original order. */
  lemma ResumeSkipsRecordedPrefix(all: seq<string>, k: nat)
    requires k <= |all| && Distinct(all)
    ensures Remaining(all, Elems(all[..k])) == all[k..]
  {
    var attempted := Elems(all[..k]);
    forall i | k <= i < |all| ensures all[i] !in attempted {
      forall j | 0 <= j < k ensures all[..k][j] != all[i] {
        assert all[..k][j] == all[j];
      }
    }
    assert forall i :: 0 <= i < k ==> all[..k][i] in attempted;
    RemainingAfterAttemptedPrefix(all, attempted, k);
  }

  /** `[p for p in todo if len(p) >= 8]`: the entries that reach the trial,
      in order, with repeats. */
  function Eligible(todo: seq<string>): (r: seq<string>)
    ensures |r| <= |todo|
  {
    if todo == [] then []
    else (if |todo[0]| >= MinLength then [todo[0]] else []) + Eligible(todo[1..])
  }

  /** An entry reaches the trial exactly when it is in the list and long enough. */
  lemma {:induction false} EligibleMembership(todo: seq<string>, p: string)
    ensures p in Eligible(todo) <==> p in todo && |p| >= MinLength
  {
    if todo != [] {
      EligibleMembership(todo[1..], p);
      assert todo == [todo[0]] + todo[1..];
    }
  }

  /** Eligibility of a list made of two parts is decided part by part. */
  lemma {:induction false} EligibleAppend(a: seq<string>, b: seq<string>)
    ensures Eligible(a + b) == Eligible(a) + Eligible(b)
  {
    if a != [] {
      var head := if |a[0]| >= MinLength then [a[0]] else [];
      assert (a + b)[0] == a[0];
      assert (a + b)[1..] == a[1..] + b;
      EligibleAppend(a[1..], b);
      assert head + (Eligible(a[1..]) + Eligible(b)) == (head + Eligible(a[1..])) + Eligible(b);
    } else {
      assert a + b == b;
    }
  }

  /** A list whose entries are all long enough passes the filter whole. */
  lemma {:induction false} EligibleAllLong(todo: seq<string>)
    requires forall i :: 0 <= i < |todo| ==> |todo[i]| >= MinLength
    ensures Eligible(todo) == todo
  {
    if todo != [] {
      EligibleAllLong(todo[1..]);
      assert todo == [todo[0]] + todo[1..];
    }
  }

  /** A suffix of a list of long enough entries passes the filter whole. */
  lemma EligibleSuffixAllLong(all: seq<string>, k: nat)
    requires k <= |all|
    requires forall i :: 0 <= i < |all| ==> |all[i]| >= MinLength
    ensures Eligible(all[k..]) == all[k..]
  {
    assert forall i :: 0 <= i < |all| - k ==> all[k..][i] == all[k + i];
    EligibleAllLong(all[k..]);
  }
}
