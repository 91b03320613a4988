/**
  `brute_force_wifi`: the resumable trial loop. The network join
  (`test_wifi_password`) is an oracle; the privilege probe is a boolean
  input; the password file arrives as its lines.

  `Expected` is the reference definition of a run, built from the list
  filters and the first successful trial; `BruteForce` is the loop, proved
  to produce exactly that run and the progress files it implies.
 */
module Sequencer {
  import opened Text
  import opened Wrappers
  import opened Candidates
  import opened Progress

  /** The network's answer to trial number `n` of this run (counted from 0)
      joining `ssid` with `password`. The trial number lets the answer
      change over time, as a real network's may. */
  type Oracle = (nat, string, string) -> bool

  /** The password file as the run finds it. */
  datatype Wordlist = Missing | Unreadable | Lines(lines: seq<string>)

  /** How a run ends. Only `Cracked` makes `brute_force_wifi` return True. */
  datatype Outcome =
    | WordlistMissing
    | NotPrivileged
    | WordlistUnreadable
    | NothingNew
    | Cracked(password: string)
    | Exhausted
  {
    /** The boolean `brute_force_wifi` returns. */
    predicate Returned() {
      Cracked?
    }
  }

  /** A run as seen from outside: its outcome, the passwords passed to the
      oracle in call order, and those among them that failed. */
  datatype Run = Run(outcome: Outcome, trials: seq<string>, failures: seq<string>)

  /** The first trial, from position `from` on, at which the oracle accepts
      the password, if any. */
  function FirstWin(el: seq<string>, ssid: string, oracle: Oracle, from: nat): (r: Option<nat>)
    requires from <= |el|
    ensures r.Some? ==> from <= r.value < |el| && oracle(r.value, ssid, el[r.value])
    ensures r.Some? ==> forall j :: from <= j < r.value ==> !oracle(j, ssid, el[j])
    ensures r.None? ==> forall j :: from <= j < |el| ==> !oracle(j, ssid, el[j])
    decreases |el| - from
  {
    if from == |el| then None
    else if oracle(from, ssid, el[from]) then Some(from)
    else FirstWin(el, ssid, oracle, from + 1)
  }

  /** Every trial of `tried` failed, trial `j` being `tried[j]`. */
  predicate AllFail(tried: seq<string>, ssid: string, oracle: Oracle) {
    forall j :: 0 <= j < |tried| ==> !oracle(j, ssid, tried[j])
  }

  /** A failed trial extends a run of failures. */
  lemma AllFailSnoc(tried: seq<string>, password: string, ssid: string, oracle: Oracle)
    requires AllFail(tried, ssid, oracle) && !oracle(|tried|, ssid, password)
    ensures AllFail(tried + [password], ssid, oracle)
  {
    assert forall j :: 0 <= j < |tried| ==> (tried + [password])[j] == tried[j];
  }

  /** The set of passwords the run starts from: the loaded record's when
      resuming, and none otherwise. */
  function StartSet(loaded: Record, resume: bool): (r: set<string>)
    ensures forall p :: p in r <==> resume && p in loaded.attempted
  {
    if resume then Elems(loaded.attempted) else {}
  }

  /** Trying the eligible entries `el` in order until the first success. */
  function Sweep(el: seq<string>, ssid: string, oracle: Oracle): (r: Run)
    ensures r.outcome.Cracked? || r.outcome.Exhausted?
    ensures r.outcome.Cracked? ==> r.trials == r.failures + [r.outcome.password]
    ensures r.outcome.Exhausted? ==> r.trials == r.failures == el
  {
    match FirstWin(el, ssid, oracle, 0)
    case Some(w) =>
      assert el[..w + 1] == el[..w] + [el[w]];
      Run(Cracked(el[w]), el[..w + 1], el[..w])
    case None => Run(Exhausted, el, el)
  }

  /** The reference run: the candidates not yet attempted, the long enough
      ones among them tried in order until the first success. */
  function Expected(wordlist: Wordlist, privileged: bool, start: set<string>, ssid: string, oracle: Oracle): (r: Run)
    ensures r.outcome.Cracked? ==> r.trials == r.failures + [r.outcome.password]
    ensures !r.outcome.Cracked? ==> r.trials == r.failures
  {
    if wordlist.Missing? then Run(WordlistMissing, [], [])
    else if !privileged then Run(NotPrivileged, [], [])
    else if wordlist.Unreadable? then Run(WordlistUnreadable, [], [])
    else
      var todo := Remaining(ReadCandidates(wordlist.lines), start);
      if todo == [] then Run(NothingNew, [], [])
      else Sweep(Eligible(todo), ssid, oracle)
  }

  /** The progress file at `path` holds `attempted` (as a list without
      repeats, in some order) and `ssid`. */
  ghost predicate Saved(files: map<string, Stored>, path: string, attempted: set<string>, ssid: string) {
    && path in files
    && files[path].Json?
    && files[path].record.ssid == ssid
    && Elems(files[path].record.attempted) == attempted
    && Distinct(files[path].record.attempted)
  }

  /** The files after a run that has not cleaned up: untouched unless the run
      resumes and some trial failed, in which case only `path` changed and it
      holds the start set plus every failure. */
  ghost predicate KeptProgress(before: map<string, Stored>, after: map<string, Stored>, path: string,
                               resume: bool, start: set<string>, failures: seq<string>, ssid: string) {
    if resume && failures != [] then
      after - {path} == before - {path} && Saved(after, path, start + Elems(failures), ssid)
    else
      after == before
  }

  /** `list(attempted_passwords)`: the elements of a set, each once, in an
      order the model leaves open. */
  method ListOf(s: set<string>) returns (l: seq<string>)
    ensures Elems(l) == s && Distinct(l)
  {
    l := [];
    var rest := s;
    while rest != {}
      invariant Elems(l) + rest == s
      invariant Elems(l) !! rest
      invariant Distinct(l)
      decreases |rest|
    {
      var x :| x in rest;
      ElemsSnoc(l, x);
      DistinctSnoc(l, x);
      l := l + [x];
      rest := rest - {x};
    }
  }

  /** A sweep whose first `|failed|` trials fail and whose next one
      succeeds cracks with that password. */
  lemma CrackedSweep(el: seq<string>, ssid: string, oracle: Oracle, failed: seq<string>, password: string)
    requires |failed| < |el| && el[..|failed| + 1] == failed + [password]
    requires forall j :: 0 <= j < |failed| ==> !oracle(j, ssid, failed[j])
    requires oracle(|failed|, ssid, password)
    ensures Sweep(el, ssid, oracle) == Run(Cracked(password), failed + [password], failed)
  {
    var k := |failed|;
    assert forall j :: 0 <= j < k ==> el[j] == el[..k + 1][j] == failed[j];
    assert el[k] == el[..k + 1][k] == password;
    assert FirstWin(el, ssid, oracle, 0) == Some(k);
    assert el[..k] == el[..k + 1][..k] == failed;
  }

  /** The files while the loop runs: the original ones, or, once the run
      resumes and has recorded a failure, the original ones with `path`
      holding the last list saved, which lists `seen`. */
  ghost predicate SavedSoFar(before: map<string, Stored>, files: map<string, Stored>, path: string,
                             resume: bool, failures: seq<string>, saved: seq<string>,
                             seen: set<string>, ssid: string) {
    if resume && failures != [] then
      files == before[path := Json(Record(saved, ssid))] && Elems(saved) == seen && Distinct(saved)
    else
      files == before
  }

  /** How the trial loop ends: as the reference sweep of the eligible
      entries of `todo`, with the files removed at `path` on exhaustion and
      otherwise as `KeptProgress` says. */
  ghost predicate EndsAsSweep(todo: seq<string>, ssid: string, oracle: Oracle, resume: bool,
                              attempted: set<string>, path: string,
                              before: map<string, Stored>, after: map<string, Stored>,
                              outcome: Outcome, trials: seq<string>) {
    var run := Sweep(Eligible(todo), ssid, oracle);
    && outcome == run.outcome
    && trials == run.trials
    && if outcome.Exhausted? then after == before - {path}
       else KeptProgress(before, after, path, resume, attempted, run.failures, ssid)
  }

  /** The loop's exit on a successful trial ends as the sweep does. */
  lemma CrackedEnd(todo: seq<string>, ssid: string, oracle: Oracle, resume: bool, attempted: set<string>,
                   path: string, before: map<string, Stored>, files: map<string, Stored>,
                   failed: seq<string>, saved: seq<string>, password: string)
    requires |failed| < |Eligible(todo)| && Eligible(todo)[..|failed| + 1] == failed + [password]
    requires AllFail(failed, ssid, oracle) && oracle(|failed|, ssid, password)
    requires SavedSoFar(before, files, path, resume, failed, saved, attempted + Elems(failed), ssid)
    ensures EndsAsSweep(todo, ssid, oracle, resume, attempted, path, before, files,
                        Cracked(password), failed + [password])
  {
    CrackedSweep(Eligible(todo), ssid, oracle, failed, password);
  }

  /** The loop's exit when the list runs out, after the clean-up, ends as the
      sweep does. */
  lemma ExhaustedEnd(todo: seq<string>, ssid: string, oracle: Oracle, resume: bool, attempted: set<string>,
                     path: string, before: map<string, Stored>, files: map<string, Stored>,
                     saved: seq<string>)
    requires AllFail(Eligible(todo), ssid, oracle)
    requires SavedSoFar(before, files, path, resume, Eligible(todo), saved, attempted + Elems(Eligible(todo)), ssid)
    ensures EndsAsSweep(todo, ssid, oracle, resume, attempted, path, before, files - {path},
                        Exhausted, Eligible(todo))
  {
    assert FirstWin(Eligible(todo), ssid, oracle, 0).None?;
    if resume && Eligible(todo) != [] {
      assert files - {path} == before - {path};
    }
  }

  /** How the long-enough filter splits at position `i`. */
  lemma {:induction false} EligibleAround(todo: seq<string>, i: nat)
    requires i < |todo|
    ensures Eligible(todo[..i + 1]) == Eligible(todo[..i]) + Eligible([todo[i]])
    ensures Eligible(todo) == Eligible(todo[..i + 1]) + Eligible(todo[i + 1..])
  {
    assert todo[..i + 1] == todo[..i] + [todo[i]];
    EligibleAppend(todo[..i], [todo[i]]);
    assert todo == todo[..i + 1] + todo[i + 1..];
    EligibleAppend(todo[..i + 1], todo[i + 1..]);
  }

  /** The bookkeeping after a failed trial: the password joins the
      in-memory attempted set, which is saved (as a list in some order) only
      when the run resumes. */
  method RecordFailure(store: ProgressStore, path: string, attempted: set<string>, password: string,
                       ssid: string, resume: bool)
    returns (grown: set<string>, ghost saved: seq<string>)
    modifies store
    ensures grown == attempted + {password}
    ensures resume ==> store.files == old(store.files)[path := Json(Record(saved, ssid))]
                       && Elems(saved) == grown && Distinct(saved)
    ensures !resume ==> store.files == old(store.files)
  {
    grown := attempted + {password};
    saved := [];
    if resume {
      var list := ListOf(grown);
      store.Save(path, list, ssid);
      saved := list;
    }
  }

  /** The `for` loop of `brute_force_wifi` and the clean-up after it: tries
      the long enough entries of `todo` in order, starting from the
      in-memory set `attempted`, and ends as the reference sweep does. */
  method TrialLoop(store: ProgressStore, path: string, todo: seq<string>, attempted: set<string>,
                   ssid: string, resume: bool, oracle: Oracle)
    returns (outcome: Outcome, trials: seq<string>)
    modifies store
    ensures EndsAsSweep(todo, ssid, oracle, resume, attempted, path, old(store.files), store.files, outcome, trials)
  {
    ghost var before := store.files;
    var seen := attempted;
    ghost var saved: seq<string> := [];
    trials := [];
    var i := 0;
    while i < |todo|
      invariant i <= |todo|
      invariant trials == Eligible(todo[..i])
      invariant AllFail(trials, ssid, oracle)
      invariant seen == attempted + Elems(trials)
      invariant SavedSoFar(before, store.files, path, resume, trials, saved, seen, ssid)
    {
      var password := todo[i];
      EligibleAround(todo, i);
      if |password| >= MinLength {
        assert Eligible([password]) == [password];
        if oracle(|trials|, ssid, password) {
          assert Eligible(todo)[..|trials| + 1] == trials + [password];
          CrackedEnd(todo, ssid, oracle, resume, attempted, path, before, store.files,
                     trials, saved, password);
          outcome, trials := Cracked(password), trials + [password];
          return;
        }
        ElemsSnoc(trials, password);
        AllFailSnoc(trials, password, ssid, oracle);
        trials := trials + [password];
        seen, saved := RecordFailure(store, path, seen, password, ssid, resume);
      } else {
        assert Eligible([password]) == [];
      }
      i := i + 1;
    }
    assert todo[..i] == todo;
    ExhaustedEnd(todo, ssid, oracle, resume, attempted, path, before, store.files, saved);
    store.Cleanup(path);
    outcome := Exhausted;
  }

  /** `brute_force_wifi(txt_file_path, ssid, resume)`: returns the outcome
      and the passwords it passed to the oracle; the progress file of `ssid`
      is saved after each failure when resuming, left alone on success or
      when nothing is new, and removed when the list runs out. */
  method BruteForce(store: ProgressStore, wordlist: Wordlist, ssid: string, resume: bool,
                    privileged: bool, oracle: Oracle)
    returns (outcome: Outcome, trials: seq<string>)
    modifies store
    ensures var path := store.PathOf(ssid);
            var start := StartSet(old(store.Load(path)), resume);
            var run := Expected(wordlist, privileged, start, ssid, oracle);
            && outcome == run.outcome
            && trials == run.trials
            && if outcome.Exhausted? then store.files == old(store.files) - {path}
               else KeptProgress(old(store.files), store.files, path, resume, start, run.failures, ssid)
    ensures !outcome.Cracked? && !outcome.Exhausted? ==> trials == [] && store.files == old(store.files)
  {
    if wordlist.Missing? {
      return WordlistMissing, [];
    }
    if !privileged {
      return NotPrivileged, [];
    }
    var path := store.PathOf(ssid);
    var progress := if resume then store.Load(path) else Record([], ssid);
    if wordlist.Unreadable? {
      return WordlistUnreadable, [];
    }
    var all := ReadCandidates(wordlist.lines);
    var attempted := Elems(progress.attempted);
    var todo := Remaining(all, attempted);
    if |todo| == 0 {
      return NothingNew, [];
    }
    assert attempted == StartSet(old(store.Load(path)), resume);
    outcome, trials := TrialLoop(store, path, todo, attempted, ssid, resume, oracle);
  }

  /** A sweep calls the oracle on a prefix of `el`, in order: every trial
      before the last failed, a cracking sweep's last trial succeeded, and an
      exhausted sweep tried all of `el`. */
  lemma SweepStopsAtFirstSuccess(el: seq<string>, ssid: string, oracle: Oracle)
    ensures var r := Sweep(el, ssid, oracle);
            && |r.trials| <= |el| && r.trials == el[..|r.trials|]
            && AllFail(r.failures, ssid, oracle)
            && (r.outcome.Cracked? ==> oracle(|r.failures|, ssid, r.outcome.password))
  {
    match FirstWin(el, ssid, oracle, 0)
    case Some(w) =>
      assert forall j :: 0 <= j < w ==> el[..w][j] == el[j];
    case None =>
  }

  /** A sweep cracks exactly when the oracle accepts some entry at its turn. */
  lemma SweepCrackedIff(el: seq<string>, ssid: string, oracle: Oracle)
    ensures Sweep(el, ssid, oracle).outcome.Cracked?
            <==> exists j :: 0 <= j < |el| && oracle(j, ssid, el[j])
  {
    var w := FirstWin(el, ssid, oracle, 0);
    if w.Some? {
      assert oracle(w.value, ssid, el[w.value]);
    }
  }

  /** Past its early exits, a run is the sweep of the eligible new candidates. */
  lemma ExpectedIsSweep(lines: seq<string>, start: set<string>, ssid: string, oracle: Oracle)
    ensures var todo := Remaining(ReadCandidates(lines), start);
            var r := Expected(Lines(lines), true, start, ssid, oracle);
            if todo == [] then r == Run(NothingNew, [], [])
            else r == Sweep(Eligible(todo), ssid, oracle)
  {
  }

  /** For a run whose failures were all rejected and whose cracking trial,
      if any, was accepted, the last trial decides what is returned. */
  lemma LastTrialDecides(r: Run, ssid: string, oracle: Oracle)
    requires AllFail(r.failures, ssid, oracle)
    requires r.outcome.Cracked? ==> r.trials == r.failures + [r.outcome.password]
                                    && oracle(|r.failures|, ssid, r.outcome.password)
    requires !r.outcome.Cracked? ==> r.trials == r.failures
    ensures r.outcome.Returned()
            <==> r.trials != [] && oracle(|r.trials| - 1, ssid, r.trials[|r.trials| - 1])
  {
    if !r.outcome.Cracked? && r.trials != [] {
      assert !oracle(|r.failures| - 1, ssid, r.failures[|r.failures| - 1]);
    }
  }

  /** `brute_force_wifi` returns True exactly when its last trial was
      accepted by the network, and every trial before it failed. */
  lemma ReturnedIffLastTrialAccepted(wordlist: Wordlist, privileged: bool, start: set<string>,
                                     ssid: string, oracle: Oracle)
    ensures var r := Expected(wordlist, privileged, start, ssid, oracle);
            && AllFail(r.failures, ssid, oracle)
            && (r.outcome.Returned()
                <==> r.trials != [] && oracle(|r.trials| - 1, ssid, r.trials[|r.trials| - 1]))
  {
    var r := Expected(wordlist, privileged, start, ssid, oracle);
    assert AllFail(r.failures, ssid, oracle)
           && (r.outcome.Cracked? ==> oracle(|r.failures|, ssid, r.outcome.password)) by {
      if wordlist.Lines? && privileged {
        var todo := Remaining(ReadCandidates(wordlist.lines), start);
        ExpectedIsSweep(wordlist.lines, start, ssid, oracle);
        if todo != [] {
          SweepStopsAtFirstSuccess(Eligible(todo), ssid, oracle);
        }
      }
    }
    LastTrialDecides(r, ssid, oracle);
  }

  /** Every password that reaches the oracle is a candidate of the file, is
      not in the start set, and is at least `MinLength` long. */
  lemma TrialsAreLongNewCandidates(wordlist: Wordlist, privileged: bool, start: set<string>,
                                   ssid: string, oracle: Oracle, p: string)
    requires p in Expected(wordlist, privileged, start, ssid, oracle).trials
    ensures wordlist.Lines? && privileged
    ensures |p| >= MinLength && p !in start && p in ReadCandidates(wordlist.lines)
  {
    var todo := Remaining(ReadCandidates(wordlist.lines), start);
    var el := Eligible(todo);
    ExpectedIsSweep(wordlist.lines, start, ssid, oracle);
    var r := Sweep(el, ssid, oracle);
    SweepStopsAtFirstSuccess(el, ssid, oracle);
    assert p in el by {
      var k :| 0 <= k < |r.trials| && r.trials[k] == p;
      assert el[k] == p;
    }
    EligibleMembership(todo, p);
    RemainingMembership(ReadCandidates(wordlist.lines), start, p);
  }

  /** A password shorter than `MinLength` never reaches the oracle and is
      never added to the attempted set. */
  lemma ShortNeverTriedNorRecorded(wordlist: Wordlist, privileged: bool, start: set<string>,
                                   ssid: string, oracle: Oracle, p: string)
    requires |p| < MinLength
    ensures var r := Expected(wordlist, privileged, start, ssid, oracle);
            p !in r.trials && p !in Elems(r.failures)
            && (p in start + Elems(r.failures) <==> p in start)
  {
    var r := Expected(wordlist, privileged, start, ssid, oracle);
    if p in r.trials {
      TrialsAreLongNewCandidates(wordlist, privileged, start, ssid, oracle, p);
    }
  }

  /** The oracle is called on the eligible new candidates in order, up to and
      including the first one it accepts; a run that was not cracked tried
      every one of them, repeats included. */
  lemma TrialsStopAtFirstSuccess(lines: seq<string>, start: set<string>, ssid: string, oracle: Oracle)
    ensures var el := Eligible(Remaining(ReadCandidates(lines), start));
            var r := Expected(Lines(lines), true, start, ssid, oracle);
            && |r.trials| <= |el| && r.trials == el[..|r.trials|]
            && AllFail(r.failures, ssid, oracle)
            && (r.outcome.Cracked? ==> oracle(|r.failures|, ssid, r.outcome.password))
            && (!r.outcome.Cracked? ==> r.trials == el)
  {
    var todo := Remaining(ReadCandidates(lines), start);
    ExpectedIsSweep(lines, start, ssid, oracle);
    SweepStopsAtFirstSuccess(Eligible(todo), ssid, oracle);
    if todo == [] {
      assert Eligible(todo) == [];
    }
  }

  /** A run that gets to the loop is cracked exactly when the oracle accepts
      some eligible new candidate at its turn. */
  lemma CrackedIffSomeTrialSucceeds(lines: seq<string>, start: set<string>, ssid: string, oracle: Oracle)
    ensures var el := Eligible(Remaining(ReadCandidates(lines), start));
            Expected(Lines(lines), true, start, ssid, oracle).outcome.Cracked?
            <==> exists j :: 0 <= j < |el| && oracle(j, ssid, el[j])
  {
    var todo := Remaining(ReadCandidates(lines), start);
    ExpectedIsSweep(lines, start, ssid, oracle);
    SweepCrackedIff(Eligible(todo), ssid, oracle);
    if todo == [] {
      assert Eligible(todo) == [];
    }
  }

  /** With an oracle whose answer for a password does not change from trial
      to trial, the cracking password is in neither the loaded set nor the
      failures, so it is never recorded as attempted. */
  lemma StableOracleWinnerNotRecorded(wordlist: Wordlist, privileged: bool, start: set<string>,
                                      ssid: string, oracle: Oracle)
    requires forall n: nat, q: string :: oracle(n, ssid, q) == oracle(0, ssid, q)
    ensures var r := Expected(wordlist, privileged, start, ssid, oracle);
            r.outcome.Cracked? ==> r.outcome.password !in start + Elems(r.failures)
  {
    var r := Expected(wordlist, privileged, start, ssid, oracle);
    if r.outcome.Cracked? {
      var p := r.outcome.password;
      assert p in r.trials;
      TrialsAreLongNewCandidates(wordlist, privileged, start, ssid, oracle, p);
      TrialsStopAtFirstSuccess(wordlist.lines, start, ssid, oracle);
      forall j | 0 <= j < |r.failures| ensures r.failures[j] != p {
        assert !oracle(j, ssid, r.failures[j]);
        assert oracle(j, ssid, p) == oracle(|r.failures|, ssid, p);
      }
    }
  }

  /** A sweep in which no trial is accepted tries every entry and is
      exhausted. */
  lemma SweepNeverAccepted(el: seq<string>, ssid: string, oracle: Oracle)
    requires forall n: nat, q: string :: !oracle(n, ssid, q)
    ensures Sweep(el, ssid, oracle) == Run(Exhausted, el, el)
  {
    assert FirstWin(el, ssid, oracle, 0).None?;
  }

  /** Resuming a list without repeats whose first `k` entries are recorded
      and which are all long enough: when no trial succeeds, the oracle is
      called on exactly the other `|all| - k` entries, in order. */
  lemma ResumedRunTriesTheRest(lines: seq<string>, k: nat, ssid: string, oracle: Oracle)
    requires var all := ReadCandidates(lines);
             k < |all| && Distinct(all) && forall i :: 0 <= i < |all| ==> |all[i]| >= MinLength
    requires forall n: nat, q: string :: !oracle(n, ssid, q)
    ensures var all := ReadCandidates(lines);
            var r := Expected(Lines(lines), true, Elems(all[..k]), ssid, oracle);
            r.outcome == Exhausted && r.trials == all[k..]
  {
    var all := ReadCandidates(lines);
    var rest := all[k..];
    ResumeSkipsRecordedPrefix(all, k);
    EligibleSuffixAllLong(all, k);
    SweepNeverAccepted(rest, ssid, oracle);
    ExpectedIsSweep(lines, Elems(all[..k]), ssid, oracle);
  }

  /** Because the filter runs once before the loop, a password that occurs
      twice in the file is tried twice by a run that never cracks. */
  lemma RepeatedPasswordTriedTwice(p: string, ssid: string, oracle: Oracle)
    requires IsTrimmed(p) && |p| >= MinLength
    requires forall n: nat, q: string :: !oracle(n, ssid, q)
    ensures Expected(Lines([p, p]), true, {}, ssid, oracle).trials == [p, p]
  {
    var lines := [p, p];
    assert Remaining(ReadCandidates(lines), {}) == lines by {
      ReadCandidatesOfTrimmed(lines);
      RemainingNothingAttempted(lines);
    }
    assert Eligible(lines) == lines by {
      EligibleAllLong(lines);
    }
    assert FirstWin(lines, ssid, oracle, 0).None?;
    ExpectedIsSweep(lines, {}, ssid, oracle);
  }

  /** Reading `short`, `first`, `second` with nothing attempted leaves the
      two long ones to try. */
  lemma ShortSkippedOnRead(short: string, first: string, second: string)
    requires short != [] && IsTrimmed(short) && |short| < MinLength
    requires IsTrimmed(first) && |first| >= MinLength && IsTrimmed(second) && |second| >= MinLength
    ensures Remaining(ReadCandidates([short, first, second]), {}) == [short, first, second]
    ensures Eligible([short, first, second]) == [first, second]
  {
    var lines := [short, first, second];
    assert ReadCandidates(lines) == lines by {
      ReadCandidatesOfTrimmed(lines);
    }
    RemainingNothingAttempted(lines);
    assert Eligible(lines) == [first, second] by {
      assert lines == [short] + [first, second];
      EligibleAppend([short], [first, second]);
      EligibleAllLong([first, second]);
    }
  }

  /** A run with no prior progress over a file `short`, `first`, `second`
      (for instance `short`, `longenoughpass`, `anotherlongpass`) where
      `first` fails and `second` joins: `short` is skipped, `first` is
      recorded, `second` cracks the network, and the record holds just
      `first`. */
  lemma CrackingRunExample(short: string, first: string, second: string, ssid: string, oracle: Oracle)
    requires short != [] && IsTrimmed(short) && |short| < MinLength
    requires IsTrimmed(first) && |first| >= MinLength && IsTrimmed(second) && |second| >= MinLength
    requires !oracle(0, ssid, first) && oracle(1, ssid, second)
    ensures var r := Expected(Lines([short, first, second]), true, {}, ssid, oracle);
            && r.outcome == Cracked(second)
            && r.trials == [first, second]
            && Elems(r.failures) == {first}
  {
    ShortSkippedOnRead(short, first, second);
    ExpectedIsSweep([short, first, second], {}, ssid, oracle);
    CrackedSweep([first, second], ssid, oracle, [first], second);
    assert Elems([first]) == {first};
  }
}
