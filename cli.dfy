/**
  The command line of the tool: showing and clearing the progress of a
  network, and the dispatch of `main` between those two requests and a
  run with or without resume. Argument parsing itself is not modelled; the
  parsed arguments arrive as an `Args` value.
 */
module Cli {
  import opened Wrappers
  import opened Candidates
  import opened Progress
  import opened Sequencer

  /** How many attempted passwords `show_progress` lists. */
  const ShownEntries: nat := 10

  /** Python's `l[-10:]`: the last ten entries, or all of them when there
      are fewer. */
  function LastTen(l: seq<string>): (r: seq<string>)
    ensures |r| == if |l| < ShownEntries then |l| else ShownEntries
    ensures r == l[|l| - |r|..]
  {
    if |l| <= ShownEntries then l else l[|l| - ShownEntries..]
  }

  /** What `show_progress` reports for a network that has a progress file:
      how many passwords it records and the last ten of them. */
  datatype Shown = Shown(count: nat, lastTen: seq<string>)

  /** `show_progress(ssid)`: nothing when the network has no progress file;
      otherwise the count and the last ten entries of what `load_progress`
      reads, which is the empty record for a file that does not load. */
  function ShowProgress(store: ProgressStore, ssid: string): (r: Option<Shown>)
    reads store
    ensures r.None? <==> store.PathOf(ssid) !in store.files
    ensures r.Some? ==>
              var a := store.Load(store.PathOf(ssid)).attempted;
              && r.value.count == |a|
              && |r.value.lastTen| == (if |a| < ShownEntries then |a| else ShownEntries)
              && r.value.lastTen == a[|a| - |r.value.lastTen|..]
    ensures r.Some? && store.files[store.PathOf(ssid)].Unreadable? ==> r == Some(Shown(0, []))
  {
    var path := store.PathOf(ssid);
    if path in store.files then
      var attempted := store.Load(path).attempted;
      Some(Shown(|attempted|, LastTen(attempted)))
    else
      None
  }

  /** `clear_progress(ssid)`: removes the network's progress file, after
      which there is nothing to show for it. */
  method ClearProgress(store: ProgressStore, ssid: string)
    modifies store
    ensures store.files == old(store.files) - {store.PathOf(ssid)}
    ensures ShowProgress(store, ssid).None?
  {
    store.Cleanup(store.PathOf(ssid));
  }

  /** The parsed command line: `-f/--file`, `-s/--ssid` (absent when not
      given), `--no-resume`, `--show-progress` and `--clear-progress`. */
  datatype Args = Args(file: Option<string>, ssid: Option<string>, noResume: bool,
                       showProgress: bool, clearProgress: bool)

  /** An argument counts as given when it is present and non-empty (Python's
      truth value of a string). */
  predicate Given(arg: Option<string>) {
    arg.Some? && arg.value != ""
  }

  /** What `main` did. */
  datatype Report =
    | UsageError
    | Showed(shown: Option<Shown>)
    | Cleared
    | Ran(outcome: Outcome, trials: seq<string>)

  /** `main`: `--show-progress` wins over `--clear-progress`, which wins over
      a run; each needs its arguments or reports a usage error and changes
      nothing. A run resumes unless `--no-resume` is given, in which case
      the network's progress file is removed first and the run starts from
      nothing and never writes one. The password file is read by
      `readWordlist`, the privilege probe's answer is `privileged`, and the
      network join is `oracle`. */
  method Dispatch(store: ProgressStore, args: Args, readWordlist: string -> Wordlist,
                  privileged: bool, oracle: Oracle)
    returns (report: Report)
    modifies store
    ensures args.showProgress ==>
              && store.files == old(store.files)
              && report == if Given(args.ssid) then Showed(ShowProgress(store, args.ssid.value))
                           else UsageError
    ensures !args.showProgress && args.clearProgress ==>
              if Given(args.ssid) then
                report == Cleared && store.files == old(store.files) - {store.PathOf(args.ssid.value)}
              else
                report == UsageError && store.files == old(store.files)
    ensures !args.showProgress && !args.clearProgress && !(Given(args.file) && Given(args.ssid)) ==>
              report == UsageError && store.files == old(store.files)
    ensures !args.showProgress && !args.clearProgress && Given(args.file) && Given(args.ssid) ==>
              var ssid := args.ssid.value;
              var path := store.PathOf(ssid);
              var resume := !args.noResume;
              var start := StartSet(old(store.Load(path)), resume);
              var run := Expected(readWordlist(args.file.value), privileged, start, ssid, oracle);
              && report == Ran(run.outcome, run.trials)
              && if !resume || run.outcome.Exhausted? then store.files == old(store.files) - {path}
                 else KeptProgress(old(store.files), store.files, path, true, start, run.failures, ssid)
  {
    if args.showProgress {
      if !Given(args.ssid) {
        return UsageError;
      }
      return Showed(ShowProgress(store, args.ssid.value));
    }
    if args.clearProgress {
      if !Given(args.ssid) {
        return UsageError;
      }
      ClearProgress(store, args.ssid.value);
      return Cleared;
    }
    if !Given(args.file) || !Given(args.ssid) {
      return UsageError;
    }
    var ssid := args.ssid.value;
    var resume := !args.noResume;
    if !resume {
      store.Cleanup(store.PathOf(ssid));
    }
    var outcome, trials := BruteForce(store, readWordlist(args.file.value), ssid, resume, privileged, oracle);
    report := Ran(outcome, trials);
  }
}
