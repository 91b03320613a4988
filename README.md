# Resumable Wi-Fi password trial sequencing

This project models the core of `macos_brute_force.py`, a macOS tool that tries
the passwords of a password file one by one against a Wi-Fi network. The model
covers the order in which candidates reach the network and the per-network
progress file that lets an interrupted run resume where it stopped.

- **`Text`** is Python's `str.strip()`.
- **`Candidates`** holds the list comprehensions of `brute_force_wifi`:
  - reading the file into stripped, non-blank candidates;
  - dropping the already attempted ones;
  - keeping those at least 8 characters long.
- **`Progress`** is the progress store (`ProgressStore`).
  - The file system is a map from file name to content.
  - The file name is `wifi_progress_` + the first 10 hex digits of the SSID's digest + `.json`.
  - `load_progress`, `save_progress` and `cleanup_progress` act on that map.
- **`Sequencer`** is `brute_force_wifi` itself.
  - `Expected` is the reference definition of a run: its outcome, the passwords passed to the network in call order, and the failures among them.
  - `BruteForce` and its loop `TrialLoop` are proved to produce exactly that run and the progress files it implies.
- **`Cli`** covers `show_progress`, `clear_progress` and the dispatch of `main`.

The network join `test_wifi_password` is an oracle, `Oracle`. It takes the trial number, the SSID and the password, so the network may answer a repeated password differently. The administrator check is a boolean input. The password file arrives as its lines, or as missing or unreadable.

The saved list is `list(set)`, so its order is left open. `ListOf` picks any order and promises only that the list holds each element of the set exactly once.

Where the digest is concerned, the model assumes only that it is a function. Two SSIDs whose digests share their first ten digits share a progress file. In that case a resumed run uses the other network's record, since `load_progress` never looks at the stored SSID. The model keeps this behaviour.

## Model

| member | source | states |
|---|---|---|
| Text.IsSpace | macos_brute_force.py:133 | the characters `str.strip()` removes: those for which `str.isspace()` holds |
| Text.StripLeading | macos_brute_force.py:133 | the result is a suffix of the line, everything dropped is whitespace, and the result does not start with whitespace |
| Text.StripTrailing | macos_brute_force.py:133 | the result is a prefix of the line, everything dropped is whitespace, and the result does not end with whitespace |
| Text.Strip | macos_brute_force.py:133 | `line.strip()` has whitespace at neither end and is no longer than the line |
| Text.StripRemovesOuterWhitespace | macos_brute_force.py:133 | `line.strip()` is an infix of the line with only whitespace before and after it (with `Strip`'s contract, the line minus its outer whitespace) |
| Text.StripOfTrimmed | macos_brute_force.py:133 | a string with no whitespace at either end is its own strip |
| Text.StripIdempotent | macos_brute_force.py:133 | stripping twice is stripping once |
| Text.StripEmptyIffBlank | macos_brute_force.py:133 | a line strips to `""` (and is dropped) exactly when every character is whitespace |
| Candidates.Elems | macos_brute_force.py:136 | `set(list)`: the elements of a list |
| Candidates.ElemsSnoc | macos_brute_force.py:171 | adding a password to the attempted list adds exactly it to the set |
| Candidates.DistinctSnoc | macos_brute_force.py:173 | adding an absent password keeps the saved list free of repeats |
| Candidates.ReadCandidates | macos_brute_force.py:133 | the candidate list is no longer than the file |
| Candidates.CandidatesAreStripped | macos_brute_force.py:133 | no candidate is blank and every candidate equals its own stripped form |
| Candidates.ReadCandidatesOfTrimmed | macos_brute_force.py:133 | a file of non-blank, already trimmed lines reads back line for line |
| Candidates.ReadCandidatesAppend | macos_brute_force.py:133 | reading keeps the file order: a file in two parts reads as the two parts read in turn |
| Candidates.ReadCandidatesMembership | macos_brute_force.py:133 | a string is a candidate iff it is the non-blank strip of some line |
| Candidates.Remaining | macos_brute_force.py:136-137 | no entry of `new_passwords` is in the attempted set, and it is no longer than the list |
| Candidates.RemainingMembership | macos_brute_force.py:136-137 | an entry remains iff it is in the list and not in the attempted set |
| Candidates.RemainingAppend | macos_brute_force.py:137 | the filter keeps the original order: a list in two parts filters part by part |
| Candidates.RemainingNothingAttempted | macos_brute_force.py:122-137 | with an empty attempted set (a run without resume) every candidate remains |
| Candidates.RemainingIdempotent | macos_brute_force.py:137 | filtering twice against the same set is filtering once |
| Candidates.RemainingAfterAttemptedPrefix | macos_brute_force.py:136-137 | when exactly the first k entries are attempted, the rest of the list remains, in order |
| Candidates.ResumeSkipsRecordedPrefix | macos_brute_force.py:136-137 | resuming from a record of the first k entries of a repeat-free list leaves the other entries, in order |
| Candidates.Skipped | macos_brute_force.py:140 | every skipped entry is in the attempted set |
| Candidates.SkippedPlusRemaining | macos_brute_force.py:139-141 | `skipped + remaining == total`, counting repeats |
| Candidates.Eligible | macos_brute_force.py:152-153 | the entries that reach a trial are no more than those remaining |
| Candidates.EligibleMembership | macos_brute_force.py:152-153 | an entry reaches a trial iff it remains and is at least 8 long |
| Candidates.EligibleAppend | macos_brute_force.py:151-153 | the length filter keeps order: a list in two parts filters part by part |
| Candidates.EligibleAllLong | macos_brute_force.py:152-153 | a list of entries at least 8 long passes the filter whole |
| Candidates.EligibleSuffixAllLong | macos_brute_force.py:152-153 | the rest of a list of long entries, from any position, passes the filter whole |
| Progress.Prefix | macos_brute_force.py:27 | Python's `s[:n]`: the first `min(len(s), n)` characters |
| Progress.ProgressFilePath | macos_brute_force.py:23-27 | the file name starts with `wifi_progress_`, ends with `.json` and holds at most 10 digest digits |
| Progress.SamePathIffSameDigestPrefix | macos_brute_force.py:23-27 | two SSIDs share a progress file iff their digests agree on the first 10 digits |
| Progress.ProgressStore.PathOf | macos_brute_force.py:23-27 | `get_progress_file_path(ssid)`: `wifi_progress_`, then the first 10 digits of the SSID's digest, then `.json` |
| Progress.ProgressStore.Load | macos_brute_force.py:29-44 | the stored record when the file exists and loads; otherwise `{attempted_passwords: [], ssid: ''}` |
| Progress.ProgressStore.Save | macos_brute_force.py:46-58 | overwrites only that file, and loading it back gives exactly what was saved |
| Progress.ProgressStore.Cleanup | macos_brute_force.py:60-67 | removes only that file, is a no-op on a missing file, and loading afterwards gives the empty record |
| Sequencer.StartSet | macos_brute_force.py:122-136 | the attempted set the run starts from: the loaded record's entries when resuming, none otherwise |
| Sequencer.Outcome.Returned | macos_brute_force.py:97-189 | the boolean `brute_force_wifi` returns: True only for a cracked run |
| Sequencer.FirstWin | macos_brute_force.py:151-166 | the first trial the oracle accepts, all before it failing; or none, every trial failing |
| Sequencer.AllFailSnoc | macos_brute_force.py:167-171 | a failed trial extends a run of failures |
| Sequencer.Sweep | macos_brute_force.py:151-182 | a sweep ends cracked, its trials being the failures then the winner, or exhausted, having tried and failed every entry |
| Sequencer.Expected | macos_brute_force.py:97-182 | a run's trials are its failures, plus the winner when cracked |
| Sequencer.ListOf | macos_brute_force.py:173 | `list(attempted_passwords)` holds each element of the set exactly once |
| Sequencer.CrackedSweep | macos_brute_force.py:157-166 | k failures followed by an accepted trial make the sweep crack with that password |
| Sequencer.CrackedEnd | macos_brute_force.py:157-166 | leaving the loop on a success ends as the reference run, with the record as after the last failure |
| Sequencer.ExhaustedEnd | macos_brute_force.py:178-182 | leaving the loop exhausted, then cleaning up, ends as the reference run with the file removed |
| Sequencer.EligibleAround | macos_brute_force.py:151-153 | the long-enough filter splits around loop position i |
| Sequencer.RecordFailure | macos_brute_force.py:170-173 | the in-memory set grows by exactly the failed password; the file is rewritten with it only when resuming, and untouched otherwise |
| Sequencer.TrialLoop | macos_brute_force.py:151-182 | the loop tries exactly the reference sweep's passwords; the file is removed on exhaustion, and otherwise holds the loaded set plus every failure (when resuming) or is untouched |
| Sequencer.BruteForce | macos_brute_force.py:97-182 | outcome and trials equal the reference run's; the files are as `TrialLoop` says; an early exit issues no trial and changes no file |
| Sequencer.SweepStopsAtFirstSuccess | macos_brute_force.py:151-166 | a sweep tries a prefix of the list in order; all trials but a cracking one fail, and the cracking one succeeds |
| Sequencer.SweepCrackedIff | macos_brute_force.py:157-166 | a sweep cracks iff the oracle accepts some entry at its turn |
| Sequencer.SweepNeverAccepted | macos_brute_force.py:151-182 | when no trial is accepted the sweep tries every entry and ends exhausted |
| Sequencer.ExpectedIsSweep | macos_brute_force.py:133-153 | past its checks, a run returns with no trial when nothing is new, and is otherwise the sweep of the eligible new candidates |
| Sequencer.LastTrialDecides | macos_brute_force.py:157-182 | when the failures were rejected and a cracking trial accepted, the last trial decides the returned boolean |
| Sequencer.ReturnedIffLastTrialAccepted | macos_brute_force.py:151-182 | every failure was rejected, and the run returns True iff its last trial was accepted |
| Sequencer.TrialsAreLongNewCandidates | macos_brute_force.py:133-157 | every password passed to the oracle is a candidate of the file, not loaded as attempted, and at least 8 long |
| Sequencer.ShortNeverTriedNorRecorded | macos_brute_force.py:152-153 | a password shorter than 8 is never passed to the oracle and never added to the attempted set |
| Sequencer.TrialsStopAtFirstSuccess | macos_brute_force.py:137-166 | the oracle is called on the eligible new candidates in order, up to and including the first success; a run not cracked tried them all, repeats included |
| Sequencer.CrackedIffSomeTrialSucceeds | macos_brute_force.py:151-166 | a run cracks iff the oracle accepts some eligible new candidate at its turn |
| Sequencer.StableOracleWinnerNotRecorded | macos_brute_force.py:157-173 | with an oracle whose answer does not change over time, the cracking password is neither loaded nor recorded |
| Sequencer.ResumedRunTriesTheRest | macos_brute_force.py:122-182 | with the first k of N long, repeat-free candidates recorded and no success, a resumed run tries exactly the other N-k, in order, and is exhausted |
| Sequencer.RepeatedPasswordTriedTwice | macos_brute_force.py:137-153 | a password occurring twice in the file is tried twice |
| Sequencer.ShortSkippedOnRead | macos_brute_force.py:133-153 | a short line and two long lines leave the two long ones to try |
| Sequencer.CrackingRunExample | macos_brute_force.py:133-173 | over `short`, a failing and an accepted password: the short one is skipped, the run cracks with the second long one, and only the first is recorded |
| Cli.LastTen | macos_brute_force.py:199 | `l[-10:]`: the last `min(len(l), 10)` entries |
| Cli.ShowProgress | macos_brute_force.py:191-202 | nothing iff no file exists; otherwise the recorded count and at most the last 10 entries; count 0 for a file that does not load |
| Cli.ClearProgress | macos_brute_force.py:204-208 | removes only the network's file, after which there is nothing to show |
| Cli.Given | macos_brute_force.py:227-242 | the truth test `not args.ssid` / `not args.file`: an argument counts only when present and non-empty |
| Cli.Dispatch | macos_brute_force.py:210-256 | show wins over clear, which wins over a run; a missing argument is a usage error that changes nothing; `--no-resume` removes the file first, and the run then starts from nothing and leaves no file; otherwise the run resumes from the loaded record |

## Left out

- `test_wifi_password` (lines 69-95): its `networksetup` calls, the timeout, the 5-second settle and the output scan. It is the `Oracle` parameter.
- The administrator check (lines 105-112): a subprocess call. It is the boolean `privileged`, and it fails before any state changes.
- MD5 and its hex encoding (lines 25-27): the store's `digest` field, a function of the SSID and nothing more. It is not assumed injective.
- JSON encoding and the `timestamp` field (line 52). The stored `ssid` is written but never read. A file that fails to open or parse, or lacks `attempted_passwords`, is `Unreadable`.
- A file whose `attempted_passwords` loads but is not a list of strings is not modelled: the record's list is always a list of strings. In the source, a string there makes line 136 build the set of its characters. A list holding lists makes `set()` raise `TypeError` at line 136, which line 187 catches, and the run ends with no trial.
- Progress.ProgressStore.Save: the failure path of `save_progress` (lines 57-58) is not modelled; the model always writes.
- Progress.ProgressStore.Cleanup: the failure path of `cleanup_progress` (lines 66-67) is not modelled; the model always removes.
- Reading the password file: opening it, decoding it as UTF-8 and splitting it into lines. The file arrives as `Missing`, `Unreadable` or its lines.
- The generic `except` of `brute_force_wifi` (lines 184-189) is modelled only as `WordlistUnreadable`. No other exception can arise in the model's steps.
- The 2-second `time.sleep` between trials (line 176).
- The `atexit` message (line 119), all coloured printing (lines 9-21) and the progress messages.
- `argparse` (lines 212-219): the parsed arguments arrive as `Args`.
- Interruption (Ctrl-C) in the middle of a run is not modelled. `ResumedRunTriesTheRest` covers the run that follows, starting from a record of the first k entries.
- Sequencer.ListOf: the order of the saved list (`list(set)`, line 173) is left open, and it is shown as saved.
- Cli.ShowProgress: it states the slice as Python's `[-10:]` of the stored list. Since that list's order is open, which ten entries appear is not determined.
- Concurrency: two runs sharing one progress file.
