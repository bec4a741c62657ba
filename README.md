# Patch engine of the claude-patch scripts, in Dafny

The repository fixes defects in a cached copy of a third-party command-line
package by textual substitution. Its engine is `lib/common.py`:

- `patch(label, filepath, old, new)` reads a file. It skips when `new` is
  already in it. It warns ("pattern not found") when `old` is not in it.
  Otherwise it replaces the first occurrence of `old` by `new`, writes the
  file back, and counts the call as applied.
- `patch_all` has the same ladder with two differences. It skips only when
  `new` is present and `old` is absent, so a file holding both is converted
  further. It replaces every occurrence (Python's `str.replace` without a
  count).
- Two module-level counters, `applied` and `skipped`, record outcomes.
- An exception raised while reading, deciding or writing is caught and
  printed, and the script goes on with its next call.
- The base directory comes from the `BASE` environment variable. The nine
  target paths are built from it by string concatenation.

The model has five modules:

- `Text` (Text.dfy): Python's `in`, `find`, `replace(old, new, 1)`,
  `replace(old, new)` and `count` on strings.
  - `replace(old, new)` and `count` share one left-to-right scan. `Matches`
    lists its positions. Each position is an occurrence, each ends before
    the next begins, and every occurrence of `old` lies in the window of
    one of them. `replace` puts `new` in place of exactly those windows.
  - The empty pattern follows Python: `'' in s` is true;
    `replace('', n, 1)` puts `n` in front; `replace('', n)` puts `n` before
    every character and at the end (`InterleaveAt`).
- `Paths` (Paths.dfy): `BASE` and the target path constants.
- `Patcher` (Patcher.dfy):
  - the two decision ladders (`DecideSingle`, `DecideAll`);
  - one call on a file system (`Step`), where the file system is a map
    from path to content;
  - a sequence of calls such as a fix script makes (`RunSpec`);
  - the class `PatchEngine`, holding the files and the two counters and
    updating them in place.
- `Properties` (Properties.dfy): idempotence, re-run behaviour, isolation
  and counter laws.
- `Scenarios` (Scenarios.dfy): concrete runs with data in the style of the
  fix scripts, on target paths built by `Paths`.

In the file system map, a path that is not a key cannot be read (the
caught read exception). A path in the set `readOnly` cannot be written
(the caught write exception). A file's content is its text as Python reads
it in text mode.

Re-running a fix script:

- A single `patch` is idempotent: a second identical call never writes
  (`Properties.SingleIdempotent`).
- A re-run of a whole script applies nothing, and leaves every file as the
  first run left it, exactly when no call of the script would be applied
  on the files the first run left (`Properties.RerunIsNoop`). A script of
  `patch` calls on distinct files always meets this condition
  (`Properties.RerunAppliesNothing`).
- Two kinds of script do not meet it:
  - a `patch_all` whose `new` contains `old` rewrites and grows the file on
    every run (`Properties.AllRerunGrows`; `Scenarios.AllModeGrowsOnRerun`
    turns "a" into "ab", then "abb");
  - two calls on one file can undo each other's work on every run
    (`Scenarios.SharedFileRerunNotNoop` turns "x" into "xz", then "xzz").
- The one `patch_all` call in the scripts (NS-001) has a `new` that does
  not contain `old`, so its re-run is a skip
  (`Scenarios.NamespaceAllAppliedThenSkipped`).

## Model

| member | source | states |
|---|---|---|
| Text.Find | lib/common.py:19 | the index found is the leftmost occurrence; no index is found only when the pattern occurs nowhere; the empty pattern is found at 0 |
| Text.Contains | lib/common.py:19-22 | `p in s`, as tested at lines 19, 22, 39 and 42: it holds exactly when `p` occurs at some index of `s`, and always for the empty `p` |
| Text.ContainsTransitive | lib/common.py:39 | a text containing `new` contains everything `new` contains |
| Text.ReplaceFirst | lib/common.py:25 | `replace(old, new, 1)` is the text before the leftmost `old`, then `new`, then the text after it; with no `old` the text is unchanged; an empty `old` puts `new` in front |
| Text.ReplaceFirstPlacesNew | lib/common.py:25 | after replacing, `new` sits where the leftmost `old` was, so the result contains `new` |
| Text.ReplaceFirstKeepsLater | lib/common.py:25 | every occurrence of `old` that starts at or after the end of the replaced one is still in the result, shifted by the length difference |
| Text.Interleave | lib/common.py:45 | `replace('', new)` adds `len(s) + 1` copies of `new` |
| Text.InterleaveAt | lib/common.py:45 | in `replace('', new)`, copy `k` of `new` starts at `k * (len(new) + 1)` and character `k` of the text follows it; with the length this fixes every character of the result |
| Text.InterleaveStartsWithNew | lib/common.py:45 | `replace('', new)` starts with `new` |
| Text.MatchesFrom | lib/common.py:45 | the positions of the left-to-right scan from a start index are occurrences of the pattern, in increasing order, each ending before the next begins, none before the start |
| Text.MatchesFromCover | lib/common.py:45 | the scan misses nothing: every occurrence of the pattern at or after the start lies in the window of some match |
| Text.Matches | lib/common.py:45 | the same for the whole text; there is no match exactly when the pattern is absent, and the first match is the leftmost occurrence |
| Text.MatchesCover | lib/common.py:45 | every occurrence of the pattern in the text lies in the window of some match |
| Text.ReplaceAll | lib/common.py:45 | `replace(old, new)` is the text with `new` in place of exactly the windows of the scan's matches; a text without `old` is left unchanged |
| Text.PutAtLength | lib/common.py:45 | each window replaced changes the length by `len(new)` minus the window width |
| Text.PutAtSelf | lib/common.py:45 | putting a pattern back in place of its own occurrences gives the text back |
| Text.ReplaceAllPlacesNew | lib/common.py:45 | when `old` occurs, `new` sits where the leftmost `old` was, so the result contains `new` |
| Text.Count | lib/common.py:45 | the number of matches of the same scan (`len(s) + 1` for the empty pattern) is zero exactly when `old` is absent |
| Text.ReplaceAllLength | lib/common.py:45 | the result is longer by the number of replaced occurrences times `len(new) - len(old)` |
| Text.ReplaceAllGrows | lib/common.py:45 | with an occurrence to replace and `new` not shorter than `old`, the result grows by at least the difference |
| Text.ReplaceAllBySelf | lib/common.py:45 | replacing every occurrence of a pattern by itself gives the text back |
| Paths.ResolveBase | lib/common.py:6 | a missing or empty `BASE` is fatal; otherwise the base directory is `BASE` itself, non-empty |
| Paths.Services | lib/common.py:7 | `services` is the base directory followed by the segment "/services" |
| Paths.Commands | lib/common.py:8 | `commands` is the base directory followed by the segment "/commands" |
| Paths.Memory | lib/common.py:9 | `memory` is the base directory followed by the segment "/memory" |
| Paths.Targets | lib/common.py:54-63 | the nine target constants, in declaration order; each is the base directory followed by its fixed suffix |
| Paths.TargetsDistinct | lib/common.py:54-63 | no two targets name the same file, whatever the base directory |
| Patcher.DecideSingle | lib/common.py:19-27 | `patch` skips exactly when `new` is present (even with `old` present); it warns exactly when neither is present; otherwise it rewrites to the leftmost splice, which contains `new` |
| Patcher.DecideAll | lib/common.py:39-47 | `patch_all` skips exactly when `new` is present and `old` absent; it warns exactly when neither is present; it rewrites exactly when `old` is present, to the all-occurrences replacement, which contains `new` |
| Patcher.Step | lib/common.py:14-51 | one call: an unreadable file fails with a read error; a skip, warning or failure leaves every file as it was; an applied call changes only the named file, to the rewritten text; the write fails exactly for a non-writable file that would be rewritten |
| Patcher.RunSpec | lib/common.py:14-51 | a script yields one report per call, labelled as the call, and keeps the set of files |
| Patcher.CountApplied | lib/common.py:11 | the run's contribution to `applied` is at most the number of calls, and is zero exactly when no call was applied |
| Patcher.CountSkipped | lib/common.py:12 | the run's contribution to `skipped` is at most the number of calls, and is zero exactly when no call was skipped |
| Patcher.PatchEngine.constructor | lib/common.py:11-12 | both counters start at 0 |
| Patcher.PatchEngine.Patch | lib/common.py:14-31 | the new files and the report are those of one single-mode call; `applied` rises by 1 exactly when the file was written; `skipped` rises by 1 exactly on the skip branch |
| Patcher.PatchEngine.PatchAll | lib/common.py:33-51 | the same for one all-mode call |
| Patcher.PatchEngine.Call | lib/common.py:14-51 | one line of a fix script, dispatched to `patch` or `patch_all` by its mode |
| Patcher.PatchEngine.Run | lib/common.py:14-51 | every call of a script is made in order; the files and reports are those of the script; the counters rise by the number of applied and skipped reports |
| Properties.SingleIdempotent | lib/common.py:19-27 | a second identical `patch` never writes and leaves the files byte-identical; after an applied call it is a skip |
| Properties.AllRerunSkipsWhenOldGone | lib/common.py:39-41 | a re-run of `patch_all` skips once its rewrite left no `old` behind |
| Properties.AllRerunGrows | lib/common.py:39-47 | when `new` contains `old` and is longer, a re-run of an applied `patch_all` applies again and grows the file by at least the difference |
| Properties.StepLocal | lib/common.py:16-24 | the outcome of a call depends only on whether the named file is readable and what it holds |
| Properties.RunStepAt | lib/common.py:30-31 | call k of a script runs on the files left by the calls before it, whatever they reported, so a failure does not stop later calls |
| Properties.LaterCallsKeep | lib/common.py:26-27 | a file's final content is its content after the last call that names it |
| Properties.RerunCallIsNoop | lib/common.py:19-27 | after a script of `patch` calls on distinct files, repeating any one of them writes nothing |
| Properties.NoWriteRunKeeps | lib/common.py:14-51 | a script none of whose calls would be applied on the given files leaves them as they are and applies nothing, in both modes and with calls sharing a file |
| Properties.NoWriteRunOnly | lib/common.py:14-51 | a script that applies nothing on the given files has no call that would be applied on them |
| Properties.RerunIsNoop | lib/common.py:14-51 | a re-run of a script applies nothing exactly when no call would be applied on the files the first run left, and then every file stays as the first run left it |
| Properties.RerunAppliesNothing | lib/common.py:19-29 | re-running a script of `patch` calls on distinct files leaves every file as the first run left it, and `applied` does not move |
| Properties.CountersBounded | lib/common.py:19-29 | across a run, the applied and skipped counts together never exceed the number of calls |
| Scenarios.CpuThresholdAppliedThenSkipped | DM-002-cpu-load-threshold/fix.py:3-6 | the threshold is rewritten once; the second run is a skip that changes nothing |
| Scenarios.NamespaceAllAppliedThenSkipped | NS-001-discovery-default-namespace/fix.py:33-36 | both fallbacks are converted; the second run is a skip |
| Scenarios.PartialConversionResumed | lib/common.py:39-45 | a half-converted file is finished by `patch_all` |
| Scenarios.PartialConversionSkippedBySingle | lib/common.py:19-21 | the same half-converted file is skipped by `patch` |
| Scenarios.FirstOccurrenceOnly | lib/common.py:25 | `patch` rewrites the first of two occurrences only |
| Scenarios.DriftWarns | lib/common.py:22-24 | neither text present: a warning, and the file is unchanged |
| Scenarios.FailureThenApplied | lib/common.py:30-31 | a call on a missing file fails, and the next call is still applied; one applied, none skipped |
| Scenarios.AllModeGrowsOnRerun | lib/common.py:45 | `patch_all` of `a` by `ab` turns `a` into `ab`, then `abb` |
| Scenarios.SharedFileRerunNotNoop | lib/common.py:19-27 | two `patch` calls on one file can keep rewriting it on every run |
| Scenarios.EmptyOriginalSingle | lib/common.py:22-25 | an empty `old` is always found, and `patch` puts `new` in front |
| Scenarios.EmptyOriginalAll | lib/common.py:42-45 | an empty `old` makes `patch_all` put `new` around every character |

## Left out

- Console output (the `Applied`, `WARN` and `ERROR` lines): a call returns a report with its label and outcome tag instead. Printing is assumed never to fail. If the print at lib/common.py:28 or :48 raised, the file would already be written while `applied` stays put and the call reports an error. A raising `WARN` print (lines 23, 43) would turn a warning into an error. A raising print inside the handler (lines 31, 51) would stop the script. The model captures none of these.
- Line endings: the file is opened in text mode, so "\r\n" and "\r" are read as "\n". The map holds the text as Python reads it. An applied write then writes every line ending as the platform's line separator, so it can change every line ending of a CRLF file, not only the replaced text. The model does not capture that.
- Real file I/O and Python's exception types. The file system is a map. A read failure is a path that is not a key. A write failure is a path in `readOnly`; the model then leaves the file as it was. The real `open(filepath, 'w')` can truncate a file before a failing write, and the model does not capture that.
- Failures other than reading and writing, such as a file that does not decode as text. The model has no separate case for them; a read failure stands in for any failure before the write.
- `os.environ` and `sys.exit`: the environment lookup is the parameter of `Paths.ResolveBase`. The process exit is the `NoBase` result.
- The fix scripts (`*/fix.py`): they are lists of calls whose arguments are JavaScript snippets. A few serve as concrete data in `Scenarios`.
- RerunAppliesNothing: proved only for scripts of `patch` calls on distinct files. Most fix scripts name one file several times, and for them no unconditional guarantee holds (`Scenarios.SharedFileRerunNotNoop`). `Properties.RerunIsNoop` gives the exact condition for any script.
- The final summary print of the counters is not part of lib/common.py and is not modelled.
- Concurrency: other processes touching the files between the read and the write are not modelled.
