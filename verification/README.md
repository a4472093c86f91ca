# Transition engine and disk check of the SRE monitoring system, in Dafny

This project models the shared transition-and-alerting engine of the
monitoring system (`BaseCheck` in `src/base_check.py`) and the pure part of
the disk check (`main` in `src/disk_check.py`). It also proves properties of
the model.

A check run reads the state that was recorded last for its check. It
compares that state with the freshly classified one and decides whether an
alert or a recovery notice is due. It then records the new state and exits
with a code for its severity. The disk check comes first:

1. It validates its warning/critical thresholds.
2. It reads the `Use%` column from the output of `df -h <path>`.
3. It classifies the percentage and hands the state to the engine.

Modules, one per file:

- `Results` (`results.dfy`): `Option` and `Result`.
- `Severity` (`severity.dfy`): the closed `State` type, its three tokens and the exit-code mapping.
- `Text` (`text.dfy`): the Python string operations the source relies on:
  - `str.strip()`, `str.strip('%')` and `str.split()` over Python's exact whitespace set;
  - `str.splitlines()` with its exact set of line boundaries, `"\r\n"` included;
  - a digits-only `int()`, `str()` of a natural number, and `str.title()` over ASCII.
- `StateStore` (`state_store.dfy`): the per-check state files as a `map<string, string>` from check name to file contents. A missing key is a file that does not exist. `load_last_state` and `save_state` work on this map.
- `BaseCheck` (`base_check.dfy`):
  - the alert and recovery decisions;
  - `handle_state_change`, which returns the new records, the notices handed to `send_alert` and the exit code;
  - `validate_thresholds`, whose `sys.exit(2)` is an `Exit` result.
- `DiskCheck` (`disk_check.dfy`):
  - the parse of `df` output, the three-way classification, and `main` after reading its settings (`RunDiskCheck`);
  - the result of running `df` (exit status and standard output) is a parameter;
  - every `sys.exit` is a `Run` result that carries the exit code, the records and the notices sent.

A configuration error exits with 2 (`src/base_check.py:151`, `:158`), the same code as CRITICAL, so the exit code alone does not separate a misconfiguration from a full disk; `BaseCheck.ConfigErrorLooksCritical` states the collision.

## Model

| member | source | states |
|---|---|---|
| Severity.Token | src/base_check.py:17 | every one of the three states is written as a non-empty token |
| Severity.TokenInjective | src/base_check.py:17 | distinct states are written as distinct tokens, so a record names at most one state |
| Severity.ParseToken | src/base_check.py:55-57 | a text is read as a state exactly when it is that state's token; any other text names no state |
| Severity.ParseTokenRoundTrip | src/base_check.py:55-56 | reading a state's token gives back that state |
| Severity.ExitCode | src/base_check.py:124-129 | the code lies in 0..2; it is 0 exactly for OK and 2 exactly for CRITICAL |
| Severity.ExitCodeInjective | src/base_check.py:124-129 | different states exit with different codes, so the code identifies the severity |
| Text.Strip | src/base_check.py:53 | the result is no longer than the input, and neither of its ends is a character of the stripped set |
| Text.StripSurrounded | src/base_check.py:53 | for a text whose ends are outside the set, stripping any run of set characters around it gives the text back exactly |
| Text.StripNothing | src/disk_check.py:61 | a text with neither end in the set is left unchanged |
| Text.Fields | src/disk_check.py:51 | every field produced by `split()` is non-empty and contains no whitespace |
| Text.FieldsConcat | src/disk_check.py:51 | the fields, concatenated, are exactly the input's non-whitespace characters in order |
| Text.FieldsJoinWith | src/disk_check.py:51 | splitting words joined by non-empty runs of whitespace, of any lengths, gives the words back |
| Text.FieldsConsRun | src/disk_check.py:51 | a field followed by a run of whitespace is split off first, and the rest splits on its own |
| Text.SplitLines | src/disk_check.py:45 | there are no lines exactly when the text is empty, and no line contains a line boundary |
| Text.SplitLinesJoinTerminated | src/disk_check.py:45 | splitting lines that each end in "\n" gives the lines back |
| Text.ParseNat | src/disk_check.py:60-64 | a number is produced exactly when the text is a non-empty string of ASCII digits |
| Text.NatToString | src/disk_check.py:78 | a number is printed as a non-empty digit string with no leading zero |
| Text.ParseNatToString | src/disk_check.py:61 | reading a printed number gives the number back |
| Text.NatToStringParse | src/disk_check.py:61 | printing the value of a canonical digit string gives the string back |
| Text.TitleChar | src/base_check.py:115 | one character of `title()`: it keeps the letter up to case, keeps non-letters, and upper-cases a letter exactly when no letter precedes it |
| Text.TitleFrom | src/base_check.py:115 | the scan keeps the length and puts at each position the character title-cased with respect to the character just before it |
| Text.TitleCase | src/base_check.py:115 | in the title of a check name, every character keeps its letter up to case; non-letters are unchanged; a letter is upper case exactly when it starts a word |
| StateStore.StateOfText | src/base_check.py:55-57 | text equal to a token reads as that token's state; any other text reads as OK |
| StateStore.LoadLastState | src/base_check.py:46-59 | a missing record reads as OK; a record reads as the state whose token equals its whitespace-stripped text, or as OK if there is none |
| StateStore.SaveState | src/base_check.py:61-66 | the record for the check becomes the bare token; the set of records grows by at most that check; no other record changes |
| StateStore.SaveLoadRoundTrip | tests/test_base_check.py:12-22 | loading after saving a state gives that state |
| StateStore.SaveOverwrites | src/base_check.py:65-66 | of two saves to one record, only the second remains |
| StateStore.SaveAll | tests/test_base_check.py:33-50 | after a series of saves, the load gives the last state saved; no saves leave the records unchanged |
| StateStore.UnrecognisedReadsOk | src/base_check.py:55-57 | a record whose stripped text is no token reads as OK |
| StateStore.MissingReadsLikeOk | tests/test_base_check.py:24-31 | a missing record reads the same as one holding "OK", with any whitespace around it |
| StateStore.LoadIgnoresSurroundingWhitespace | src/base_check.py:53 | whitespace around a token, such as a trailing newline, does not change the state read |
| StateStore.SaveForgetsOldRecord | src/base_check.py:65-66 | the records after a save do not depend on the old record it replaces |
| StateStore.SaveIsolated | src/base_check.py:37 | saving one check's state leaves every other check's reading unchanged |
| BaseCheck.ShouldAlert | src/base_check.py:92-95 | an alert is due exactly when the run moves to a different exit code that is not 0 |
| BaseCheck.ShouldRecover | src/base_check.py:98-101 | a recovery is due exactly when the run moves from a non-zero exit code to 0 |
| BaseCheck.AlertNotice | src/base_check.py:106-110 | the alert's level is the new state, its title starts with that state's token and its message ends with the metric value |
| BaseCheck.RecoveryNotice | src/base_check.py:114-118 | the recovery notice's level is OK, its title starts with "RECOVERY: " and is 13 characters longer than the check name (the full title is stated by `BaseCheck.Notices`), and its message ends with the metric value |
| BaseCheck.AlertRecoverExclusive | src/base_check.py:92-101 | an alert and a recovery are never both due; neither is due for an unchanged state; one of them is due exactly when the state changed |
| BaseCheck.Notices | src/base_check.py:103-118 | at most one notice, and one exactly when the state changed: the alert titled "<state>: <metric>" at the new state's level, or the recovery notice titled "RECOVERY: <Title> OK" with the "normalizado" message at level OK |
| BaseCheck.HandleStateChange | src/base_check.py:68-129 | at most one notice, and one exactly when the recorded state differs from the new one, with the alert or recovery content; afterwards the new state is what loads; no other record changes; the exit code is the state's |
| BaseCheck.HandleStateChangeIdempotent | tests/test_base_check.py:125-138 | handling the same state a second time sends nothing and changes neither the records nor the exit code |
| BaseCheck.RecoveryScenario | src/base_check.py:112-125 | after CRITICAL, handling OK sends one notice at level OK, records OK and exits with 0 |
| BaseCheck.SteadyWarningScenario | tests/test_base_check.py:125-138 | WARNING after WARNING sends nothing, keeps the records as they were and exits with 1 |
| BaseCheck.MissingRecordActsAsOk | src/base_check.py:51-59 | a missing record and one holding "OK" give the same notices, records and exit code |
| BaseCheck.SameLastSameTransition | src/base_check.py:85-121 | apart from the replaced record, a transition depends only on the state the old record reads as |
| BaseCheck.ValidateThresholds | src/base_check.py:131-158 | normal mode passes exactly when warning < critical, inverted mode exactly when warning > critical; every failure is exit code 2 |
| BaseCheck.EqualThresholdsRejected | tests/test_base_check.py:95-108 | equal thresholds fail in both modes |
| BaseCheck.InvertedIsSwapped | src/base_check.py:145-158 | inverted mode accepts exactly the pairs that normal mode accepts with the thresholds swapped |
| BaseCheck.ConfigErrorLooksCritical | src/base_check.py:151-158 | the configuration-error exit code equals the CRITICAL exit code |
| DiskCheck.ParseUsePercent | src/disk_check.py:44-64 | the three ways parsing fails: fewer than two lines; fewer than five fields on the second line; a fifth field that is not an integer once '%' is stripped (the error carries that field). Otherwise the result is that field's value |
| DiskCheck.Classify | src/disk_check.py:66-72 | OK exactly below warning, WARNING exactly from warning up to below critical, CRITICAL exactly at or above both |
| DiskCheck.ClassifyBoundaries | src/disk_check.py:67-72 | with valid thresholds, each threshold already belongs to the higher state and the value just below it to the lower one |
| DiskCheck.ClassifyMonotone | src/disk_check.py:67-72 | a higher usage never gives a lower severity |
| DiskCheck.ValidIffWarningReachable | src/disk_check.py:24-72 | the thresholds pass validation exactly when some usage classifies as WARNING |
| DiskCheck.RunDiskCheck | src/disk_check.py:19-81 | the exit code is in 0..2. Bad thresholds, a failed `df` and unparsable output each exit with 2, leave the records untouched and send nothing. Otherwise the new state is the classification, it is recorded, other records are kept, and a notice at that level is sent exactly when the state changed |
| DiskCheck.RunHandsOffToEngine | src/disk_check.py:75-81 | once a percentage is read, the run is exactly the engine's transition for its classification, with the value "<n>% en <path>" |
| DiskCheck.ValidationPrecedesSampling | src/disk_check.py:23-42 | with bad thresholds, the run does not depend on anything `df` reported |
| DiskCheck.PercentRoundTrip | src/disk_check.py:58-61 | a printed percentage with its '%' parses back to the number |
| DiskCheck.DfReportRoundTrip | src/disk_check.py:45-64 | for a header line, a row of fields padded with runs of whitespace other than line breaks, whose fifth field is a printed percentage, and any further lines, the parse gives that percentage |
| DiskCheck.FullDiskReportParses | src/disk_check.py:45-64 | the report `df -h /` prints for a disk at 95% use, columns padded with runs of spaces, parses to 95 |
| DiskCheck.FirstAlert | src/disk_check.py:75-79 | a run that finds a new non-OK state sends exactly the alert for it, with the disk metric label and value |
| DiskCheck.FullDiskScenario | src/disk_check.py:15-81 | with the default thresholds 80/90, no record, and `df` at 95%: one alert "CRITICAL: Uso de disco" / "Uso de disco: 95% en /" is sent, CRITICAL is recorded and the exit code is 2 |

## Left out

- Notification delivery (`src/notifier.py`): the HTTP request, its environment settings, the clock, embed colours and the swallowing of delivery errors. A notice is modelled as the title, message and level handed to `send_alert`.
- The CPU and memory checks (`src/cpu_check.py`, `src/memory_check.py`): they classify rounded floating-point values and match `top` output with a regular expression.
- The legacy scripts under `scripts/`: top-level duplicates of the engine that are not part of this model.
- Reading `WARNING`, `CRITICAL` and `DISK_PATH` from the environment, including `int()` failing on them at import time. The model takes the values as parameters.
- Running `df` (`subprocess.run`): its exit status and standard output are a parameter. Its standard error is only logged.
- File-system paths: the state file `STATE_DIR/<check>.state` is the map entry keyed by the check name. `STATE_DIR` is read once, when the module is imported.
- Read errors other than a missing file, and write errors: the source catches only `FileNotFoundError`, so these propagate as exceptions. The model has no such outcome. In particular it does not claim that they read as OK.
- The order of side effects inside `handle_state_change`: the source hands notices to `send_alert` before it writes the record (`src/base_check.py:104-121`), while the model returns both at once. A run killed between the two, or an exception escaping `send_alert`, leaves the old record after a sent alert; the model does not cover that window.
- Distinct check names are assumed to name distinct files. The record path is built from the name (`src/base_check.py:37`), so names such as "disk" and "./disk", or names differing only in case on a case-insensitive file system, share one file. `StateStore.SaveIsolated` and "no other record changes" in `BaseCheck.HandleStateChange` hold of the map, not of every such pair of names.
- Logging, and the `sys.path` setup.
- Concurrency: overlapping runs of one check can race on its record. The model is sequential.
- Text.ParseNat: accepts only non-empty ASCII digit strings. Python's `int()` also accepts a sign, surrounding whitespace, underscores between digits and non-ASCII decimal digits. Since CPython 3.11 it also rejects more than 4300 digits by default.
- Text.TitleCase: models `str.title()` for ASCII letters only. Other cased characters are treated as non-letters.
