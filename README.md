# WinDiag, modelled in Dafny

WinDiag is a Windows diagnostic tool that comes in two versions. `WinDiag.py` is a
command-line program. `WinDiagGUI.py` is a PyQt5 window with the same features
behind buttons. This project models the logic underneath both front ends:

- **Startup entries.** Both versions read startup entries from the registry's
  Run keys. The command-line version filters them against a fixed policy table
  and lets the user choose some by typing comma-separated numbers. Both versions
  delete chosen entries by name from HKLM Run, or else from HKCU Run.
- **Temporary files.** The tool collects every file under three temporary
  directories and removes them one by one. Each failure is recorded and the
  loop moves on.
- **Processes.** The command-line version ranks processes by (CPU %, memory %)
  with a stable descending sort and keeps the top five. The GUI lists every
  process, reads the pid back from the label of each checked item and
  terminates it.
- **Software inventory.** The GUI splits the inventory listing into lines and
  whitespace-separated fields.

The operating system is replaced by explicit state:

- **Registry:** the `WinRegistry.Registry` class. It holds a map from each
  existing key to its values in enumeration order, plus the set of keys that
  refuse to open for writing.
- **File system:** the `TempFs.FileSystem` class. It holds the existing files,
  the files that cannot be removed, and the listing a recursive walk gives for
  each existing directory.
- **Process table:** the `Processes.ProcessTable` class, a map from pid to
  running or protected.
- **GUI main window:** the `WinDiagGui.DiagnosticApp` class. Its fields are the
  last temp-file list and the items of the startup and process lists.

Python's text primitives are written out in module `Text`: `strip`,
`split`/`split(sep)`, `join`, `isdigit`, `int`, `str` and `splitlines`.
Python's whitespace set is taken from `str.isspace`.

Each loop is a method. Each method is proved against a specification function:

| Method | Specification function |
|---|---|
| `Registry.ReadRoots` | `Listings.Gather` |
| `Registry.DeleteEntry` | `WinRegistry.DeleteFirst` |
| `WinDiag.DisableStartupApps` | `WinRegistry.DisableAll` |
| `FileSystem.RemoveAll` | `TempFs.SweepPaths` |
| `WinDiagGui.FetchSoftwareList` | `WinDiagGui.SoftwareRows` |
| `DiagnosticApp.KillSelectedProcesses` | `WinDiagGui.KillChecked` |

The properties of the source are lemmas about these functions.

Some behaviours of the source are proved as stated, and are worth knowing.

**A missing write key aborts the rest.**

- Opening a Run key for writing when the key does not exist raises
  FileNotFoundError. Only `except PermissionError` surrounds that call, so the
  exception ends the whole disable pass, and names later in the batch are never
  tried. The model records this as `completed == false`.
- `DeleteFirstMissing` and `DisableAllStops` cover the abort. `DisableAllFrame`
  proves that the pass does complete whenever both keys exist.

**The command-line scan reads more keys than it writes.** It reads RunOnce and
the WOW6432Node keys, but deletes only from HKLM Run and HKCU Run. This holds for
a 64-bit interpreter, where the two HKLM views are separate keys. An entry seen
only in one of those other keys is offered to the user, but it is never removed
(`StartupAnalysis`, `DisableAllUntouched`).

**App names are cut short at " - ".** The GUI reads an app name back with
`text.split(" - ")[0]`. That gives back the name exactly when the name contains
no `" - "` and does not end with `" -"`; both directions are proved in
`AppNameRoundTrip`. A name such as `"Backup -"` reads back as `"Backup"`, and
disabling it deletes the value named `"Backup"` when HKLM Run opens for
writing and holds one (`AppNameTruncated`, `WrongEntryDeleted`).

**The default TEMP directory is searched twice.** With the default Windows
setting, `%TEMP%` is the user's `AppData\Local\Temp`. That directory is then
walked twice, every file in it is listed twice, and every such file ends up in
the failure list, because the second removal attempt fails
(`DefaultTempReportedFailed`).

**The inventory parser keeps some header-like rows and drops some real ones.**
A line is kept exactly when it is non-blank and contains no `"Name"`
(`DataLinesOne`), and every kept line gives one row (`SoftwareRowsOfDataLines`).
So a software name containing `"Name"` is dropped like the header, while the
dashed separator row of the PowerShell table, which is non-blank and has no
`"Name"`, becomes a row. Column padding does not disturb the fields
(`SoftwareLineOfFields`).

## Model

| member | source | states |
|---|---|---|
| WinDiag.IsCritical | WinDiag.py:124-133 | a name counts as critical exactly when the policy table maps it to True: "Windows Security Notification" and "OneDrive"; "Microsoft Teams" (mapped to False) and absent names are not |
| WinDiag.NonEssential | WinDiag.py:123-135 | the entries whose name the policy table does not map to True, in input order (see NonEssentialCounts and NonEssentialAppend) |
| WinDiag.NonEssentialCounts | WinDiag.py:130-135 | every entry with a non-critical name is kept as many times as it occurs; every entry with a critical name is dropped |
| WinDiag.NonEssentialAppend | WinDiag.py:130-135 | the filter works entry by entry and keeps input order: filtering a + b gives the kept entries of a, then those of b |
| WinDiag.NonEssentialByName | WinDiag.py:131-134 | which entries are kept depends only on the names, never on the commands |
| WinDiag.IndicesOne | WinDiag.py:149 | a token is dropped unless it is all ASCII digits once stripped; a kept token reads as int of its stripped text |
| WinDiag.IndicesAppend | WinDiag.py:149 | tokens are read independently and in order, so repeats are kept |
| WinDiag.ParseIndices | WinDiag.py:149 | the comma-separated tokens that are all digits once stripped, read as numbers, in order (see IndicesOne, IndicesAppend, ParseIndicesOfJoin) |
| WinDiag.ParseIndicesOfJoin | WinDiag.py:149 | typing numbers separated by commas selects exactly those numbers, in the order typed, repeats kept |
| WinDiag.InRange | WinDiag.py:150 | every index that survives the range filter lies in 1..len(apps) |
| WinDiag.InRangeAppend | WinDiag.py:150 | the range filter looks at each index on its own and keeps input order and repeats |
| WinDiag.InRangeOne | WinDiag.py:150 | a single index is kept exactly when it lies in 1..len(apps) |
| WinDiag.SelectByIndex | WinDiag.py:150 | the k-th chosen entry is apps[i-1] for the k-th in-range index i; out-of-range indices choose nothing |
| WinDiag.SelectFrom | WinDiag.py:150 | only entries on offer can be chosen |
| WinDiag.Select | WinDiag.py:150 | apps[i-1] for each index i in 1..len(apps), in index order (see SelectByIndex) |
| WinDiag.ChooseApps | WinDiag.py:137-154 | nothing when nothing is offered; otherwise the entries the typed indices name (see CriticalNeverChosen) |
| WinDiag.AnalysisSafe | WinDiag.py:177-193 | whatever is typed, the disable batch never reports a critical app disabled, keeps every critical entry (value names matched exactly), and leaves keys other than HKLM Run and HKCU Run as they were |
| WinDiag.BatchSparesCritical | WinDiag.py:156-175 | a batch of non-critical names neither reports nor removes a critical entry, value names being matched exactly |
| WinDiag.CriticalNeverChosen | WinDiag.py:185-186 | no name the user can choose belongs to a critical app |
| WinDiag.GetStartupApps | WinDiag.py:85-121 | the result is the values of the four HKLM keys and then HKCU Run, concatenated in that order; missing keys are skipped |
| WinDiag.DisableStartupApps | WinDiag.py:156-175 | the nested loop leaves the registry and reports as the batch specification DisableAll says, for the names of the chosen apps in order |
| WinDiag.StartupAnalysis | WinDiag.py:177-193 | scan, filter, choose and disable: a critical app is never reported disabled and keeps all its values (value names matched exactly); RunOnce and WOW6432Node keys are never changed (each key being separate, as under a 64-bit interpreter) |
| WinDiag.FindTempFiles | WinDiag.py:41-56 | the files under %TEMP%, ~\AppData\Local\Temp and C:\Windows\Temp, directory by directory in that order; a missing directory is skipped |
| WinDiag.CleanTempFiles | WinDiag.py:58-68 | every file is tried; the failures are recorded in input order; the logged success count is len(files) - len(failed), which equals the number of files actually removed |
| Listings.GatherAppend | WinDiag.py:94-119 | scanning two runs of keys one after the other is scanning them together |
| Listings.GatherSkipsAbsent | WinDiag.py:105-106 | a key that does not exist contributes nothing and can be dropped from the list |
| Listings.GatherMember | WinDiag.py:94-121 | an entry is in the scan exactly when some present key holds it |
| Listings.GatherKeepsDuplicates | WinDiag.py:101 | nothing is deduplicated: a value held by two keys is listed at least twice |
| WinRegistry.RemoveName | WinDiag.py:167 | after DeleteValue the key holds every other value and none of that name; a name it does not hold changes nothing |
| WinRegistry.DeleteFirst | WinDiag.py:163-175 | one app name deleted across the write keys in order: a refusal is reported and the next key tried, a key without the value is passed over, the first holder loses it and the loop stops, a missing key ends the pass (see DeleteFirstSound) |
| WinRegistry.DisableAll | WinDiag.py:156-175 | the delete pass for each name of the batch in turn, stopped only by a missing key (see DisableAllFrame, DisableAllReports, DisableAllAppend) |
| WinRegistry.Registry.ReadRoots | WinDiag.py:94-106 | EnumValue from index 0 until OSError for each key in turn, skipping missing keys, yields the concatenation Gather |
| WinRegistry.Registry.DeleteValue | WinDiag.py:167 | reports whether the value existed and removes it from that key only |
| WinRegistry.Registry.DeleteEntry | WinDiag.py:163-175 | the root loop with break and continue does exactly what DeleteFirst specifies |
| WinRegistry.DeleteFirstSound | WinDiag.py:163-175 | at most one key changes, and only by losing the value of that name; the change is the last report; every earlier report is a PermissionError on a key that refused writing; the pass completes when both keys exist |
| WinRegistry.DeleteFirstHolder | WinDiag.py:165-170 | the value is deleted from the first key that holds it and opens for writing, even past keys that refused writing |
| WinRegistry.DeleteFirstNoHolder | WinDiag.py:171-175 | a name no writable key holds changes nothing, and only the keys that refused writing are reported |
| WinRegistry.DeniedEvents | WinDiag.py:173-175 | the reports of such a pass are PermissionErrors for keys that refused writing, for that name |
| WinRegistry.DeleteFirstMissing | WinDiag.py:164-165 | a missing key met before any holder ends the pass, with nothing changed |
| WinRegistry.DisabledCountAtMostOne | WinDiag.py:170 | a log whose events before the last are all PermissionErrors reports at most one deletion |
| WinRegistry.DisableAllFrame | WinDiag.py:162-175 | a batch only removes values; the same keys exist afterwards; it completes when both keys exist |
| WinRegistry.DisableAllReports | WinDiag.py:162-175 | every report names one of the batch's names and one of the keys tried; each entry of the batch deletes at most once, so there are at most as many deletions as entries (a name listed twice may be deleted from two keys) |
| WinRegistry.DisableAllGone | WinDiag.py:167-170 | a name reported disabled on a key is gone from that key at the end |
| WinRegistry.DisableAllAppend | WinDiag.py:162 | a batch is its first part followed by the rest on the registry the first part left |
| WinRegistry.DisableAllStops | WinDiag.py:164-165 | once a batch stops on a missing key, the names after it are never tried |
| WinRegistry.DisableAllKeepsOthers | WinDiag.py:162-172 | a value whose name is not in the batch stays in its key, names being matched exactly |
| WinRegistry.DisableAllUntouched | WinDiag.py:157-160 | keys other than the two Run keys written to keep all their values |
| TempFs.TempDirs | WinDiag.py:42-46 | the three directories in order: the value of %TEMP%, or the empty path when it is unset; home\AppData\Local\Temp; C:\Windows\Temp |
| TempFs.UnsetTempSkipped | WinDiag.py:42-51 | with %TEMP% unset, the search covers only the other two directories |
| TempFs.ExistingDirs | WinDiag.py:49-51 | the empty path never exists; the walked directories are the existing ones |
| TempFs.SweepPaths | WinDiag.py:58-65 | each path in turn: removed when it exists and is not locked, otherwise added to the failures (see SweepSound) |
| TempFs.FileSystem.Remove | WinDiag.py:62 | os.remove succeeds exactly on an existing file that is not locked, and removes only that file |
| TempFs.FileSystem.RemoveAll | WinDiag.py:60-65 | the removal loop does exactly what SweepPaths specifies |
| TempFs.FileSystem.CollectFiles | WinDiag.py:48-54 | the os.walk loop over existing directories yields the concatenation Gather |
| TempFs.SweepSound | WinDiag.py:58-68 | exactly the unlocked listed files are gone; locked files survive; failures are listed paths; paths not failed equals files removed |
| TempFs.AbsentPathFails | WinDiag.py:61-65 | a path that does not exist when reached is reported failed |
| TempFs.RepeatedPathFails | WinDiag.py:61-65 | a path listed twice is reported failed |
| TempFs.SweepFailuresDistinct | WinDiag.py:58-65 | with no repeats, the failures are exactly the missing or locked paths, in input order |
| TempFs.DefaultTempReportedFailed | WinDiag.py:42-54 | when %TEMP% is ~\AppData\Local\Temp each of its files is listed twice and reported failed |
| Processes.SortDescSound | WinDiag.py:71-73 | sorting gives (cpu, mem) non-increasing, the same multiset of processes, and each key's processes in enumeration order |
| Processes.SortDesc | WinDiag.py:71-73 | sorted with key (cpu, mem) and reverse=True, as an insertion sort (see SortDescSound) |
| Processes.InsertSorted | WinDiag.py:71-73 | filing a process into a sorted list keeps it sorted |
| Processes.InsertPermutes | WinDiag.py:71-73 | filing adds exactly that process |
| Processes.InsertStable | WinDiag.py:71-73 | a process is filed after the processes with its key that came before it |
| Processes.Top | WinDiag.py:73 | the slice keeps min(5, n) processes |
| Processes.TopSound | WinDiag.py:71-73 | the top five are sorted; together with the dropped ones they are the whole snapshot; every dropped process ranks at most every kept one; within a key, kept ones come before dropped ones in enumeration order |
| Processes.TopLabels | WinDiag.py:74-82 | one label per kept process, in rank order |
| Processes.ProcessLabel | WinDiag.py:77-78 | the text "PID: {pid}, Name: {name}, CPU: {cpu}%, Memory: {mem}%", also built at WinDiagGUI.py:291 (see PidRoundTrip) |
| Processes.TerminateEffect | WinDiagGUI.py:314-317 | a missing pid gives NoSuchProcess; a running process is terminated and removed; a protected one gives AccessDenied and stays |
| Processes.ProcessTable.Terminate | WinDiagGUI.py:315 | terminate changes the table as TerminateEffect says |
| Text.Strip | WinDiag.py:149 | strip leaves nothing exactly for an all-whitespace string, otherwise a string with no whitespace at either end; the result is the infix of the input that starts at its first non-whitespace character, and everything before and after it is whitespace |
| Text.StripUnique | WinDiag.py:149 | the result of strip is the only infix of the input with whitespace all around it and none at either of its ends, so strip removes exactly the leading and trailing runs of whitespace |
| Text.Find | WinDiagGUI.py:254 | the index of the first occurrence of the separator, or the length when there is none |
| Text.Split | WinDiag.py:149 | the pieces join back to the input with the separator, none contains it, and the first piece is everything before the first occurrence |
| Text.SplitOfJoin | WinDiag.py:149 | splitting on one character undoes joining pieces that do not contain it |
| Text.NatToString | WinDiagGUI.py:291 | str of a non-negative integer is decimal digits without a leading zero |
| Text.ParseNatToString | WinDiagGUI.py:313 | int(str(n)) == n |
| Text.WordsEmpty | WinDiagGUI.py:32-33 | split() gives no token exactly when strip() leaves nothing |
| Text.WordsOfJoin | WinDiagGUI.py:33-34 | split() undoes joining non-empty whitespace-free words with single spaces |
| Text.WordsBlankPrefix | WinDiagGUI.py:33 | leading whitespace of any length makes no difference to split() |
| Text.WordsOfSpaced | WinDiagGUI.py:33 | split() recovers the words of a line padded with whitespace runs of any width, leading and trailing ones included, when only the gaps between words are non-empty |
| Text.SplitLines | WinDiagGUI.py:31 | no line holds a line boundary; an empty output has no lines |
| Text.SplitLinesOfJoin | WinDiagGUI.py:31 | splitlines gives back, in order, the lines a text was written out from, one "\n" after each, when no line holds a boundary |
| WinDiagGui.DataLines | WinDiagGUI.py:31-32 | the lines kept are non-blank, contain no "Name", and come from the input |
| WinDiagGui.DataLinesAppend | WinDiagGUI.py:31-32 | lines are kept or dropped one by one, in order |
| WinDiagGui.DataLinesOne | WinDiagGUI.py:32 | a single line is kept exactly when it is non-blank and contains no "Name" |
| WinDiagGui.IsDataLine | WinDiagGUI.py:32 | a line gives a row when it is not blank and does not contain "Name" |
| WinDiagGui.ParseSoftwareLine | WinDiagGUI.py:33-36 | the whitespace fields: name from all but the last two joined by single spaces, then version and install date, "N/A" for both with fewer than two fields (see SoftwareLineOfFields, SoftwareLineOneField) |
| WinDiagGui.SoftwareRows | WinDiagGUI.py:31-37 | one row per data line of the output, in line order; none when the command raised CalledProcessError (see SoftwareRowsOfDataLines) |
| WinDiagGui.SoftwareRowsOfDataLines | WinDiagGUI.py:31-37 | exactly one row per data line, in line order, and none for any other line |
| WinDiagGui.SoftwareLineOfFields | WinDiagGUI.py:33-36 | for a line of name words, version and date padded with whitespace runs of any width (as the table's columns are), the last two fields are the version and the install date, and the other fields, joined by single spaces, are the name |
| WinDiagGui.SoftwareLinePadded | WinDiagGUI.py:33-36 | the padded row "Foo  1.0   2020 " gives name "Foo", version "1.0", date "2020" |
| WinDiagGui.SoftwareLineOneField | WinDiagGUI.py:34-36 | a one-field line has an empty name and "N/A" for version and date |
| WinDiagGui.FetchSoftwareList | WinDiagGUI.py:23-40 | the rows collected are those of SoftwareRows; a failed command gives none |
| WinDiagGui.StartupLabel | WinDiagGUI.py:213 | the item text "{name} - {path}" (see AppNameRoundTrip) |
| WinDiagGui.ParseAppName | WinDiagGUI.py:254 | the text before the first " - " (see AppNameRoundTrip, AppNameTruncated) |
| WinDiagGui.FirstSeparator | WinDiagGUI.py:254 | after a safe name the first " - " is the one the label added |
| WinDiagGui.EarlySeparator | WinDiagGUI.py:254 | after an unsafe name a " - " occurs before the name ends |
| WinDiagGui.AppNameRoundTrip | WinDiagGUI.py:254 | split(" - ")[0] of the label "name - path" is name exactly when name has no " - " and does not end with " -" |
| WinDiagGui.AppNameTruncated | WinDiagGUI.py:254 | the label of "X -" reads back as "X" |
| WinDiagGui.WrongEntryDeleted | WinDiagGUI.py:254-255 | disabling the item of "X -" deletes the value named X when HKLM Run opens for writing and holds one, and keeps "X -" |
| WinDiagGui.CheckedNamesOfLabels | WinDiagGUI.py:251-255 | with safe names, the names read from the checked items are those of the checked entries, in list order |
| WinDiagGui.PidRoundTrip | WinDiagGUI.py:313 | the pid read from the label built at line 291 is the process's pid, whatever its name and percentages contain |
| WinDiagGui.PidHead | WinDiagGUI.py:313 | the first comma-separated piece of a label is "PID: " and the digits |
| WinDiagGui.PidFields | WinDiagGUI.py:313 | splitting that piece on ':' gives "PID" and a space then the digits |
| WinDiagGui.StripSpaceDigits | WinDiagGUI.py:313 | stripping leaves the digits |
| WinDiagGui.ParsePid | WinDiagGUI.py:313 | the text between the first ':' and the first ',' stripped and read as a number; None where int() or the index would raise (see PidRoundTrip) |
| WinDiagGui.KillChecked | WinDiagGUI.py:308-317 | each checked item in list order: its pid terminated, NoSuchProcess and AccessDenied passed over, a label that does not read as a pid ending the loop (see KillCheckedShrinks, KillCheckedEnds) |
| WinDiagGui.KillCheckedShrinks | WinDiagGUI.py:308-318 | the kill loop only removes processes; it runs to its end exactly when every checked label reads as a pid |
| WinDiagGui.KillCheckedEnds | WinDiagGUI.py:310-317 | when it runs to its end, the processes gone are exactly the running ones whose pid was checked; NoSuchProcess and AccessDenied are passed over |
| WinDiagGui.LabelsParse | WinDiagGUI.py:291-313 | every item built from a snapshot reads back as its process's pid |
| WinDiagGui.PidsByFrom | WinDiagGUI.py:310-313 | a pid read from a checked item is that of a process whose item is checked |
| WinDiagGui.PidsByOf | WinDiagGUI.py:310-313 | the pid of every checked process is read |
| WinDiagGui.KillOfLabels | WinDiagGUI.py:288-317 | for the process list, the kill loop completes and acts on exactly the checked processes' pids |
| WinDiagGui.ProcessItems | WinDiagGUI.py:288-297 | one unchecked item per process, labelled as at line 291 |
| WinDiagGui.StartupItems | WinDiagGUI.py:212-216 | one unchecked item per entry, labelled "name - path" |
| WinDiagGui.DiagnosticApp.constructor | WinDiagGUI.py:111-112 | the temp-file list starts empty |
| WinDiagGui.DiagnosticApp.FindTempFiles | WinDiagGUI.py:162-176 | the field is reset, then holds the files of the existing temp directories in order |
| WinDiagGui.DiagnosticApp.CleanTempFiles | WinDiagGUI.py:178-197 | nothing found: nothing removed and no report; otherwise every file is tried and the report gives the number removed and the number failed; the list is left empty either way |
| WinDiagGui.DiagnosticApp.GetStartupApps | WinDiagGUI.py:227-247 | the values of HKLM Run and its WOW6432Node view, in that order; missing keys are skipped |
| WinDiagGui.DiagnosticApp.ManageStartupApps | WinDiagGUI.py:200-216 | the startup list shows one unchecked item per entry found |
| WinDiagGui.DiagnosticApp.CheckStartupItem | WinDiagGUI.py:214-215 | ticking a box changes that item's check state only |
| WinDiagGui.DiagnosticApp.DeleteStartupApp | WinDiagGUI.py:259-275 | the root loop does exactly what DeleteFirst specifies on HKLM Run and HKCU Run |
| WinDiagGui.DiagnosticApp.DisableStartupApps | WinDiagGUI.py:249-257 | the checked items' names are deleted in list order, as DisableAll specifies |
| WinDiagGui.DiagnosticApp.ManageProcesses | WinDiagGUI.py:278-297 | the process list shows one unchecked item per process of the snapshot |
| WinDiagGui.DiagnosticApp.CheckProcessItem | WinDiagGUI.py:293-294 | ticking a box changes that item's check state only |
| WinDiagGui.DiagnosticApp.KillSelectedProcesses | WinDiagGUI.py:308-318 | the loop changes the process table as KillChecked specifies, and stops at a label that does not read as a pid |

## Left out

- **Qt interface.** The widgets, windows, styling, message boxes and the `QThread`/`pyqtSignal` plumbing are not modelled. The model keeps only the state the actions read: the item texts and their check states.
- **Scalar readers.** The CPU, memory and disk readers are single psutil calls plus float rounding, so they are not modelled.
- **Network diagnostics.** Not modelled; it only displays `psutil.net_connections`.
- **PowerShell calls.** The inventory and uninstall commands are not modelled. The inventory output becomes a parameter: `None` when the command raises CalledProcessError.
- `WinDiagGui.FetchSoftwareList`: only CalledProcessError is caught. Another OSError, such as powershell not being found, escapes `run()` and no list is emitted; the model has no such outcome.
- `TempFs.SweepPaths`: paths are compared as exact strings. Windows compares them case-insensitively and accepts 8.3 short names (`%TEMP%` is often written with `LONGNA~1`). A file walked under two spellings is two paths in the model, and its second removal succeeds there, while `os.remove` fails on Windows. `DefaultTempReportedFailed` covers only the case where the two spellings are the same string.
- `WinRegistry.DisableAllUntouched`: the HKLM Run key and its WOW6432Node view are separate keys in the model, as they are for a 64-bit interpreter. Under a 32-bit interpreter, Windows redirects HKLM Run to the WOW6432Node key, so a deletion does change that key. This also applies to the WOW6432Node clause of `WinDiag.StartupAnalysis` and `WinDiag.AnalysisSafe`.
- **OS calls.** `winreg`, `os.walk`, `os.remove`, `os.environ`, `os.path.expanduser` and psutil are abstract state or parameters:
  - the walk gives full file paths per directory;
  - the environment is a map;
  - the home directory is a string.
- **Logging, print and input.** Not modelled; the typed input is a parameter.
- **`main`.** Not modelled.
- **Registry read access.** The model assumes read access to every key. A PermissionError while reading would escape the scan.
- **Registry value names.** Windows matches value names case-insensitively; `WinRegistry.HasName` and `WinRegistry.RemoveName` match them exactly, and the policy lookup behind `WinDiag.IsCritical` is case-sensitive like the dictionary it models. Example: HKCU Run holds "onedrive" and HKLM Run holds "OneDrive". "onedrive" is not critical, so it is offered; if it is chosen, the delete from HKLM Run removes the critical "OneDrive" on Windows, while the model keeps it. The four lines below name the contracts this bounds.
- `WinDiag.AnalysisSafe`: "keeps every critical entry" holds only with value names matched exactly, as above.
- `WinDiag.BatchSparesCritical`: holds only with value names matched exactly, as above.
- `WinDiag.StartupAnalysis`: "a critical app keeps all its values" holds only with value names matched exactly, as above.
- `WinRegistry.DisableAllKeepsOthers`: a value whose name differs from a batch name only in case is removed on Windows but kept in the model.
- **Float formatting.** How Python prints a float is a parameter (`show`).
- **Percentages.** CPU and memory are real numbers. A `None` percentage, which psutil gives when access is denied, would make the sort raise; that case is not modelled.
- **Per-process label errors.** In `list_top_processes` and `manage_processes`, the try/except around building a label is never triggered, because the snapshot already holds the values.
- **Termination.** The process table has only running and protected processes. Termination takes effect at once.
- `Text.IsDigits`: accepts ASCII digits only. Python's `isdigit` also accepts other Unicode digits. Decimal digits of other scripts (such as '３' or '٣') are read by `int` and select that entry, which the model drops; other digits (such as '²') make `int` raise and `display_and_choose_apps` return [] from its `except ValueError` branch, which the model never takes.
- `WinDiagGui.ParsePid`: accepts a stripped run of ASCII digits only. Python's `int` also accepts a sign, underscores between digits and other Unicode decimal digits; the model treats such labels as unreadable. Labels built by the tool never contain them.
- `Text.IsSpace`: follows `str.isspace`. `Text.SplitLines` follows the boundaries of `str.splitlines`.
