# Launcher registry, selection and launch sequencer

A Dafny model of the logic underneath a small PySide6 desktop launcher. The
user keeps a list of programs to start. The list is persisted one path per
line in `names.txt`. Each entry is shown as a check-box row. The "一键启动"
(start) button launches the checked entries one after another, pausing after
each launch.

The model has five modules:

- `Text` (text.dfy): Python's `str.strip`, `str.lower` and `str.endswith`
  on ASCII. `strip` treats as whitespace what `str.isspace` accepts in
  ASCII.
- `Lines` (lines.dfy): `readlines()`. It splits a text into lines that
  keep their line feeds. Writing the lines back gives the text again.
- `Registry` (registry.dfy): the `names.txt` file as a value (`Missing`
  or `Present(text)`). It covers `load_app_list`, the rewrite done by
  `delete_names`, the append done by `on_addBtn_click`, and `list.remove`.
- `Sequencer` (sequencer.dfy): `open_applications` as a method that
  builds a trace of events:
  - `NotFound`, `ShellOpen`, `Spawn`, `Wait`, `Error`.
  - Whether a path exists, and whether its launch call raises, are given
    as predicates.
- `Window` (window.dfy): the window class `LauncherWindow` and the
  functions its contracts use.
  - Its fields are the file, the in-memory `contents`, the check-box rows
    and the "选择所有" (select all) box.
  - Each Qt handler is one method.
  - `Valid()` says two things. The rows hold the texts of `contents`
    (as multisets). Every name is non-blank and stripped.

Where the code and its documentation differ, the model follows the code:

- A pause follows a launch only when the launch call did not raise. A path
  that is missing or that fails to launch costs no pause.
- `delete_names` rewrites the file from the file's own lines, not from
  `contents`. Every line that strips to the name goes, duplicates included.
  `contents` loses only the first occurrence.

## Model

| member | source | states |
|---|---|---|
| Text.Strip | main.py:290 | the stripped text is no longer than the input and neither starts nor ends with whitespace |
| Text.StripEmpty | main.py:290 | a line strips to nothing exactly when it is all whitespace, which is the blank-line filter of `load_app_list` |
| Text.StripIsSlice | main.py:290 | `strip` only cuts whitespace, and only from the two ends |
| Text.StripIdempotent | main.py:290 | a stripped name strips to itself |
| Text.StripTrailingSpace | main.py:290 | a line with or without its line feed strips to the same name |
| Text.StripLeftCuts | main.py:290 | `lstrip` removes a prefix that is all whitespace |
| Text.StripRightCuts | main.py:290 | `rstrip` removes a suffix that is all whitespace |
| Text.Lower | script.py:24 | lower-casing keeps the length, lower-cases each character and leaves no upper-case letter |
| Lines.ReadLines | main.py:290 | the lines of a text, written back one after the other, give the text |
| Lines.ReadLinesWellFormed | main.py:228-229 | every line `readlines` returns is non-empty, with a line feed only at its end, and ends in a line feed unless it is the last |
| Lines.ReadLinesTerminated | main.py:228-229 | every line of a text that ends in a line feed ends in a line feed |
| Lines.ReadConcat | main.py:230-233 | lines written back to the file read back as exactly those lines |
| Lines.ReadLinesAppend | main.py:299-300 | appending to a terminated file adds the new lines after the old ones, unchanged |
| Lines.ReadOneLine | main.py:300 | a path written with its line feed reads back as one line |
| Lines.UnterminatedLastLine | main.py:290 | in a text that does not end in a line feed, the last line holds no line feed, and the text is the earlier lines followed by it |
| Lines.AppendToUnterminated | main.py:299-300 | text appended to a file whose last line has no line feed keeps the earlier lines and continues the last one |
| Registry.ParseLines | main.py:290 | every loaded name is non-blank and stripped, and there are no more names than lines |
| Registry.ParseLinesMembership | main.py:290 | a name is loaded exactly when it is non-blank and some line strips to it |
| Registry.ParseLinesAppend | main.py:290 | parsing lines keeps file order |
| Registry.LoadAppList | main.py:286-290 | a missing file loads as the empty list, and every loaded name is non-blank and stripped |
| Registry.KeepLinesMembership | main.py:231-233 | a line is written back exactly when it is a line of the file that does not strip to the name |
| Registry.KeepLinesNoMatch | main.py:231-233 | when no line strips to the name, every line is written back |
| Registry.KeepLinesCount | main.py:231-233 | the lines dropped are exactly the matching lines, duplicates included |
| Registry.KeepLinesWellFormed | main.py:230-233 | the rewritten lines are still lines `readlines` can return |
| Registry.DeletedFile | main.py:224-233 | a missing file stays missing, a present file stays present, and the file never grows |
| Registry.DeletedFileLines | main.py:224-233 | the rewritten file reads back as the kept lines, verbatim and in order |
| Registry.DeletedFileLoads | main.py:224-233 | after a delete the file loads as the old list without any occurrence of the name, the rest in order |
| Registry.DeleteAbsentNameKeepsFile | main.py:224-233 | deleting a name no line strips to leaves the file byte for byte |
| Registry.RemoveFirst | main.py:220 | `list.remove` of a present name shortens the list by one, and an absent name changes nothing |
| Registry.RemoveFirstMultiset | main.py:220 | exactly one occurrence of the name goes |
| Registry.RemoveFirstShape | main.py:220 | only the first occurrence goes, and everything around it stays in place |
| Registry.RemoveFirstCommutes | main.py:218-220 | removing two names gives the same list in either order |
| Registry.RemoveAllMembership | main.py:231-233 | a name survives dropping all occurrences of another exactly when it differs from it |
| Registry.AppendedFile | main.py:299-300 | the append creates a missing file, keeps the old text as a prefix and leaves the file ending in a line feed |
| Registry.PathLineLoads | main.py:290-300 | a written path loads as its stripped form |
| Registry.AppendThenLoad | main.py:299-302 | appending a path to a terminated file and reloading gives the old list plus the stripped path at its end |
| Registry.AppendToUnterminatedLineMerges | main.py:299-300 | for every non-empty file whose last line has no line feed, the appended path is glued onto that last line, and the earlier lines stay as they were |
| Sequencer.ItemEvents | script.py:15-36 | a missing path gives exactly one event, a not-found report. A present path gives exactly two: a shell open for a `.lnk` path or a spawn otherwise, then a wait if the launch succeeds and an error if not |
| Sequencer.OpenApplications | script.py:6-36 | the loop's trace is the events of each path in input order, with `delay` defaulting to 5 |
| Sequencer.TraceAppend | script.py:14-36 | the trace of two lists in a row is the two traces in a row, so no failure stops later paths |
| Sequencer.ItemSubjects | script.py:17-29 | each path is announced exactly once |
| Sequencer.EachPathOnceInOrder | script.py:14-36 | the announced paths are exactly the input paths, in order |
| Sequencer.ItemWaits | script.py:31-36 | one path causes one wait if it launches and none otherwise |
| Sequencer.WaitsMatchLaunches | script.py:31-33 | the number of waits equals the number of successful launches |
| Sequencer.WaitFollowsLaunch | script.py:24-33 | every wait directly follows the launch of a path that launches |
| Sequencer.MissingPathIsNotWaitedFor | script.py:6-33 | with the default delay of 5, a launched program and a missing one give one wait |
| Window.AutomaticThemeSwitching | main.py:362-368 | light from hour 6 up to but not including 18, dark otherwise |
| Window.AllItems | main.py:112 | the widget shows one row per name, in order |
| Window.WithChecked | main.py:273-275 | every row takes the given state and keeps its text |
| Window.Toggled | main.py:277-284 | the toggled row flips, and every other row and every text stays |
| Window.CountChecked | main.py:245-249 | the counter never exceeds the number of rows |
| Window.CountCheckedAll | main.py:245-256 | the count equals the number of rows exactly when every row is checked |
| Window.CountCheckedNone | main.py:245-249 | the count is zero exactly when no row is checked |
| Window.CheckedTexts | main.py:319-323 | there are as many selected texts as checked rows |
| Window.CheckedTextsMembership | main.py:319-323 | a text is selected exactly when some checked row carries it |
| Window.CheckedTextsAll | main.py:306-323 | with every row checked, the selection is every text in row order |
| Window.LaunchSelection | main.py:317-329 | the checked texts in row order if any row is checked, and the whole `contents` otherwise |
| Window.DeleteOneRow | main.py:218-222 | deleting one row removes exactly that row and deletes exactly its text |
| Window.RemoveEachMultiset | main.py:218-220 | removing present texts one by one takes out exactly one occurrence each |
| Window.SelectedTextsOfRows | main.py:218-220 | a text is never deleted more often than rows carry it |
| Window.DeletedContents | main.py:218-220 | deleting the selected rows takes exactly one occurrence of each selected text out of `contents` |
| Window.DeleteEachLoads | main.py:218-233 | after the deletes the file loads as the old list without any occurrence of any deleted text |
| Window.RemoveAllOfMembership | main.py:218-233 | a name survives the deletes exactly when it was listed and is none of the deleted texts |
| Window.DecideAdd | main.py:297-315 | the add warns exactly for a listed path, does nothing for the empty (cancelled) path, and appends otherwise |
| Window.AddAsWritten | main.py:292-300 | as written, an empty pick writes nothing, and any other pick raises after the append opened (and so created) the file |
| Window.AddAsWrittenRegistersNothing | main.py:292-300 | as written, the add never warns and the file loads the same before and after |
| Window.AddAsWrittenMissesDuplicate | main.py:296-315 | as written, picking a listed program raises instead of warning |
| Window.LauncherWindow.constructor | main.py:111-124 | the window starts with the loaded list, one checked row per name, and "select all" checked |
| Window.LauncherWindow.ReloadList | main.py:302-309 | `contents` is reloaded from the file, and the rows are refilled from it with every row checked |
| Window.LauncherWindow.SetEveryItem | main.py:273-275 | every row takes the given state, and the texts are unchanged |
| Window.LauncherWindow.UpdateCheckAllState | main.py:239-263 | with no rows "select all" is unchanged; otherwise it is checked exactly when every row is; rows are untouched |
| Window.LauncherWindow.OnCheckAllStateChanged | main.py:265-275 | every row's state becomes that of "select all" |
| Window.LauncherWindow.OnNamesListDoubleClicked | main.py:277-284 | exactly the double-clicked row flips |
| Window.LauncherWindow.SelectedPaths | main.py:317-323 | the loop collects the checked texts in row order |
| Window.LauncherWindow.OnStartBtnClick | main.py:317-329 | the launch trace is that of the selection, and each selected path is processed once, in order |
| Window.LauncherWindow.DeleteNames | main.py:224-233 | the loop leaves the file as `DeletedFile` describes it |
| Window.LauncherWindow.TakeRow | main.py:219-222 | the row leaves the widget, the first occurrence of its text leaves `contents`, and the file loses every matching line |
| Window.LauncherWindow.OnNamesListActionTriggered | main.py:215-222 | the selected rows leave the widget, and `contents` and the file lose the selected texts as described above |
| Window.LauncherWindow.VisitRow | main.py:218-222 | one pass of the deletion loop extends the deletion by one row |
| Window.LauncherWindow.OnAddBtnClick | main.py:292-315 | a listed path warns and changes nothing. The empty path changes nothing but the select-all box. Any other path is appended, reloaded and checked, and the select-all box is recomputed |
| Window.KeepStep | main.py:231-233 | one more line is written back exactly when it does not strip to the name |
| Window.VisitStep | main.py:218-219 | the deleted row sits at the index `namesList.row(item)` finds |
| Window.AddedPathAppearsLast | main.py:299-309 | after an add the list is the old list plus the stripped path, every row is checked, and all of it would be launched |
| Window.CheckAllIsStable | main.py:239-275 | after "select all" sets every row, recomputing it gives back the state it was set to |

## Left out

- Widget construction, layout, fonts, icons, tabs and menus are not modelled. The same goes for window centring, stay-on-top, the picture tab, the `open_file` dialog and stylesheet loading: all of them are calls into Qt or qdarkstyle with no logic of their own.
- Qt signals, including the disconnect/reconnect around "select all" and `on_namesList_itemChanged`, are not modelled. Each handler is one atomic method, and `UpdateCheckAllState` is a separate method a caller runs where Qt would.
- `get_resource_path` and the PyInstaller environment are not modelled.
- Real I/O is abstracted:
  - The file is a value, not a handle.
  - The text is already decoded, with newlines normalised to `'\n'`.
  - `os.path.exists`, `subprocess.Popen`, `os.startfile` and `time.sleep` become trace events and predicates.
  - Printing is folded into the `NotFound` and `Error` events.
- `strip` and `lower` cover ASCII only. Unicode whitespace and case mapping are not modelled.
- The clock is an input: `AutomaticThemeSwitching` takes the hour, and applying the stylesheet is not modelled.
- The demo block at the end of script.py is not modelled.
- Registry.RemoveFirst: Python raises when the name is absent; the function instead returns the list unchanged. The window only removes texts of its own rows, which `Valid` puts in `contents`.
- Window.LauncherWindow.OnNamesListActionTriggered: Qt returns `selectedItems()` in selection order. The model takes the selection as a set of rows, deleted in row order. `RemoveFirstCommutes` shows the order does not change `contents`.
- Window.DecideAdd: models one path string, with the empty string for a cancelled dialog, not the list the dialog returns (see Findings).

## Findings

| source | as written | input that shows it | evidently intended | confidence | as-written member | corrected member |
|---|---|---|---|---|---|---|
| main.py:293-300 | `getOpenFileNames` returns a pair `(list, filter)`, so `result[0]` is a list of paths. A list is never `in` a list of strings, so the duplicate warning never fires. A non-empty pick reaches `result[0] + "\n"`, which raises TypeError after `open(..., "a")` has already created the file | `names.txt` holding `C:/a.exe`, and the user picks `C:/a.exe` again | warn about a path already listed; otherwise append the path with a line feed and reload | not executed | Window.AddAsWrittenMissesDuplicate | Window.LauncherWindow.OnAddBtnClick |
