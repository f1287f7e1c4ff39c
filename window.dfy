/** The launcher window of main.py, reduced to the state its handlers read
    and change: the `names.txt` file, the in-memory list `contents`, the
    check-box list widget and the "select all" box. Each handler is one
    method; the Qt signal that re-runs `update_checkAll_state` after an
    item's check state changes is not modelled, so callers invoke
    `UpdateCheckAllState` themselves where Qt would. */
module Window {
  import opened Text
  import opened Lines
  import opened Registry
  import opened Sequencer

  /** One row of the list widget: its text and whether its box is checked. */
  datatype Item = Item(text: string, checked: bool)

  datatype Theme = Light | Dark

  /** `automatic_theme_switching` (main.py:362-368), with the clock's hour as
      an input: the light palette from 06:00 up to but excluding 18:00, the
      dark palette otherwise. */
  function AutomaticThemeSwitching(hour: int): (t: Theme)
    ensures t == Light <==> 6 <= hour < 18
    ensures t == Dark <==> hour < 6 || 18 <= hour
  {
    if 6 <= hour < 18 then Light else Dark
  }

  /** The texts of the rows, in row order. */
  function Texts(items: seq<Item>): (ts: seq<string>)
    ensures |ts| == |items|
    ensures forall i :: 0 <= i < |items| ==> ts[i] == items[i].text
  {
    seq(|items|, i requires 0 <= i < |items| => items[i].text)
  }

  /** One row per name, every box in state `checked`. */
  function AllItems(names: seq<string>, checked: bool): (items: seq<Item>)
    ensures Texts(items) == names
    ensures forall i :: 0 <= i < |items| ==> items[i].checked == checked
  {
    seq(|names|, i requires 0 <= i < |names| => Item(names[i], checked))
  }

  /** The rows with every box set to `checked` and the texts unchanged. */
  function WithChecked(items: seq<Item>, checked: bool): (r: seq<Item>)
    ensures |r| == |items|
    ensures forall i :: 0 <= i < |r| ==> r[i] == Item(items[i].text, checked)
  {
    seq(|items|, i requires 0 <= i < |items| => Item(items[i].text, checked))
  }

  /** The rows with the box of `row` flipped. */
  function Toggled(items: seq<Item>, row: nat): (r: seq<Item>)
    requires row < |items|
    ensures |r| == |items| && Texts(r) == Texts(items)
    ensures r[row].checked == !items[row].checked
    ensures forall i :: 0 <= i < |items| && i != row ==> r[i] == items[i]
  {
    items[row := items[row].(checked := !items[row].checked)]
  }

  predicate AllChecked(items: seq<Item>) {
    forall i :: 0 <= i < |items| ==> items[i].checked
  }

  /** The number of checked rows: the counter of main.py:245-249. */
  function CountChecked(items: seq<Item>): (n: nat)
    ensures n <= |items|
  {
    if items == [] then 0
    else CountChecked(items[..|items| - 1]) + (if items[|items| - 1].checked then 1 else 0)
  }

  /** All rows are counted exactly when all rows are checked. */
  lemma {:induction false} CountCheckedAll(items: seq<Item>)
    ensures CountChecked(items) == |items| <==> AllChecked(items)
  {
    if items != [] {
      var init := items[..|items| - 1];
      CountCheckedAll(init);
      assert AllChecked(items) ==> AllChecked(init) by {
        if AllChecked(items) {
          forall i | 0 <= i < |init| ensures init[i].checked {
            assert init[i] == items[i];
          }
        }
      }
    }
  }

  /** No row is counted exactly when no row is checked. */
  lemma {:induction false} CountCheckedNone(items: seq<Item>)
    ensures CountChecked(items) == 0 <==> forall i :: 0 <= i < |items| ==> !items[i].checked
  {
    if items != [] {
      var init := items[..|items| - 1];
      CountCheckedNone(init);
      if CountChecked(items) == 0 {
        forall i | 0 <= i < |items| ensures !items[i].checked {
          if i < |init| { assert init[i] == items[i]; }
        }
      }
      if forall i :: 0 <= i < |items| ==> !items[i].checked {
        assert forall i :: 0 <= i < |init| ==> !init[i].checked by {
          forall i | 0 <= i < |init| ensures !init[i].checked {
            assert init[i] == items[i];
          }
        }
      }
    }
  }

  /** The texts of the checked rows, in row order. */
  function CheckedTexts(items: seq<Item>): (ts: seq<string>)
    ensures |ts| == CountChecked(items)
  {
    if items == [] then []
    else
      var last := items[|items| - 1];
      CheckedTexts(items[..|items| - 1]) + (if last.checked then [last.text] else [])
  }

  /** A text is selected exactly when some checked row carries it. */
  lemma {:induction false} CheckedTextsMembership(items: seq<Item>, t: string)
    ensures t in CheckedTexts(items) <==> exists i :: 0 <= i < |items| && items[i].checked && items[i].text == t
  {
    if items != [] {
      var init := items[..|items| - 1];
      CheckedTextsMembership(init, t);
      if exists i :: 0 <= i < |init| && init[i].checked && init[i].text == t {
        var i :| 0 <= i < |init| && init[i].checked && init[i].text == t;
        assert items[i] == init[i];
      }
      if exists i :: 0 <= i < |items| && items[i].checked && items[i].text == t {
        var i :| 0 <= i < |items| && items[i].checked && items[i].text == t;
        if i < |init| { assert init[i] == items[i]; }
      }
    }
  }

  /** With every row checked the selection is the whole list, in row order. */
  lemma {:induction false} CheckedTextsAll(items: seq<Item>)
    requires AllChecked(items)
    ensures CheckedTexts(items) == Texts(items)
  {
    if items != [] {
      var init := items[..|items| - 1];
      assert AllChecked(init) by {
        forall i | 0 <= i < |init| ensures init[i].checked {
          assert init[i] == items[i];
        }
      }
      CheckedTextsAll(init);
      assert Texts(items) == Texts(init) + [items[|items| - 1].text];
    }
  }

  /** What `on_startBtn_click` hands to the sequencer (main.py:317-329): the
      checked texts in row order, or the whole of `contents` when no row is
      checked. */
  function LaunchSelection(items: seq<Item>, contents: seq<string>): (sel: seq<string>)
    ensures (exists i :: 0 <= i < |items| && items[i].checked) ==> sel == CheckedTexts(items)
    ensures (forall i :: 0 <= i < |items| ==> !items[i].checked) ==> sel == contents
  {
    CountCheckedNone(items);
    var selected := CheckedTexts(items);
    if selected != [] then selected else contents
  }

  /** The rows that survive deleting the rows in `rows`, in order. */
  function Unselected(items: seq<Item>, rows: set<nat>): seq<Item> {
    if items == [] then []
    else
      var n := |items| - 1;
      Unselected(items[..n], rows) + (if n in rows then [] else [items[n]])
  }

  /** The texts of the rows in `rows`, in row order. */
  function SelectedTexts(items: seq<Item>, rows: set<nat>): seq<string> {
    if items == [] then []
    else
      var n := |items| - 1;
      SelectedTexts(items[..n], rows) + (if n in rows then [items[n].text] else [])
  }

  /** Deleting a single row: the widget loses exactly that row, and exactly
      its text is deleted. */
  lemma {:induction false} DeleteOneRow(items: seq<Item>, row: nat)
    requires row < |items|
    ensures Unselected(items, {row}) == items[..row] + items[row + 1..]
    ensures SelectedTexts(items, {row}) == [items[row].text]
  {
    var n := |items| - 1;
    var init := items[..n];
    if n == row {
      NothingSelected(init, {row});
      assert init == items[..row] && items[row + 1..] == [];
    } else {
      DeleteOneRow(init, row);
      assert init[..row] == items[..row];
      assert init[row + 1..] + [items[n]] == items[row + 1..];
    }
  }

  lemma {:induction false} NothingSelected(items: seq<Item>, rows: set<nat>)
    requires forall r :: r in rows ==> r >= |items|
    ensures Unselected(items, rows) == items
    ensures SelectedTexts(items, rows) == []
  {
    if items != [] {
      var n := |items| - 1;
      NothingSelected(items[..n], rows);
      assert items[..n] + [items[n]] == items;
    }
  }

  /** `list.remove` applied for each text in turn. */
  function RemoveEach(names: seq<string>, ts: seq<string>): seq<string> {
    if ts == [] then names
    else RemoveFirst(RemoveEach(names, ts[..|ts| - 1]), ts[|ts| - 1])
  }

  /** Removing texts that are all present takes away exactly their
      occurrences: one per removed text. */
  lemma {:induction false} RemoveEachMultiset(names: seq<string>, ts: seq<string>)
    requires multiset(ts) <= multiset(names)
    ensures multiset(RemoveEach(names, ts)) == multiset(names) - multiset(ts)
  {
    if ts != [] {
      var init, t := ts[..|ts| - 1], ts[|ts| - 1];
      assert ts == init + [t];
      assert multiset(ts) == multiset(init) + multiset{t};
      RemoveEachMultiset(names, init);
      RemoveFirstMultiset(RemoveEach(names, init), t);
    }
  }

  /** The deleted texts are texts of rows: each occurs among the rows at
      least as often as it is deleted. */
  lemma {:induction false} SelectedTextsOfRows(items: seq<Item>, rows: set<nat>)
    ensures multiset(SelectedTexts(items, rows)) <= multiset(Texts(items))
  {
    if items != [] {
      var n := |items| - 1;
      SelectedTextsOfRows(items[..n], rows);
      assert Texts(items) == Texts(items[..n]) + [items[n].text];
    }
  }

  /** Deleting the selected rows from a `contents` that holds the rows'
      texts takes exactly one occurrence of each selected row's text out of
      it, and nothing else. */
  lemma DeletedContents(items: seq<Item>, contents: seq<string>, rows: set<nat>)
    requires multiset(Texts(items)) == multiset(contents)
    ensures multiset(RemoveEach(contents, SelectedTexts(items, rows)))
      == multiset(contents) - multiset(SelectedTexts(items, rows))
  {
    SelectedTextsOfRows(items, rows);
    RemoveEachMultiset(contents, SelectedTexts(items, rows));
  }

  /** `delete_names` applied for each text in turn. */
  function DeleteEach(f: NamesFile, ts: seq<string>): NamesFile {
    if ts == [] then f
    else DeletedFile(DeleteEach(f, ts[..|ts| - 1]), ts[|ts| - 1])
  }

  /** After the deletes, the file loads without any occurrence of any
      deleted text, and with everything else in order. */
  lemma {:induction false} DeleteEachLoads(f: NamesFile, ts: seq<string>)
    ensures LoadAppList(DeleteEach(f, ts)) == RemoveAllOf(LoadAppList(f), ts)
  {
    if ts != [] {
      DeleteEachLoads(f, ts[..|ts| - 1]);
      DeletedFileLoads(DeleteEach(f, ts[..|ts| - 1]), ts[|ts| - 1]);
    }
  }

  /** Every occurrence of every text of `ts` removed. */
  function RemoveAllOf(names: seq<string>, ts: seq<string>): (r: seq<string>)
    ensures |r| <= |names|
  {
    if ts == [] then names
    else RemoveAll(RemoveAllOf(names, ts[..|ts| - 1]), ts[|ts| - 1])
  }

  /** A name survives exactly when it was there and is none of the deleted
      texts. */
  lemma {:induction false} RemoveAllOfMembership(names: seq<string>, ts: seq<string>, n: string)
    ensures n in RemoveAllOf(names, ts) <==> n in names && n !in ts
  {
    if ts != [] {
      var init := ts[..|ts| - 1];
      RemoveAllOfMembership(names, init, n);
      RemoveAllMembership(RemoveAllOf(names, init), ts[|ts| - 1], n);
      assert ts == init + [ts[|ts| - 1]];
    }
  }

  /** The duplicate check, the cancelled dialog and the append of
      `on_addBtn_click` as the source evidently intends them for one path,
      before the reload: `Warned` for a path already listed, `Cancelled` for
      the empty path, `Append` otherwise. */
  datatype AddDecision = Warned | Cancelled | Append

  function DecideAdd(contents: seq<string>, path: string): (d: AddDecision)
    requires forall i :: 0 <= i < |contents| ==> IsName(contents[i])
    ensures d == Warned <==> path in contents
    ensures d == Cancelled <==> path == []
    ensures d == Append <==> path != [] && path !in contents
  {
    forall i | 0 <= i < |contents| ensures contents[i] != [] {
      assert IsName(contents[i]);
    }
    if path !in contents then (if path != [] then Append else Cancelled) else Warned
  }

  /** What `on_addBtn_click` does as written (main.py:292-315), where
      `picked` is the list `QFileDialog.getOpenFileNames` puts in `result[0]`.
      A list never equals a string, so the duplicate test always passes and
      `contents` plays no part; an
      empty list (dialog cancelled) skips the write; any other list reaches
      `result[0] + "\n"`, where the file is already open for appending (which
      creates it) and adding a string to a list raises TypeError. */
  datatype AddAttempt = AddAttempt(file: NamesFile, warned: bool, raised: bool)

  function AddAsWritten(f: NamesFile, picked: seq<string>): AddAttempt {
    if picked == [] then AddAttempt(f, false, false)
    else AddAttempt(if f.Missing? then Present([]) else f, false, true)
  }

  /** As written, the add button never warns and never registers anything:
      the loaded list is the same before and after, whatever was picked. */
  lemma AddAsWrittenRegistersNothing(f: NamesFile, picked: seq<string>)
    ensures !AddAsWritten(f, picked).warned
    ensures LoadAppList(AddAsWritten(f, picked).file) == LoadAppList(f)
    ensures picked != [] ==> AddAsWritten(f, picked).raised
  {
    if f.Missing? && picked != [] {
      assert ReadLines([]) == [];
    }
  }

  /** Picking a program that is already listed: as written the add raises
      instead of warning; the intended behaviour warns. */
  lemma AddAsWrittenMissesDuplicate()
    ensures var contents := ["C:/a.exe"];
      && AddAsWritten(Present("C:/a.exe\n"), ["C:/a.exe"]).raised
      && !AddAsWritten(Present("C:/a.exe\n"), ["C:/a.exe"]).warned
      && DecideAdd(contents, "C:/a.exe") == Warned
  {
    assert IsName("C:/a.exe");
  }

  class LauncherWindow {
    var namesFile: NamesFile
    var contents: seq<string>
    var items: seq<Item>
    var checkAll: bool

    /** The list widget shows the names of `contents` (the same texts, each
        as often; after a delete their order may differ), and every name is
        non-blank and stripped, as `load_app_list` produces them. */
    ghost predicate Valid()
      reads this
    {
      && multiset(Texts(items)) == multiset(contents)
      && forall i :: 0 <= i < |contents| ==> IsName(contents[i])
    }

    /** The window as `load_ui` sets it up (main.py:103-124): the list loaded
        from the file, one checked row per name, "select all" checked. */
    constructor(f: NamesFile)
      ensures Valid()
      ensures namesFile == f && contents == LoadAppList(f)
      ensures items == AllItems(contents, true) && checkAll
    {
      namesFile := f;
      checkAll := true;
      contents := [];
      items := [];
      new;
      ReloadList();
    }

    /** main.py:111-124 and main.py:302-309: `contents` read from the file,
        the widget refilled with one row per name, every row checked. */
    method ReloadList()
      modifies this`contents, this`items
      ensures Valid()
      ensures contents == LoadAppList(namesFile)
      ensures items == AllItems(contents, true)
    {
      var names := LoadAppList(namesFile);
      contents := names;
      items := AllItems(names, false);
      SetEveryItem(true);
      assert items == AllItems(names, true) by {
        forall i | 0 <= i < |names| ensures items[i] == AllItems(names, true)[i] {
        }
      }
    }

    /** The loops of main.py:273-275 and main.py:306-309: every row's box set
        to `checked`, texts unchanged. */
    method SetEveryItem(checked: bool)
      modifies this`items
      ensures items == WithChecked(old(items), checked)
    {
      for i := 0 to |items|
        invariant |items| == |old(items)|
        invariant forall k :: 0 <= k < i ==> items[k] == Item(old(items)[k].text, checked)
        invariant forall k :: i <= k < |items| ==> items[k] == old(items)[k]
      {
        items := items[i := Item(items[i].text, checked)];
      }
    }

    /** `update_checkAll_state` (main.py:239-263): with no rows "select all"
        is left alone; otherwise it is checked exactly when every row is. The
        rows are not touched. */
    method UpdateCheckAllState()
      modifies this`checkAll
      ensures |items| == 0 ==> checkAll == old(checkAll)
      ensures |items| > 0 ==> (checkAll <==> AllChecked(items))
    {
      var total := |items|;
      if total == 0 {
        return;
      }
      var checkedCount := 0;
      for i := 0 to total
        invariant checkedCount == CountChecked(items[..i])
      {
        assert items[..i + 1][..i] == items[..i];
        if items[i].checked {
          checkedCount := checkedCount + 1;
        }
      }
      assert items[..total] == items;
      CountCheckedAll(items);
      checkAll := checkedCount == total;
    }

    /** `on_checkAll_stateChanged` (main.py:265-275): every row takes the
        state of "select all". */
    method OnCheckAllStateChanged()
      requires Valid()
      modifies this`items
      ensures Valid()
      ensures items == WithChecked(old(items), checkAll)
      ensures forall i :: 0 <= i < |items| ==> items[i].checked == checkAll
    {
      SetEveryItem(checkAll);
      assert Texts(items) == Texts(old(items));
    }

    /** `on_namesList_doubleClicked` (main.py:277-284): the double-clicked row
        is flipped, every other row stays as it was. */
    method OnNamesListDoubleClicked(row: nat)
      requires Valid()
      requires row < |items|
      modifies this`items
      ensures Valid()
      ensures items == Toggled(old(items), row)
    {
      var item := items[row];
      var newState := !item.checked;
      items := items[row := item.(checked := newState)];
      assert Texts(items) == Texts(old(items));
    }

    /** The loop of main.py:319-323: the texts of the checked rows, in row
        order. */
    method SelectedPaths() returns (selected: seq<string>)
      ensures selected == CheckedTexts(items)
      ensures |selected| == CountChecked(items)
    {
      selected := [];
      for i := 0 to |items|
        invariant selected == CheckedTexts(items[..i])
      {
        assert items[..i + 1][..i] == items[..i];
        if items[i].checked {
          selected := selected + [items[i].text];
        }
      }
      assert items[..|items|] == items;
    }

    /** `on_startBtn_click` (main.py:317-329): the launch trace of the
        selection, with the default delay. */
    method OnStartBtnClick(env: Env) returns (trace: seq<Event>)
      ensures trace == Trace(LaunchSelection(items, contents), DefaultDelay, env)
      ensures Subjects(trace) == LaunchSelection(items, contents)
    {
      var selected := SelectedPaths();
      if selected != [] {
        trace := OpenApplications(selected, env);
      } else {
        trace := OpenApplications(contents, env);
      }
      EachPathOnceInOrder(LaunchSelection(items, contents), DefaultDelay, env);
    }

    /** `delete_names` (main.py:224-233): a missing file is left alone;
        otherwise the file is truncated and every line whose stripped text is
        not `name` is written back, in order. */
    method DeleteNames(name: string)
      modifies this`namesFile
      ensures namesFile == DeletedFile(old(namesFile), name)
    {
      if namesFile.Missing? {
        return;
      }
      var lines := ReadLines(namesFile.text);
      namesFile := Present([]);
      for i := 0 to |lines|
        invariant namesFile == Present(Concat(KeepLines(lines[..i], name)))
      {
        KeepStep(lines, i, name);
        if Strip(lines[i]) != name {
          namesFile := Present(namesFile.text + lines[i]);
        }
      }
      assert lines[..|lines|] == lines;
      assert DeletedFile(old(namesFile), name) == Present(Concat(KeepLines(lines, name)));
    }

    /** One iteration of main.py:218-222: the row leaves the widget
        (`takeItem`), the first occurrence of its text leaves `contents`
        (`list.remove`), and the file loses every line that strips to it. */
    method TakeRow(row: nat)
      requires Valid()
      requires row < |items|
      modifies this`items, this`contents, this`namesFile
      ensures Valid()
      ensures items == old(items[..row] + items[row + 1..])
      ensures contents == RemoveFirst(old(contents), old(items[row].text))
      ensures namesFile == DeletedFile(old(namesFile), old(items[row].text))
    {
      var text := items[row].text;
      RemoveRowMultiset(items, row);
      items := items[..row] + items[row + 1..];
      ghost var names := contents;
      RemoveFirstMultiset(names, text);
      contents := RemoveFirst(contents, text);
      forall i | 0 <= i < |contents| ensures IsName(contents[i]) {
        assert contents[i] in multiset(contents);
        assert contents[i] in multiset(names);
        var k :| 0 <= k < |names| && names[k] == contents[i];
      }
      DeleteNames(text);
    }

    /** `on_namesListAction_triggered` (main.py:215-222): each selected row,
        in row order, leaves the widget; the first occurrence of its text
        leaves `contents`; and every line of the file that strips to its text
        is deleted. "Select all" is not touched. */
    method OnNamesListActionTriggered(rows: set<nat>)
      requires Valid()
      modifies this`items, this`contents, this`namesFile
      ensures Valid()
      ensures items == Unselected(old(items), rows)
      ensures contents == RemoveEach(old(contents), SelectedTexts(old(items), rows))
      ensures namesFile == DeleteEach(old(namesFile), SelectedTexts(old(items), rows))
    {
      var before, names, f := items, contents, namesFile;
      var row := 0;
      for j := 0 to |before|
        invariant row == |Unselected(before[..j], rows)|
        invariant items == Unselected(before[..j], rows) + before[j..]
        invariant contents == RemoveEach(names, SelectedTexts(before[..j], rows))
        invariant namesFile == DeleteEach(f, SelectedTexts(before[..j], rows))
        invariant Valid()
      {
        row := VisitRow(before, rows, j, row, names, f);
      }
      assert before[..|before|] == before;
    }

    /** One iteration of the loop of main.py:218-222, for row `j` of the rows
        as they were before the deletion (`before`): `row` is where that row
        now sits, and the state grows from the first `j` rows' deletions to
        the first `j + 1` rows'. */
    method VisitRow(before: seq<Item>, rows: set<nat>, j: nat, row: nat,
                    names: seq<string>, f: NamesFile) returns (next: nat)
      requires j < |before|
      requires Valid()
      requires row == |Unselected(before[..j], rows)|
      requires items == Unselected(before[..j], rows) + before[j..]
      requires contents == RemoveEach(names, SelectedTexts(before[..j], rows))
      requires namesFile == DeleteEach(f, SelectedTexts(before[..j], rows))
      modifies this`items, this`contents, this`namesFile
      ensures Valid()
      ensures next == |Unselected(before[..j + 1], rows)|
      ensures items == Unselected(before[..j + 1], rows) + before[j + 1..]
      ensures contents == RemoveEach(names, SelectedTexts(before[..j + 1], rows))
      ensures namesFile == DeleteEach(f, SelectedTexts(before[..j + 1], rows))
    {
      ghost var texts := SelectedTexts(before[..j], rows);
      VisitStep(before, rows, j);
      if j in rows {
        DeleteStep(names, f, texts, before[j].text);
        TakeRow(row);
        next := row;
      } else {
        next := row + 1;
      }
    }

    /** `on_addBtn_click` (main.py:292-315) for one picked path, the empty
        path standing for a cancelled dialog. A path already in `contents` is
        warned about and changes nothing. Otherwise a non-empty path is
        appended to the file with a line feed, `contents` and the rows are
        reloaded from the file with every row checked; in both of these cases
        "select all" is then brought up to date. */
    method OnAddBtnClick(path: string) returns (warned: bool)
      requires Valid()
      modifies this
      ensures Valid()
      ensures warned <==> DecideAdd(old(contents), path) == Warned
      ensures warned ==> namesFile == old(namesFile) && contents == old(contents)
                         && items == old(items) && checkAll == old(checkAll)
      ensures path == [] ==> !warned && namesFile == old(namesFile) && contents == old(contents)
                             && items == old(items)
      ensures !warned && path != [] ==>
                && namesFile == AppendedFile(old(namesFile), path)
                && contents == LoadAppList(namesFile)
                && items == AllItems(contents, true)
                && (|items| > 0 ==> checkAll)
      ensures !warned ==> (|items| > 0 ==> (checkAll <==> AllChecked(items)))
                          && (|items| == 0 ==> checkAll == old(checkAll))
    {
      if path !in contents {
        if path != [] {
          namesFile := AppendedFile(namesFile, path);
          ReloadList();
        }
        UpdateCheckAllState();
        warned := false;
      } else {
        warned := true;
      }
    }
  }

  lemma {:induction false} KeepLinesSnoc(ls: seq<string>, l: string, name: string)
    ensures KeepLines(ls + [l], name) == KeepLines(ls, name) + (if Strip(l) == name then [] else [l])
  {
    if ls == [] {
      assert ls + [l] == [l];
      assert [l][1..] == [];
    } else {
      assert (ls + [l])[1..] == ls[1..] + [l];
      KeepLinesSnoc(ls[1..], l, name);
    }
  }

  /** One more line of the file considered by `delete_names`: written back
      after the kept ones when it does not strip to `name`. */
  lemma KeepStep(lines: seq<string>, i: nat, name: string)
    requires i < |lines|
    ensures Concat(KeepLines(lines[..i + 1], name))
      == Concat(KeepLines(lines[..i], name)) + (if Strip(lines[i]) == name then [] else lines[i])
  {
    assert lines[..i + 1] == lines[..i] + [lines[i]];
    KeepLinesSnoc(lines[..i], lines[i], name);
    var kept := KeepLines(lines[..i], name);
    if Strip(lines[i]) != name {
      ConcatSnoc(kept, lines[i]);
    } else {
      assert kept + [] == kept;
      assert Concat(kept) + [] == Concat(kept);
    }
  }

  /** How the surviving rows and the deleted texts grow by row `j`: the
      widget `Unselected(before[..j], rows) + before[j..]` has row `j` at
      position `|Unselected(before[..j], rows)|`, and taking it out or
      stepping over it gives the widget for the first `j + 1` rows. */
  lemma VisitStep(before: seq<Item>, rows: set<nat>, j: nat)
    requires j < |before|
    ensures var kept := Unselected(before[..j], rows);
      var items := kept + before[j..];
      && items[|kept|] == before[j]
      && (j in rows ==>
            && Unselected(before[..j + 1], rows) + before[j + 1..] == items[..|kept|] + items[|kept| + 1..]
            && |Unselected(before[..j + 1], rows)| == |kept|
            && SelectedTexts(before[..j + 1], rows) == SelectedTexts(before[..j], rows) + [before[j].text])
      && (j !in rows ==>
            && Unselected(before[..j + 1], rows) + before[j + 1..] == items
            && |Unselected(before[..j + 1], rows)| == |kept| + 1
            && SelectedTexts(before[..j + 1], rows) == SelectedTexts(before[..j], rows))
  {
    var kept := Unselected(before[..j], rows);
    var items := kept + before[j..];
    assert before[..j + 1][..j] == before[..j];
    assert items[..|kept|] == kept;
    assert items[|kept| + 1..] == before[j + 1..];
    assert before[j..] == [before[j]] + before[j + 1..];
  }

  /** One more deleted text: one more `list.remove` and one more
      `delete_names`. */
  lemma DeleteStep(names: seq<string>, f: NamesFile, ts: seq<string>, t: string)
    ensures RemoveEach(names, ts + [t]) == RemoveFirst(RemoveEach(names, ts), t)
    ensures DeleteEach(f, ts + [t]) == DeletedFile(DeleteEach(f, ts), t)
  {
    assert (ts + [t])[..|ts|] == ts;
  }

  lemma ConcatSnoc(ls: seq<string>, l: string)
    ensures Concat(ls + [l]) == Concat(ls) + l
  {
    ConcatAppend(ls, [l]);
    assert [l][1..] == [];
  }

  lemma RemoveRowMultiset(items: seq<Item>, row: nat)
    requires row < |items|
    ensures multiset(Texts(items[..row] + items[row + 1..])) == multiset(Texts(items)) - multiset{items[row].text}
  {
    assert Texts(items) == Texts(items[..row]) + [items[row].text] + Texts(items[row + 1..]);
    assert Texts(items[..row] + items[row + 1..]) == Texts(items[..row]) + Texts(items[row + 1..]);
  }

  /** After a successful add to a file that is missing, empty or
      newline-terminated, the reloaded list is the old file's list with the
      stripped path at its end, and every row is checked, so "select all" is
      checked too. */
  lemma AddedPathAppearsLast(f: NamesFile, path: string)
    requires f.Present? ==> Terminated(f.text)
    requires forall k :: 0 <= k < |path| ==> path[k] != '\n'
    requires Strip(path) != []
    ensures var contents := LoadAppList(AppendedFile(f, path));
      && contents == LoadAppList(f) + [Strip(path)]
      && AllChecked(AllItems(contents, true))
      && CheckedTexts(AllItems(contents, true)) == contents
  {
    AppendThenLoad(f, path);
    var contents := LoadAppList(AppendedFile(f, path));
    CheckedTextsAll(AllItems(contents, true));
  }

  /** "Select all" checked or cleared and then recomputed from the rows
      comes out as it was set: the recomputation never flips it back. */
  lemma CheckAllIsStable(items: seq<Item>, checked: bool)
    requires |items| > 0
    ensures AllChecked(WithChecked(items, checked)) <==> checked
  {
    assert WithChecked(items, checked)[0].checked == checked;
  }
}
