/** The registry of launch targets kept in `names.txt` (main.py): parsing the
    file, rewriting it without the lines of one name, and appending a name.
    The file is a value here; the window class in module Window holds it as
    a field and changes it. */
module Registry {
  import opened Text
  import opened Lines

  /** The state of `names.txt`: absent, or present with its text. */
  datatype NamesFile = Missing | Present(text: string)

  /** A name as the registry keeps it: not blank, no surrounding whitespace. */
  predicate IsName(n: string) {
    n != [] && IsStripped(n)
  }

  /** The list comprehension of `load_app_list`: every line stripped, blank
      lines dropped, file order kept. */
  function ParseLines(ls: seq<string>): (names: seq<string>)
    ensures |names| <= |ls|
    ensures forall i :: 0 <= i < |names| ==> IsName(names[i])
  {
    if ls == [] then []
    else (if Strip(ls[0]) == [] then [] else [Strip(ls[0])]) + ParseLines(ls[1..])
  }

  /** A name is loaded exactly when some line strips to it. */
  lemma {:induction false} ParseLinesMembership(ls: seq<string>, n: string)
    ensures n in ParseLines(ls) <==> n != [] && exists i :: 0 <= i < |ls| && Strip(ls[i]) == n
  {
    if ls != [] {
      ParseLinesMembership(ls[1..], n);
      if exists i :: 0 <= i < |ls| && Strip(ls[i]) == n {
        var i :| 0 <= i < |ls| && Strip(ls[i]) == n;
        if i > 0 { assert Strip(ls[1..][i - 1]) == n; }
      }
      if exists i :: 0 <= i < |ls[1..]| && Strip(ls[1..][i]) == n {
        var i :| 0 <= i < |ls[1..]| && Strip(ls[1..][i]) == n;
        assert Strip(ls[i + 1]) == n;
      }
    }
  }

  lemma {:induction false} ParseLinesAppend(xs: seq<string>, ys: seq<string>)
    ensures ParseLines(xs + ys) == ParseLines(xs) + ParseLines(ys)
  {
    if xs == [] {
      assert xs + ys == ys;
    } else {
      assert (xs + ys)[1..] == xs[1..] + ys;
      ParseLinesAppend(xs[1..], ys);
    }
  }

  /** `load_app_list` (main.py:286-290): a missing file is the empty list;
      otherwise the stripped, non-blank lines of the file in file order. */
  function LoadAppList(f: NamesFile): (names: seq<string>)
    ensures f.Missing? ==> names == []
    ensures forall i :: 0 <= i < |names| ==> IsName(names[i])
  {
    match f
    case Missing => []
    case Present(text) => ParseLines(ReadLines(text))
  }

  /** The lines `delete_names` writes back: those whose stripped text is not
      `name`, verbatim and in file order. */
  function KeepLines(ls: seq<string>, name: string): (kept: seq<string>)
    ensures |kept| <= |ls|
  {
    if ls == [] then []
    else (if Strip(ls[0]) == name then [] else [ls[0]]) + KeepLines(ls[1..], name)
  }

  /** A line is kept exactly when it is a line of the file that does not
      strip to `name`. */
  lemma {:induction false} KeepLinesMembership(ls: seq<string>, name: string, l: string)
    ensures l in KeepLines(ls, name) <==> l in ls && Strip(l) != name
  {
    if ls != [] {
      KeepLinesMembership(ls[1..], name, l);
      assert ls == [ls[0]] + ls[1..];
    }
  }

  /** Nothing is dropped when no line strips to `name`. */
  lemma {:induction false} KeepLinesNoMatch(ls: seq<string>, name: string)
    requires forall i :: 0 <= i < |ls| ==> Strip(ls[i]) != name
    ensures KeepLines(ls, name) == ls
  {
    if ls != [] {
      KeepLinesNoMatch(ls[1..], name);
    }
  }

  /** Exactly the matching lines are dropped, duplicates included. */
  lemma {:induction false} KeepLinesCount(ls: seq<string>, name: string)
    ensures |KeepLines(ls, name)| + |MatchingLines(ls, name)| == |ls|
  {
    if ls != [] {
      KeepLinesCount(ls[1..], name);
    }
  }

  function MatchingLines(ls: seq<string>, name: string): seq<string> {
    if ls == [] then []
    else (if Strip(ls[0]) == name then [ls[0]] else []) + MatchingLines(ls[1..], name)
  }

  /** Dropping lines keeps a sequence that `readlines()` can return. */
  lemma {:induction false} KeepLinesWellFormed(ls: seq<string>, name: string)
    requires WellFormed(ls)
    ensures WellFormed(KeepLines(ls, name))
  {
    if ls != [] {
      var rest := ls[1..];
      assert WellFormed(rest) by {
        forall i | 0 <= i < |rest| ensures IsLine(rest[i], i == |rest| - 1) {
          assert rest[i] == ls[i + 1];
        }
      }
      KeepLinesWellFormed(rest, name);
      var k := KeepLines(rest, name);
      if Strip(ls[0]) != name {
        assert IsLine(ls[0], |ls| == 1);
        assert rest == [] ==> k == [];
        assert WellFormed([ls[0]] + k) by {
          forall i | 0 <= i < |[ls[0]] + k| ensures IsLine(([ls[0]] + k)[i], i == |[ls[0]] + k| - 1) {
            if i > 0 { assert ([ls[0]] + k)[i] == k[i - 1]; }
          }
        }
      }
    }
  }

  /** `list.remove(x)`: drops the first occurrence of `x`. Python raises when
      `x` is absent; the window never asks for that (see Window.Valid), and
      here an absent `x` leaves the list unchanged. */
  function RemoveFirst(names: seq<string>, x: string): (r: seq<string>)
    ensures x !in names ==> r == names
    ensures x in names ==> |r| == |names| - 1
  {
    if names == [] then []
    else if names[0] == x then names[1..]
    else [names[0]] + RemoveFirst(names[1..], x)
  }

  /** One occurrence of `x` goes, if there is one, and nothing else. */
  lemma {:induction false} RemoveFirstMultiset(names: seq<string>, x: string)
    ensures multiset(RemoveFirst(names, x)) == multiset(names) - multiset{x}
  {
    if names != [] {
      assert names == [names[0]] + names[1..];
      if names[0] != x {
        RemoveFirstMultiset(names[1..], x);
      }
    }
  }

  /** Only the first occurrence goes: everything before it stays in place,
      and so does everything after it. */
  lemma {:induction false} RemoveFirstShape(names: seq<string>, x: string, i: nat)
    requires i < |names| && names[i] == x && x !in names[..i]
    ensures RemoveFirst(names, x) == names[..i] + names[i + 1..]
  {
    if i > 0 {
      var tail := names[1..];
      assert names[0] in names[..i];
      assert tail[..i - 1] == names[1..i];
      RemoveFirstShape(tail, x, i - 1);
      assert names[..i] + names[i + 1..] == [names[0]] + (tail[..i - 1] + tail[i..]);
    }
  }

  /** Removing first occurrences one after another gives the same list in
      either order, so the order in which selected items are deleted does not
      matter. */
  lemma {:induction false} RemoveFirstCommutes(names: seq<string>, x: string, y: string)
    ensures RemoveFirst(RemoveFirst(names, x), y) == RemoveFirst(RemoveFirst(names, y), x)
  {
    if names != [] && names[0] != x && names[0] != y {
      RemoveFirstCommutes(names[1..], x, y);
    }
  }

  /** Every occurrence of `name` removed, the rest in order. */
  function RemoveAll(names: seq<string>, name: string): (r: seq<string>)
    ensures |r| <= |names|
  {
    if names == [] then []
    else (if names[0] == name then [] else [names[0]]) + RemoveAll(names[1..], name)
  }

  lemma {:induction false} RemoveAllMembership(names: seq<string>, name: string, n: string)
    ensures n in RemoveAll(names, name) <==> n in names && n != name
  {
    if names != [] {
      RemoveAllMembership(names[1..], name, n);
      assert names == [names[0]] + names[1..];
    }
  }

  lemma {:induction false} ParseKeepLines(ls: seq<string>, name: string)
    ensures ParseLines(KeepLines(ls, name)) == RemoveAll(ParseLines(ls), name)
  {
    if ls != [] {
      var l, rest := ls[0], ls[1..];
      var k := KeepLines(rest, name);
      var p := ParseLines(rest);
      ParseKeepLines(rest, name);
      assert ParseLines(k) == RemoveAll(p, name);
      var head := if Strip(l) == [] then [] else [Strip(l)];
      assert ParseLines(ls) == head + p;
      if Strip(l) == name {
        assert KeepLines(ls, name) == k;
        if head != [] {
          assert (head + p)[1..] == p;
        } else {
          assert head + p == p;
        }
      } else {
        assert KeepLines(ls, name) == [l] + k;
        assert ([l] + k)[1..] == k;
        assert ParseLines([l] + k) == head + ParseLines(k);
        if head != [] {
          assert (head + p)[1..] == p;
          assert RemoveAll(head + p, name) == head + RemoveAll(p, name);
        } else {
          assert head + p == p;
        }
      }
    }
  }

  /** `delete_names` (main.py:224-233): a missing file stays missing;
      otherwise the file is rewritten with the lines `KeepLines` keeps. */
  function DeletedFile(f: NamesFile, name: string): (g: NamesFile)
    ensures f.Missing? <==> g.Missing?
    ensures g.Present? ==> |g.text| <= |f.text|
  {
    match f
    case Missing => Missing
    case Present(text) =>
      var ls := ReadLines(text);
      var kept := KeepLines(ls, name);
      KeepLinesShorter(ls, name);
      Present(Concat(kept))
  }

  lemma {:induction false} KeepLinesShorter(ls: seq<string>, name: string)
    ensures |Concat(KeepLines(ls, name))| <= |Concat(ls)|
  {
    if ls != [] {
      KeepLinesShorter(ls[1..], name);
      var k := KeepLines(ls[1..], name);
      assert Concat(ls) == ls[0] + Concat(ls[1..]);
      if Strip(ls[0]) != name {
        assert KeepLines(ls, name) == [ls[0]] + k;
        assert ([ls[0]] + k)[0] == ls[0] && ([ls[0]] + k)[1..] == k;
        assert Concat([ls[0]] + k) == ls[0] + Concat(k);
      } else {
        assert KeepLines(ls, name) == k;
      }
    }
  }

  /** Every line that survives a delete is written back verbatim and in the
      same order: the rewritten file reads back as exactly `KeepLines`. */
  lemma DeletedFileLines(text: string, name: string)
    ensures DeletedFile(Present(text), name) == Present(Concat(KeepLines(ReadLines(text), name)))
    ensures ReadLines(DeletedFile(Present(text), name).text) == KeepLines(ReadLines(text), name)
  {
    ReadLinesWellFormed(text);
    KeepLinesWellFormed(ReadLines(text), name);
    ReadConcat(KeepLines(ReadLines(text), name));
  }

  /** After a delete the file loads as the old list without any occurrence
      of the deleted name. */
  lemma DeletedFileLoads(f: NamesFile, name: string)
    ensures LoadAppList(DeletedFile(f, name)) == RemoveAll(LoadAppList(f), name)
  {
    if f.Present? {
      DeletedFileLines(f.text, name);
      ParseKeepLines(ReadLines(f.text), name);
    }
  }

  /** Deleting a name that no line strips to leaves the file as it was,
      byte for byte. */
  lemma DeleteAbsentNameKeepsFile(text: string, name: string)
    requires forall i :: 0 <= i < |ReadLines(text)| ==> Strip(ReadLines(text)[i]) != name
    ensures DeletedFile(Present(text), name) == Present(text)
  {
    KeepLinesNoMatch(ReadLines(text), name);
  }

  /** What `on_addBtn_click` leaves in the file: the path and a line feed
      appended after the old text; a missing file is created. */
  function AppendedFile(f: NamesFile, path: string): (g: NamesFile)
    ensures g.Present? && Terminated(g.text)
    ensures f.Present? ==> |f.text| < |g.text| && g.text[..|f.text|] == f.text
  {
    match f
    case Missing => Present(path + "\n")
    case Present(text) => Present(text + path + "\n")
  }

  /** The one line a path contributes once written with its line feed. */
  lemma PathLineLoads(path: string)
    requires forall k :: 0 <= k < |path| ==> path[k] != '\n'
    requires Strip(path) != []
    ensures ParseLines(ReadLines(path + "\n")) == [Strip(path)]
  {
    var l := path + "\n";
    ReadOneLine(path);
    assert AllSpace("\n");
    StripTrailingSpace(path, "\n");
    assert Strip(l) == Strip(path);
    assert [l][1..] == [];
    assert ParseLines([l]) == [Strip(l)] + ParseLines([]);
  }

  /** Appending a path to a file that is missing, empty or newline-terminated
      and reloading gives the old list with the stripped path at its end. */
  lemma AppendThenLoad(f: NamesFile, path: string)
    requires f.Present? ==> Terminated(f.text)
    requires forall k :: 0 <= k < |path| ==> path[k] != '\n'
    requires Strip(path) != []
    ensures LoadAppList(AppendedFile(f, path)) == LoadAppList(f) + [Strip(path)]
  {
    PathLineLoads(path);
    if f.Present? {
      var before := f.text;
      assert AppendedFile(f, path).text == before + (path + "\n");
      ReadLinesAppend(before, path + "\n");
      ParseLinesAppend(ReadLines(before), ReadLines(path + "\n"));
    }
  }

  /** A file whose last line has no line feed (one edited by hand, say) is
      not `Terminated`, and there the appended path is glued onto that last
      line instead of becoming a line of its own. */
  lemma AppendToUnterminatedLineMerges(text: string, path: string)
    requires text != [] && !Terminated(text)
    requires NoLineFeed(path)
    ensures var ls := ReadLines(text);
      ReadLines(AppendedFile(Present(text), path).text)
        == ls[..|ls| - 1] + [ls[|ls| - 1] + path + "\n"]
  {
    assert AppendedFile(Present(text), path).text == text + path + "\n";
    AppendToUnterminated(text, path);
  }
}
