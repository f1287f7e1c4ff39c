/** A text file seen as Python's `readlines()` sees it: a sequence of lines,
    each keeping its terminating line feed, the last one possibly without it.
    The text is taken to be already decoded, with newlines normalised to
    `'\n'`. */
module Lines {

  /** The length of the first line of `s`: the index just past the first
      line feed, or `|s|` when there is none. */
  function LineEnd(s: string): (n: nat)
    ensures n <= |s|
    ensures s != [] ==> n > 0
  {
    if s == [] then 0
    else if s[0] == '\n' then 1
    else 1 + LineEnd(s[1..])
  }

  /** No line feed comes before `LineEnd(s) - 1`, and there is one there
      unless the text ends first. */
  lemma {:induction false} LineEndSpec(s: string)
    ensures forall k :: 0 <= k < LineEnd(s) - 1 ==> s[k] != '\n'
    ensures 0 < LineEnd(s) < |s| ==> s[LineEnd(s) - 1] == '\n'
  {
    if s != [] && s[0] != '\n' {
      LineEndSpec(s[1..]);
      forall k | 0 <= k < LineEnd(s) - 1 ensures s[k] != '\n' {
        if k > 0 { assert s[k] == s[1..][k - 1]; }
      }
    }
  }

  /** One element of `readlines()`: not empty, no line feed before its last
      character, and ending in a line feed unless it is the file's last line. */
  predicate IsLine(l: string, isLast: bool) {
    && l != []
    && (forall k :: 0 <= k < |l| - 1 ==> l[k] != '\n')
    && (!isLast ==> l[|l| - 1] == '\n')
  }

  /** A sequence of lines that `readlines()` can return. */
  predicate WellFormed(ls: seq<string>) {
    forall i :: 0 <= i < |ls| ==> IsLine(ls[i], i == |ls| - 1)
  }

  /** A text that is empty or ends with a line feed. */
  predicate Terminated(s: string) {
    s == [] || s[|s| - 1] == '\n'
  }

  /** Writing the lines back one after the other. */
  function Concat(ls: seq<string>): string {
    if ls == [] then [] else ls[0] + Concat(ls[1..])
  }

  lemma {:induction false} ConcatAppend(xs: seq<string>, ys: seq<string>)
    ensures Concat(xs + ys) == Concat(xs) + Concat(ys)
  {
    if xs == [] {
      assert xs + ys == ys;
    } else {
      assert (xs + ys)[1..] == xs[1..] + ys;
      ConcatAppend(xs[1..], ys);
    }
  }

  /** `readlines()`: the lines of `s` in order; writing them back gives `s`
      again (`ReadLinesWellFormed` shows each is a line). */
  function ReadLines(s: string): (ls: seq<string>)
    ensures Concat(ls) == s
    decreases |s|
  {
    if s == [] then []
    else
      var n := LineEnd(s);
      var rest := ReadLines(s[n..]);
      assert s == s[..n] + s[n..];
      assert ([s[..n]] + rest)[1..] == rest;
      [s[..n]] + rest
  }

  /** The first line of a non-empty text is a line, and it ends in a line
      feed when more text follows it. */
  lemma FirstLine(s: string)
    requires s != []
    ensures IsLine(s[..LineEnd(s)], true)
    ensures LineEnd(s) < |s| ==> IsLine(s[..LineEnd(s)], false)
  {
    LineEndSpec(s);
  }

  /** Each element of `readlines()` is a line in the sense of `IsLine`. */
  lemma {:induction false} ReadLinesWellFormed(s: string)
    ensures WellFormed(ReadLines(s))
    decreases |s|
  {
    if s != [] {
      var n := LineEnd(s);
      var rest := ReadLines(s[n..]);
      var ls := ReadLines(s);
      ReadLinesWellFormed(s[n..]);
      FirstLine(s);
      assert ls == [s[..n]] + rest;
      assert rest == [] <==> n == |s|;
      forall i | 0 <= i < |ls| ensures IsLine(ls[i], i == |ls| - 1) {
        if i > 0 { assert ls[i] == rest[i - 1]; }
      }
    }
  }

  /** When the text ends in a line feed, so does every line of it. */
  lemma {:induction false} ReadLinesTerminated(s: string)
    requires Terminated(s)
    ensures forall i :: 0 <= i < |ReadLines(s)| ==> IsLine(ReadLines(s)[i], false)
    decreases |s|
  {
    if s != [] {
      var n := LineEnd(s);
      var tail := s[n..];
      var rest := ReadLines(tail);
      var ls := ReadLines(s);
      assert Terminated(tail) by {
        assert tail != [] ==> tail[|tail| - 1] == s[|s| - 1];
      }
      ReadLinesTerminated(tail);
      FirstLine(s);
      assert IsLine(s[..n], false) by {
        if n == |s| { assert s[..n] == s; }
      }
      assert ls == [s[..n]] + rest;
      forall i | 0 <= i < |ls| ensures IsLine(ls[i], false) {
        if i > 0 { assert ls[i] == rest[i - 1]; }
      }
    }
  }

  lemma {:induction false} LineEndOfLine(l: string, t: string)
    requires l != []
    requires forall k :: 0 <= k < |l| - 1 ==> l[k] != '\n'
    requires l[|l| - 1] == '\n' || t == []
    ensures LineEnd(l + t) == |l|
  {
    if |l| > 1 {
      assert (l + t)[1..] == l[1..] + t;
      LineEndOfLine(l[1..], t);
    }
  }

  /** Reading back what was written: lines that `readlines()` can return are
      exactly what `readlines()` returns for their concatenation. */
  lemma {:induction false} ReadConcat(ls: seq<string>)
    requires WellFormed(ls)
    ensures ReadLines(Concat(ls)) == ls
  {
    if ls != [] {
      var l, rest := ls[0], ls[1..];
      assert WellFormed(rest) by {
        forall i | 0 <= i < |rest| ensures IsLine(rest[i], i == |rest| - 1) {
          assert rest[i] == ls[i + 1];
        }
      }
      assert IsLine(l, |ls| == 1);
      assert |ls| == 1 ==> rest == [] && Concat(rest) == [];
      LineEndOfLine(l, Concat(rest));
      var s := l + Concat(rest);
      assert s[..|l|] == l && s[|l|..] == Concat(rest);
      ReadConcat(rest);
    }
  }

  /** Appending text to a file that is empty or ends with a line feed adds
      the lines of the appended text after the old lines, unchanged. */
  lemma ReadLinesAppend(a: string, b: string)
    requires Terminated(a)
    ensures ReadLines(a + b) == ReadLines(a) + ReadLines(b)
  {
    var xs, ys := ReadLines(a), ReadLines(b);
    ReadLinesTerminated(a);
    ReadLinesWellFormed(b);
    ConcatAppend(xs, ys);
    WellFormedAppend(xs, ys);
    ReadConcat(xs + ys);
  }

  lemma WellFormedAppend(xs: seq<string>, ys: seq<string>)
    requires forall i :: 0 <= i < |xs| ==> IsLine(xs[i], false)
    requires WellFormed(ys)
    ensures WellFormed(xs + ys)
  {
    forall i | 0 <= i < |xs + ys| ensures IsLine((xs + ys)[i], i == |xs + ys| - 1) {
      if i < |xs| {
        assert IsLine(xs[i], false);
      } else {
        assert (xs + ys)[i] == ys[i - |xs|];
      }
    }
  }

  /** A single path written with its line feed reads back as one line. */
  lemma ReadOneLine(p: string)
    requires forall k :: 0 <= k < |p| ==> p[k] != '\n'
    ensures ReadLines(p + "\n") == [p + "\n"]
  {
    var l := p + "\n";
    LineEndOfLine(l, []);
    assert l + [] == l && l[..|l|] == l && l[|l|..] == [];
  }

  /** A text without line feeds. */
  predicate NoLineFeed(s: string) {
    forall k :: 0 <= k < |s| ==> s[k] != '\n'
  }

  /** A text whose last line has no line feed: the last line holds no line
      feed at all, and the text is the earlier lines followed by it. */
  lemma UnterminatedLastLine(s: string)
    requires s != [] && !Terminated(s)
    ensures var ls := ReadLines(s);
      && ls != []
      && s == Concat(ls[..|ls| - 1]) + ls[|ls| - 1]
      && NoLineFeed(ls[|ls| - 1])
  {
    var ls := ReadLines(s);
    assert ls != [];
    var init, last := ls[..|ls| - 1], ls[|ls| - 1];
    assert ls == init + [last];
    ConcatAppend(init, [last]);
    var one: seq<string> := [last];
    assert one[1..] == [];
    ReadLinesWellFormed(s);
    assert IsLine(last, true);
    assert last[|last| - 1] == s[|s| - 1];
  }

  /** A line without a line feed, continued by `p` and a line feed, is a
      terminated line. */
  lemma ContinuedLine(last: string, p: string)
    requires NoLineFeed(last) && NoLineFeed(p)
    ensures IsLine(last + p + "\n", false)
  {
    var merged := last + p + "\n";
    forall k | 0 <= k < |merged| - 1 ensures merged[k] != '\n' {
      if k < |last| {
        assert merged[k] == last[k];
      } else {
        assert merged[k] == p[k - |last|];
      }
    }
  }

  /** All lines but the last of a well-formed sequence end in a line feed. */
  lemma InitLinesTerminated(ls: seq<string>, init: seq<string>)
    requires WellFormed(ls) && ls != [] && init == ls[..|ls| - 1]
    ensures forall i :: 0 <= i < |init| ==> IsLine(init[i], false)
  {
    forall i | 0 <= i < |init| ensures IsLine(init[i], false) {
      assert init[i] == ls[i];
    }
  }

  /** Writing back the earlier lines and a continued last line. */
  lemma ConcatContinued(init: seq<string>, last: string, p: string)
    ensures Concat(init + [last + p + "\n"]) == (Concat(init) + last) + p + "\n"
  {
    var merged := last + p + "\n";
    var one: seq<string> := [merged];
    ConcatAppend(init, one);
    assert one[1..] == [];
    assert Concat(one) == merged;
    var c := Concat(init);
    assert (c + last) + p + "\n" == c + merged;
  }

  /** Text appended to a file whose last line has no line feed continues
      that line: the earlier lines stay, and the last one absorbs `p` and
      the line feed. */
  lemma AppendToUnterminated(s: string, p: string)
    requires s != [] && !Terminated(s)
    requires NoLineFeed(p)
    ensures var ls := ReadLines(s);
      ReadLines(s + p + "\n") == ls[..|ls| - 1] + [ls[|ls| - 1] + p + "\n"]
  {
    var ls := ReadLines(s);
    UnterminatedLastLine(s);
    var init, last := ls[..|ls| - 1], ls[|ls| - 1];
    var merged := last + p + "\n";
    ContinuedLine(last, p);
    ReadLinesWellFormed(s);
    InitLinesTerminated(ls, init);
    assert WellFormed([merged]);
    WellFormedAppend(init, [merged]);
    ConcatContinued(init, last, p);
    ReadConcat(init + [merged]);
  }
}
