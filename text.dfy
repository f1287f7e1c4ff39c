/** Character-level helpers standing in for Python's `str.strip`, `str.lower`
    and `str.endswith`, restricted to ASCII. */
module Text {

  /** The ASCII characters Python's `str.isspace` accepts: space, tab, line
      feed, carriage return, vertical tab, form feed and the four separators
      0x1C-0x1F. */
  predicate IsSpace(c: char) {
    c == ' ' || c == '\t' || c == '\n' || c == '\r' || c == '\U{B}' || c == '\U{C}'
    || ('\U{1C}' <= c <= '\U{1F}')
  }

  predicate AllSpace(s: string) {
    forall k :: 0 <= k < |s| ==> IsSpace(s[k])
  }

  /** `s.lstrip()`: `s` without its leading whitespace (`StripLeftCuts`
      shows that only leading whitespace goes). */
  function StripLeft(s: string): (r: string)
    ensures |r| <= |s|
    ensures r != [] ==> !IsSpace(r[0])
  {
    if |s| > 0 && IsSpace(s[0]) then StripLeft(s[1..]) else s
  }

  lemma {:induction false} StripLeftCuts(s: string)
    ensures StripLeft(s) == s[|s| - |StripLeft(s)|..]
    ensures AllSpace(s[..|s| - |StripLeft(s)|])
  {
    if |s| > 0 && IsSpace(s[0]) {
      StripLeftCuts(s[1..]);
      var r := StripLeft(s);
      assert s[1..][|s| - 1 - |r|..] == s[|s| - |r|..];
      assert s[..|s| - |r|] == [s[0]] + s[1..][..|s| - 1 - |r|];
    }
  }

  /** `s.rstrip()`: `s` without its trailing whitespace (`StripRightCuts`
      shows that only trailing whitespace goes). */
  function StripRight(s: string): (r: string)
    ensures |r| <= |s|
    ensures r != [] ==> !IsSpace(r[|r| - 1])
  {
    if |s| > 0 && IsSpace(s[|s| - 1]) then StripRight(s[..|s| - 1]) else s
  }

  lemma {:induction false} StripRightCuts(s: string)
    ensures StripRight(s) == s[..|StripRight(s)|]
    ensures AllSpace(s[|StripRight(s)|..])
  {
    if |s| > 0 && IsSpace(s[|s| - 1]) {
      StripRightCuts(s[..|s| - 1]);
      var r := StripRight(s);
      assert s[..|s| - 1][..|r|] == s[..|r|];
      assert s[|r|..] == s[..|s| - 1][|r|..] + [s[|s| - 1]];
    }
  }

  /** `s.strip()`: `s` without leading and trailing whitespace. What remains
      neither starts nor ends with whitespace; `StripEmpty` shows it is empty
      exactly when `s` is all whitespace, and `StripIsSlice` that it is a
      slice of `s` with only whitespace cut off. */
  function Strip(s: string): (r: string)
    ensures |r| <= |s|
    ensures r != [] ==> !IsSpace(r[0]) && !IsSpace(r[|r| - 1])
  {
    var l := StripLeft(s);
    StripRightCuts(l);
    StripRight(l)
  }

  /** `Strip` cuts only whitespace, and only from the two ends. */
  lemma StripIsSlice(s: string)
    ensures exists i, j :: 0 <= i <= j <= |s| && Strip(s) == s[i..j] && AllSpace(s[..i]) && AllSpace(s[j..])
  {
    var l := StripLeft(s);
    var r := StripRight(l);
    StripLeftCuts(s);
    StripRightCuts(l);
    var i := |s| - |l|;
    var j := i + |r|;
    assert r == s[i..j];
    assert s[j..] == l[|r|..];
  }

  /** Only an all-whitespace string strips to nothing. */
  lemma StripEmpty(s: string)
    ensures Strip(s) == [] <==> AllSpace(s)
  {
    var l := StripLeft(s);
    StripLeftCuts(s);
    StripRightCuts(l);
    assert s == s[..|s| - |l|] + l;
  }

  /** A string that `Strip` leaves alone: empty, or neither end is whitespace. */
  predicate IsStripped(s: string) {
    s == [] || (!IsSpace(s[0]) && !IsSpace(s[|s| - 1]))
  }

  lemma StripLeftOfStripped(s: string)
    requires IsStripped(s)
    ensures StripLeft(s) == s
  {
  }

  lemma StripRightOfStripped(s: string)
    requires IsStripped(s)
    ensures StripRight(s) == s
  {
  }

  /** Stripping is idempotent: a stripped string strips to itself. */
  lemma StripIdempotent(s: string)
    ensures IsStripped(Strip(s))
    ensures Strip(Strip(s)) == Strip(s)
  {
    var t := Strip(s);
    StripLeftOfStripped(t);
    StripRightOfStripped(t);
  }

  /** Appending trailing whitespace (such as the line feed that terminates a
      line of a text file) does not change what a string strips to. */
  lemma {:induction false} StripRightTrailingSpace(s: string, w: string)
    requires AllSpace(w)
    ensures StripRight(s + w) == StripRight(s)
    decreases |w|
  {
    if w != [] {
      var w' := w[..|w| - 1];
      assert IsSpace((s + w)[|s + w| - 1]) by { assert (s + w)[|s + w| - 1] == w[|w| - 1]; }
      assert (s + w)[..|s + w| - 1] == s + w';
      assert AllSpace(w') by { assert forall k :: 0 <= k < |w'| ==> w'[k] == w[k]; }
      StripRightTrailingSpace(s, w');
    } else {
      assert s + w == s;
    }
  }

  lemma {:induction false} StripLeftAppend(s: string, w: string)
    requires !AllSpace(s)
    ensures StripLeft(s + w) == StripLeft(s) + w
    decreases |s|
  {
    assert s != [];
    if IsSpace(s[0]) {
      assert (s + w)[1..] == s[1..] + w;
      assert !AllSpace(s[1..]) by {
        var k :| 0 <= k < |s| && !IsSpace(s[k]);
        assert s[1..][k - 1] == s[k];
      }
      StripLeftAppend(s[1..], w);
    }
  }

  lemma StripTrailingSpace(s: string, w: string)
    requires AllSpace(w)
    ensures Strip(s + w) == Strip(s)
  {
    StripEmpty(s);
    StripEmpty(s + w);
    if AllSpace(s) {
      assert AllSpace(s + w);
    } else {
      StripLeftAppend(s, w);
      StripRightTrailingSpace(StripLeft(s), w);
    }
  }

  /** ASCII lower-casing of one character (Python's `str.lower` on ASCII). */
  function LowerChar(c: char): (r: char)
    ensures 'A' <= c <= 'Z' ==> 'a' <= r <= 'z' && r as int - c as int == 'a' as int - 'A' as int
    ensures !('A' <= c <= 'Z') ==> r == c
  {
    if 'A' <= c <= 'Z' then (c as int - 'A' as int + 'a' as int) as char else c
  }

  /** `s.lower()` on ASCII text: same length, each character lower-cased,
      and no upper-case letter is left. */
  function Lower(s: string): (r: string)
    ensures |r| == |s|
    ensures forall k :: 0 <= k < |s| ==> r[k] == LowerChar(s[k])
    ensures forall k :: 0 <= k < |r| ==> !('A' <= r[k] <= 'Z')
  {
    seq(|s|, k requires 0 <= k < |s| => LowerChar(s[k]))
  }

  /** `s.endswith(suffix)`. */
  predicate EndsWith(s: string, suffix: string) {
    |suffix| <= |s| && s[|s| - |suffix|..] == suffix
  }
}
