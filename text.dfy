/** The string operations the ranking relies on: Python's `str.strip()`,
    Python's code-point order on strings, ASCII lower-casing and literal
    substring search. */
module Text {

  /** The ASCII characters for which Python's `str.isspace()` holds:
      TAB, LF, VT, FF, CR, the four information separators and SPACE. */
  predicate IsSpace(c: char) {
    c == ' ' || ('\t' <= c <= '\r') || ('\U{1C}' <= c <= '\U{1F}')
  }

  predicate AllSpace(s: string) {
    forall i :: 0 <= i < |s| ==> IsSpace(s[i])
  }

  /** The first index at or after `i` that does not hold whitespace, or
      `|s|` when there is none: the forward scan of `strip()`. */
  function SkipForward(s: string, i: nat): (j: nat)
    requires i <= |s|
    ensures i <= j <= |s|
    ensures forall k :: i <= k < j ==> IsSpace(s[k])
    ensures j == |s| || !IsSpace(s[j])
    decreases |s| - i
  {
    if i < |s| && IsSpace(s[i]) then SkipForward(s, i + 1) else i
  }

  /** The backward scan of `strip()`: from `j` down, never below `lo`, the
      start of the whitespace run that ends at `j`. */
  function SkipBackward(s: string, lo: nat, j: nat): (i: nat)
    requires lo <= j <= |s|
    ensures lo <= i <= j
    ensures forall k :: i <= k < j ==> IsSpace(s[k])
    ensures i == lo || !IsSpace(s[i - 1])
  {
    if j > lo && IsSpace(s[j - 1]) then SkipBackward(s, lo, j - 1) else j
  }

  /** `r` is `s` with the whitespace-only prefix `s[..i]` and the
      whitespace-only suffix after `r` removed. */
  predicate InfixAt(s: string, i: int, r: string) {
    0 <= i <= |s| - |r| && r == s[i..i + |r|] && AllSpace(s[..i]) && AllSpace(s[i + |r|..])
  }

  /** Text that neither starts nor ends with whitespace. */
  predicate Unpadded(r: string) {
    r == [] || (!IsSpace(r[0]) && !IsSpace(r[|r| - 1]))
  }

  /** Python's `s.strip()` with no argument: the leading whitespace is
      skipped, then the trailing whitespace of what is left. */
  function Strip(s: string): (r: string)
    ensures Unpadded(r)
  {
    var b := SkipForward(s, 0);
    var e := SkipBackward(s, b, |s|);
    s[b..e]
  }

  /** What `strip()` keeps is the infix of `s` with only whitespace around
      it. */
  lemma StripShape(s: string)
    ensures exists i :: InfixAt(s, i, Strip(s))
  {
    var b := SkipForward(s, 0);
    var e := SkipBackward(s, b, |s|);
    var r := s[b..e];
    assert r == Strip(s);
    assert AllSpace(s[..b]) by {
      forall k | 0 <= k < b ensures IsSpace(s[..b][k]) { assert s[..b][k] == s[k]; }
    }
    assert AllSpace(s[e..]) by {
      forall k | 0 <= k < |s| - e ensures IsSpace(s[e..][k]) { assert s[e..][k] == s[e + k]; }
    }
    assert b + |r| == e;
    assert InfixAt(s, b, r);
  }

  /** The forward scan stops at the first character that is not whitespace. */
  lemma SkipForwardAt(s: string, n: nat)
    requires n <= |s|
    requires forall k :: 0 <= k < n ==> IsSpace(s[k])
    requires n == |s| || !IsSpace(s[n])
    ensures SkipForward(s, 0) == n
  {
  }

  /** The backward scan stops just after the last character that is not
      whitespace. */
  lemma SkipBackwardAt(s: string, lo: nat, n: nat)
    requires lo <= n <= |s|
    requires forall k :: n <= k < |s| ==> IsSpace(s[k])
    requires n == lo || !IsSpace(s[n - 1])
    ensures SkipBackward(s, lo, |s|) == n
  {
  }

  /** `strip()` undoes any whitespace padding of text that has none at its
      ends: it is the unique unpadded infix with only whitespace around it. */
  lemma StripOf(w1: string, r: string, w2: string)
    requires AllSpace(w1) && AllSpace(w2) && Unpadded(r)
    ensures Strip(w1 + r + w2) == r
  {
    var s := w1 + r + w2;
    if r == [] {
      assert forall k :: 0 <= k < |s| ==> IsSpace(s[k]) by {
        forall k | 0 <= k < |s| ensures IsSpace(s[k]) {
          if k < |w1| { assert s[k] == w1[k]; } else { assert s[k] == w2[k - |w1|]; }
        }
      }
      SkipForwardAt(s, |s|);
      assert Strip(s) == s[|s|..|s|];
    } else {
      var n := |w1| + |r|;
      assert s[|w1|] == r[0] && s[n - 1] == r[|r| - 1];
      assert forall k :: 0 <= k < |w1| ==> s[k] == w1[k];
      assert forall k :: n <= k < |s| ==> s[k] == w2[k - n];
      SkipForwardAt(s, |w1|);
      SkipBackwardAt(s, |w1|, n);
      assert s[|w1|..n] == r;
    }
  }

  lemma AllSpaceConcat(a: string, b: string)
    requires AllSpace(a) && AllSpace(b)
    ensures AllSpace(a + b)
  {
    forall k | 0 <= k < |a + b| ensures IsSpace((a + b)[k]) {
      if k < |a| { assert (a + b)[k] == a[k]; } else { assert (a + b)[k] == b[k - |a|]; }
    }
  }

  /** Whitespace added around a cell's text does not change what
      `strip()` makes of it. */
  lemma StripPadded(w1: string, s: string, w2: string)
    requires AllSpace(w1) && AllSpace(w2)
    ensures Strip(w1 + s + w2) == Strip(s)
  {
    var r := Strip(s);
    StripShape(s);
    var i :| InfixAt(s, i, r);
    var a, b := s[..i], s[i + |r|..];
    assert s == a + r + b;
    AllSpaceConcat(w1, a);
    AllSpaceConcat(b, w2);
    StripOf(w1 + a, r, b + w2);
    Regroup(w1, a, r, b, w2);
  }

  lemma Regroup(w1: string, a: string, r: string, b: string, w2: string)
    ensures w1 + (a + r + b) + w2 == (w1 + a) + r + (b + w2)
  {
  }

  /** Text with no whitespace at either end is left as it is. */
  lemma StripUnpadded(s: string)
    requires Unpadded(s)
    ensures Strip(s) == s
  {
    StripOf([], s, []);
    assert [] + s + [] == s;
  }

  /** Python's `a <= b` on `str`: lexicographic by code point, a proper
      prefix comes first. */
  predicate LexLe(a: string, b: string) {
    a == [] || (b != [] && (a[0] < b[0] || (a[0] == b[0] && LexLe(a[1..], b[1..]))))
  }

  /** Python's `a < b` on `str`. */
  predicate LexLt(a: string, b: string) {
    LexLe(a, b) && a != b
  }

  lemma {:induction false} LexLeTotal(a: string, b: string)
    ensures LexLe(a, b) || LexLe(b, a)
  {
    if a != [] && b != [] && a[0] == b[0] {
      LexLeTotal(a[1..], b[1..]);
    }
  }

  lemma {:induction false} LexLeAntisymmetric(a: string, b: string)
    requires LexLe(a, b) && LexLe(b, a)
    ensures a == b
  {
    if a != [] && b != [] {
      LexLeAntisymmetric(a[1..], b[1..]);
      assert a == [a[0]] + a[1..];
      assert b == [b[0]] + b[1..];
    }
  }

  lemma {:induction false} LexLeTransitive(a: string, b: string, c: string)
    requires LexLe(a, b) && LexLe(b, c)
    ensures LexLe(a, c)
  {
    if a != [] && a[0] == b[0] && b[0] == c[0] {
      LexLeTransitive(a[1..], b[1..], c[1..]);
    }
  }

  /** The two orders agree: exactly one of `a < b`, `a == b`, `b < a`. */
  lemma LexTrichotomy(a: string, b: string)
    ensures LexLt(a, b) || a == b || LexLt(b, a)
    ensures !(LexLt(a, b) && LexLt(b, a))
  {
    LexLeTotal(a, b);
    if LexLe(a, b) && LexLe(b, a) {
      LexLeAntisymmetric(a, b);
    }
  }

  /** ASCII case folding; every other character is left alone. */
  function LowerChar(c: char): (d: char)
    ensures 'A' <= c <= 'Z' ==> 'a' <= d <= 'z' && d as int - c as int == 32
    ensures !('A' <= c <= 'Z') ==> d == c
  {
    if 'A' <= c <= 'Z' then (c as int + 32) as char else c
  }

  function Lower(s: string): (r: string)
    ensures |r| == |s|
    ensures forall i :: 0 <= i < |s| ==> r[i] == LowerChar(s[i])
  {
    seq(|s|, i requires 0 <= i < |s| => LowerChar(s[i]))
  }

  predicate IsPrefix(p: string, s: string) {
    |p| <= |s| && s[..|p|] == p
  }

  /** Whether `needle` occurs in `hay` as a contiguous block. */
  predicate Contains(hay: string, needle: string)
    decreases |hay|
  {
    IsPrefix(needle, hay) || (hay != [] && Contains(hay[1..], needle))
  }

  predicate OccursAt(hay: string, needle: string, i: int) {
    0 <= i <= |hay| - |needle| && hay[i..i + |needle|] == needle
  }

  /** `Contains` is the usual "occurs at some offset". */
  lemma {:induction false} ContainsAt(hay: string, needle: string)
    ensures Contains(hay, needle) <==> exists i :: OccursAt(hay, needle, i)
  {
    if IsPrefix(needle, hay) {
      assert OccursAt(hay, needle, 0);
    } else if hay == [] {
      assert forall i :: !OccursAt(hay, needle, i);
    } else {
      ContainsAt(hay[1..], needle);
      if Contains(hay[1..], needle) {
        var i :| OccursAt(hay[1..], needle, i);
        assert hay[i + 1..i + 1 + |needle|] == hay[1..][i..i + |needle|];
        assert OccursAt(hay, needle, i + 1);
      }
      if exists i :: OccursAt(hay, needle, i) {
        var i :| OccursAt(hay, needle, i);
        assert i != 0;
        assert hay[1..][i - 1..i - 1 + |needle|] == hay[i..i + |needle|];
        assert OccursAt(hay[1..], needle, i - 1);
      }
    }
  }
}
