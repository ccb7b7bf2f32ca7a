/** The pieces of ECMAScript string behaviour the application relies on:
    `String.prototype.trim`, `includes`, `toLowerCase` (on the ASCII letters
    that the application compares against), `s.split(sep).pop()` and
    `s.split(/\r?\n/)`. Strings are sequences of code points. */
module Text {
  import opened Wrappers

  /** A string that may be `null`: truthy when present and not empty. */
  predicate Truthy(s: Option<string>) {
    s.Some? && s.value != []
  }

  /** ECMAScript WhiteSpace and LineTerminator code points: exactly the
      characters that `String.prototype.trim` removes from both ends. */
  predicate IsWhitespace(c: char) {
    || c == '\t' || c == '\n' || c == '\U{B}' || c == '\U{C}' || c == '\r' || c == ' '
    || c == '\U{A0}' || c == '\U{1680}' || ('\U{2000}' <= c <= '\U{200A}')
    || c == '\U{2028}' || c == '\U{2029}' || c == '\U{202F}' || c == '\U{205F}'
    || c == '\U{3000}' || c == '\U{FEFF}'
  }

  /** ECMAScript LineTerminator: the characters a regular-expression `.` does not match. */
  predicate IsLineTerminator(c: char) {
    c == '\n' || c == '\r' || c == '\U{2028}' || c == '\U{2029}'
  }

  /** The regular-expression class `\w`. */
  predicate IsWordChar(c: char) {
    ('a' <= c <= 'z') || ('A' <= c <= 'Z') || ('0' <= c <= '9') || c == '_'
  }

  predicate AllWhitespace(s: string) {
    forall i :: 0 <= i < |s| ==> IsWhitespace(s[i])
  }

  predicate NoWhitespace(s: string) {
    forall i :: 0 <= i < |s| ==> !IsWhitespace(s[i])
  }

  /** Neither end of `s` is whitespace. */
  predicate IsTrimmed(s: string) {
    s == [] || (!IsWhitespace(s[0]) && !IsWhitespace(s[|s| - 1]))
  }

  /** `r` is the slice of `s` at offset `a`, and everything of `s` outside it is whitespace. */
  ghost predicate IsCoreOf(s: string, r: string, a: int) {
    && 0 <= a <= a + |r| <= |s|
    && r == s[a..a + |r|]
    && (forall i :: 0 <= i < a ==> IsWhitespace(s[i]))
    && (forall i :: a + |r| <= i < |s| ==> IsWhitespace(s[i]))
  }

  /** The first position at or after `i` that is not whitespace, or `|s|`. */
  function SkipWhitespace(s: string, i: nat): (k: nat)
    requires i <= |s|
    ensures i <= k <= |s|
    ensures forall j :: i <= j < k ==> IsWhitespace(s[j])
    ensures k < |s| ==> !IsWhitespace(s[k])
    decreases |s| - i
  {
    if i < |s| && IsWhitespace(s[i]) then SkipWhitespace(s, i + 1) else i
  }

  /** The position just after the last character before `e` that is not
      whitespace, or 0. */
  function SkipWhitespaceBack(s: string, e: nat): (k: nat)
    requires e <= |s|
    ensures k <= e
    ensures forall j :: k <= j < e ==> IsWhitespace(s[j])
    ensures k > 0 ==> !IsWhitespace(s[k - 1])
  {
    if e > 0 && IsWhitespace(s[e - 1]) then SkipWhitespaceBack(s, e - 1) else e
  }

  /** Where the result of `trim` starts in `s`. */
  function TrimOffset(s: string): nat {
    SkipWhitespace(s, 0)
  }

  /** `String.prototype.trim`: the result is `s` with its whitespace ends cut off. */
  function Trim(s: string): (r: string)
    ensures IsTrimmed(r)
    ensures IsCoreOf(s, r, TrimOffset(s))
  {
    var a := SkipWhitespace(s, 0);
    var e := SkipWhitespaceBack(s, |s|);
    if e <= a then [] else s[a..e]
  }

  /** Every non-whitespace character of `s` lies inside a core of `s`. */
  lemma NonWhitespaceInCore(s: string, r: string, a: int, i: int)
    requires IsCoreOf(s, r, a) && 0 <= i < |s| && !IsWhitespace(s[i])
    ensures a <= i < a + |r|
  {
  }

  /** A trimmed core of `s` is unique: whatever slice of `s` is trimmed and has
      only whitespace around it is what `trim` returns. */
  lemma TrimUnique(s: string, r: string, a: int)
    requires IsTrimmed(r) && IsCoreOf(s, r, a)
    ensures Trim(s) == r
  {
    var t := Trim(s);
    var b := TrimOffset(s);
    if r != [] {
      NonWhitespaceInCore(s, t, b, a);
      NonWhitespaceInCore(s, t, b, a + |r| - 1);
    }
    if t != [] {
      NonWhitespaceInCore(s, r, a, b);
      NonWhitespaceInCore(s, r, a, b + |t| - 1);
    }
  }

  /** Trimming a string with no whitespace ends changes nothing. */
  lemma TrimTrimmed(s: string)
    requires IsTrimmed(s)
    ensures Trim(s) == s
  {
    assert IsCoreOf(s, s, 0);
    TrimUnique(s, s, 0);
  }

  /** Trailing whitespace never reaches the result of `trim`. */
  lemma TrimAppendWhitespace(s: string, w: string)
    requires AllWhitespace(w)
    ensures Trim(s + w) == Trim(s)
  {
    var r := Trim(s);
    var a := TrimOffset(s);
    var sw := s + w;
    forall i | a + |r| <= i < |sw|
      ensures IsWhitespace(sw[i])
    {
      if i >= |s| { assert sw[i] == w[i - |s|]; }
    }
    assert sw[a..a + |r|] == s[a..a + |r|];
    assert IsCoreOf(sw, r, a);
    TrimUnique(sw, r, a);
  }

  /** `trim` yields the empty string exactly for all-whitespace input. */
  lemma TrimEmptyIff(s: string)
    ensures Trim(s) == [] <==> AllWhitespace(s)
  {
    if Trim(s) != [] {
      assert s[TrimOffset(s)] == Trim(s)[0];
    }
  }

  /** `s.includes(p)`. */
  predicate OccursAt(s: string, p: string, i: int) {
    0 <= i && i + |p| <= |s| && s[i..i + |p|] == p
  }

  predicate Contains(s: string, p: string) {
    exists i :: 0 <= i <= |s| - |p| && OccursAt(s, p, i)
  }

  /** A non-empty pattern without whitespace occurs in a string exactly when it
      occurs in its trimmed core: the cut-off ends hold only whitespace. */
  lemma ContainsInCore(s: string, r: string, a: int, p: string)
    requires IsCoreOf(s, r, a) && p != [] && NoWhitespace(p)
    ensures Contains(r, p) <==> Contains(s, p)
  {
    if Contains(r, p) {
      var i :| 0 <= i <= |r| - |p| && OccursAt(r, p, i);
      var x, y := s[a + i..a + i + |p|], r[i..i + |p|];
      forall j | 0 <= j < |p|
        ensures x[j] == y[j]
      {
        assert r[i + j] == s[a + i + j];
      }
      assert OccursAt(s, p, a + i);
    }
    if Contains(s, p) {
      var i :| 0 <= i <= |s| - |p| && OccursAt(s, p, i);
      assert s[i] == p[0] && s[i + |p| - 1] == p[|p| - 1];
      NonWhitespaceInCore(s, r, a, i);
      NonWhitespaceInCore(s, r, a, i + |p| - 1);
      var x, y := r[i - a..i - a + |p|], s[i..i + |p|];
      forall j | 0 <= j < |p|
        ensures x[j] == y[j]
      {
        assert r[i - a + j] == s[i + j];
      }
      assert OccursAt(r, p, i - a);
    }
  }

  /** ASCII case folding of one character. */
  function LowerChar(c: char): (d: char)
    ensures IsWhitespace(d) <==> IsWhitespace(c)
    ensures ('A' <= c <= 'Z') || d == c
    ensures ('A' <= c <= 'Z') ==> 'a' <= d <= 'z'
    ensures !('A' <= d <= 'Z')
  {
    if 'A' <= c <= 'Z' then (c as int + 32) as char else c
  }

  /** `toLowerCase` restricted to ASCII letters; the application only compares
      the result against ASCII text. */
  function ToLower(s: string): (r: string)
    ensures |r| == |s|
    ensures forall i :: 0 <= i < |s| ==> r[i] == LowerChar(s[i])
  {
    seq(|s|, i requires 0 <= i < |s| => LowerChar(s[i]))
  }

  /** Lowering case keeps whitespace where it is, so it commutes with `trim`. */
  lemma LowerCore(s: string, r: string, a: int)
    requires IsCoreOf(s, r, a)
    ensures IsCoreOf(ToLower(s), ToLower(r), a)
  {
    var ls := ToLower(s);
    assert ls[a..a + |r|] == ToLower(r);
    forall i | 0 <= i < a
      ensures IsWhitespace(ls[..a][i])
    {
      assert ls[..a][i] == LowerChar(s[..a][i]);
    }
    var e := a + |r|;
    forall i | 0 <= i < |s| - e
      ensures IsWhitespace(ls[e..][i])
    {
      assert ls[e..][i] == LowerChar(s[e..][i]);
    }
  }

  /** `t` is the last piece of `s.split(sep)` for the separators in `seps`:
      a suffix of `s` without separators, the whole of `s` or preceded by one. */
  predicate IsLastSegment(s: string, seps: set<char>, t: string) {
    && |t| <= |s| && t == s[|s| - |t|..]
    && (forall i :: 0 <= i < |t| ==> t[i] !in seps)
    && (|t| < |s| ==> s[|s| - |t| - 1] in seps)
  }

  /** `s.split(sep).pop()` for any separator in `seps`: the text after the
      last separator, or all of `s` when there is none. */
  function AfterLast(s: string, seps: set<char>): (r: string)
    ensures IsLastSegment(s, seps, r)
  {
    if s == [] || s[|s| - 1] in seps then [] else AfterLast(s[..|s| - 1], seps) + [s[|s| - 1]]
  }

  /** The last piece is determined by the rule above: no other suffix fits it. */
  lemma LastSegmentUnique(s: string, seps: set<char>, t: string)
    ensures AfterLast(s, seps) == t <==> IsLastSegment(s, seps, t)
  {
    var r := AfterLast(s, seps);
    if IsLastSegment(s, seps, t) {
      SegmentLengthsAgree(s, seps, t, r);
      SegmentLengthsAgree(s, seps, r, t);
    }
  }

  lemma SegmentLengthsAgree(s: string, seps: set<char>, t: string, r: string)
    requires IsLastSegment(s, seps, t) && IsLastSegment(s, seps, r)
    ensures |t| >= |r|
  {
  }

  /** Lowering case moves no separator that is not a letter, so the last
      piece of the lowered text is the lowered last piece. */
  lemma LowerLastSegment(s: string, seps: set<char>, t: string)
    requires forall c :: c in seps ==> !('A' <= c <= 'Z') && !('a' <= c <= 'z')
    requires IsLastSegment(s, seps, t)
    ensures IsLastSegment(ToLower(s), seps, ToLower(t))
  {
    var ls, lt := ToLower(s), ToLower(t);
    var k := |s| - |t|;
    var x := ls[k..];
    forall i | 0 <= i < |t|
      ensures lt[i] == x[i] && lt[i] !in seps
    {
      assert t[i] == s[k + i];
    }
    if |t| < |s| {
      assert ls[k - 1] == LowerChar(s[k - 1]);
    }
  }

  function IndexOf(s: string, c: char): (k: nat)
    requires c in s
    ensures k < |s| && s[k] == c && c !in s[..k]
  {
    if s[0] == c then 0 else 1 + IndexOf(s[1..], c)
  }

  function CountChar(s: string, c: char): nat {
    if s == [] then 0 else (if s[0] == c then 1 else 0) + CountChar(s[1..], c)
  }

  lemma {:induction false} CountCharAppend(a: string, b: string, c: char)
    ensures CountChar(a + b, c) == CountChar(a, c) + CountChar(b, c)
  {
    if a != [] {
      assert (a + b)[0] == a[0];
      assert (a + b)[1..] == a[1..] + b;
      CountCharAppend(a[1..], b, c);
    } else {
      assert a + b == b;
    }
  }

  lemma {:induction false} CountCharAbsent(s: string, c: char)
    requires c !in s
    ensures CountChar(s, c) == 0
  {
    if s != [] {
      assert c !in s[1..];
      CountCharAbsent(s[1..], c);
    }
  }

  /** `s.split(/\r?\n/)`: the pieces between line breaks, a break being LF or
      CR LF. The regular expression matches at the leftmost LF, together with
      the CR just before it if there is one. */
  function SplitLines(s: string): (lines: seq<string>)
    ensures |lines| >= 1
    ensures forall i :: 0 <= i < |lines| ==> '\n' !in lines[i]
    decreases |s|
  {
    if '\n' !in s then [s]
    else
      var k := IndexOf(s, '\n');
      var line := if k > 0 && s[k - 1] == '\r' then s[..k - 1] else s[..k];
      assert '\n' !in line by { assert line <= s[..k]; }
      [line] + SplitLines(s[k + 1..])
  }

  /** Splitting on line breaks gives one piece more than there are LFs. */
  lemma {:induction false} SplitLinesCount(s: string)
    ensures |SplitLines(s)| == 1 + CountChar(s, '\n')
    decreases |s|
  {
    if '\n' !in s {
      CountCharAbsent(s, '\n');
    } else {
      var k := IndexOf(s, '\n');
      assert s == s[..k] + ([s[k]] + s[k + 1..]);
      CountCharAppend(s[..k], [s[k]] + s[k + 1..], '\n');
      CountCharAppend([s[k]], s[k + 1..], '\n');
      CountCharAbsent(s[..k], '\n');
      SplitLinesCount(s[k + 1..]);
    }
  }

  /** The characters of `s` that are not whitespace, in order. */
  function Visible(s: string): (r: string)
    ensures |r| <= |s|
  {
    if s == [] then [] else (if IsWhitespace(s[0]) then [] else [s[0]]) + Visible(s[1..])
  }

  lemma {:induction false} VisibleAppend(a: string, b: string)
    ensures Visible(a + b) == Visible(a) + Visible(b)
  {
    if a == [] {
      assert a + b == b;
    } else {
      assert (a + b)[0] == a[0];
      assert (a + b)[1..] == a[1..] + b;
      VisibleAppend(a[1..], b);
    }
  }

  /** Nothing is visible in a string exactly when it is all whitespace. */
  lemma {:induction false} VisibleEmptyIff(s: string)
    ensures Visible(s) == [] <==> AllWhitespace(s)
  {
    if s != [] {
      VisibleEmptyIff(s[1..]);
      if AllWhitespace(s[1..]) && IsWhitespace(s[0]) {
        forall i | 0 <= i < |s|
          ensures IsWhitespace(s[i])
        {
          if i > 0 { assert s[i] == s[1..][i - 1]; }
        }
      }
      if AllWhitespace(s) {
        assert IsWhitespace(s[0]);
        forall i | 0 <= i < |s| - 1
          ensures IsWhitespace(s[1..][i])
        {
          assert s[1..][i] == s[i + 1];
        }
      }
    }
  }

  /** Cutting whitespace off the ends leaves the visible text as it is. */
  lemma VisibleCore(s: string, r: string, a: int)
    requires IsCoreOf(s, r, a)
    ensures Visible(r) == Visible(s)
  {
    var x, z := s[..a], s[a + |r|..];
    assert s == x + r + z;
    assert AllWhitespace(x) by {
      forall i | 0 <= i < |x| ensures IsWhitespace(x[i]) { assert x[i] == s[i]; }
    }
    var e := a + |r|;
    assert AllWhitespace(z) by {
      forall i | 0 <= i < |z| ensures IsWhitespace(z[i]) { assert z[i] == s[e + i]; }
    }
    VisibleAppend(x + r, z);
    VisibleAppend(x, r);
    VisibleEmptyIff(x);
    VisibleEmptyIff(z);
  }
}
