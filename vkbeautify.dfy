/** `vkbeautify.xml(text, indent)` of renderer/js/vkbeautify.js, modelled as
    the code is written.

    The line classifier (lines 13-17) has no braces, so its last `else`
    belongs to `if (pad != 0)`: the only assignment `indentLevel = 1` needs a
    line that starts with a closing tag `</x` and also with an opening tag
    `<x`, which no line does. The depth counter `pad` starts at 0, is only
    ever decremented when it is not 0, and is never incremented, so it stays
    0 and no padding is ever written. What the function really does is
    therefore: break the text between every `><`, write every line break as
    CR LF, and trim the ends (`Format` below). */
module VkBeautify {
  import opened Wrappers
  import opened Text

  const CRLF: string := "\r\n"

  /** A `>` at `i` is immediately followed by `<`. */
  predicate BoundaryAt(s: string, i: int)
    requires 0 <= i < |s| - 1
  {
    s[i] == '>' && s[i + 1] == '<'
  }

  predicate NoBoundary(s: string) {
    forall i :: 0 <= i < |s| - 1 ==> !BoundaryAt(s, i)
  }

  /** The LF at `i` is not the second half of a CR LF. */
  predicate BareLineFeedAt(s: string, i: int)
    requires 0 <= i < |s|
  {
    s[i] == '\n' && (i == 0 || s[i - 1] != '\r')
  }

  /** Every LF is the second half of a CR LF. */
  predicate BreaksNormalized(s: string) {
    forall i :: 0 <= i < |s| ==> !BareLineFeedAt(s, i)
  }

  lemma NoBoundaryCons(c: char, s: string)
    ensures NoBoundary([c] + s) <==> NoBoundary(s) && !(s != [] && c == '>' && s[0] == '<')
  {
    var cs := [c] + s;
    if NoBoundary(cs) {
      forall i | 0 <= i < |s| - 1
        ensures !BoundaryAt(s, i)
      {
        assert !BoundaryAt(cs, i + 1);
      }
      if s != [] { assert !BoundaryAt(cs, 0); }
    }
    if NoBoundary(s) && !(s != [] && c == '>' && s[0] == '<') {
      forall i | 0 <= i < |cs| - 1
        ensures !BoundaryAt(cs, i)
      {
        if i > 0 { assert !BoundaryAt(s, i - 1); }
      }
    }
  }

  // `text.replace(/(>)(<)(\/*)/g, "$1\r\n$2$3")`: a CR LF between every `>`
  // and the `<` right after it. The slashes the pattern also captures are
  // written back unchanged, and a match never overlaps the next `><`, so
  // every boundary receives its line break.
  function InsertBoundaries(s: string): (r: string)
    ensures s != [] ==> r != [] && r[0] == s[0]
  {
    if |s| < 2 then s
    else if s[0] == '>' && s[1] == '<' then ">" + CRLF + InsertBoundaries(s[1..])
    else [s[0]] + InsertBoundaries(s[1..])
  }

  /** No `><` survives boundary insertion. */
  lemma {:induction false} InsertBoundariesNoBoundary(s: string)
    ensures NoBoundary(InsertBoundaries(s))
  {
    if |s| < 2 {
      if |s| == 1 { NoBoundaryCons(s[0], []); assert s == [s[0]] + []; }
    } else {
      var rest := InsertBoundaries(s[1..]);
      InsertBoundariesNoBoundary(s[1..]);
      if s[0] == '>' && s[1] == '<' {
        NoBoundaryCons('\n', rest);
        NoBoundaryCons('\r', ['\n'] + rest);
        NoBoundaryCons('>', ['\r'] + (['\n'] + rest));
        assert ">" + CRLF + rest == ['>'] + (['\r'] + (['\n'] + rest));
      } else {
        NoBoundaryCons(s[0], rest);
      }
    }
  }

  /** One step of boundary insertion, seen from the first character. */
  lemma InsertBoundariesCons(c: char, s: string)
    ensures InsertBoundaries([c] + s)
         == (if s != [] && c == '>' && s[0] == '<' then ">" + CRLF else [c]) + InsertBoundaries(s)
  {
    if s != [] {
      assert ([c] + s)[1..] == s;
    } else {
      assert [c] + s == [c];
    }
  }

  /** The line break the replace puts where `x` ends and `y` begins: CR LF
      exactly when a `>` meets a `<` there. */
  function Seam(x: string, y: string): string {
    if x != [] && y != [] && x[|x| - 1] == '>' && y[0] == '<' then CRLF else []
  }

  /** Boundary insertion works piece by piece: on two pieces of text it is
      the insertion on each, with CR LF added only where a `>` ending the
      first meets a `<` starting the second. */
  lemma {:induction false} InsertBoundariesConcat(x: string, y: string)
    ensures InsertBoundaries(x + y) == InsertBoundaries(x) + Seam(x, y) + InsertBoundaries(y)
    decreases |x|
  {
    if x == [] {
      assert x + y == y;
    } else if |x| == 1 {
      SeamAfterOne(x[0], y);
    } else {
      var c := x[0];
      var t := x[1..];
      var rest := InsertBoundaries(t + y);
      assert x + y == [c] + (t + y);
      assert x == [c] + t;
      InsertBoundariesCons(c, t + y);
      InsertBoundariesCons(c, t);
      var head := if c == '>' && t[0] == '<' then ">" + CRLF else [c];
      assert InsertBoundaries(x + y) == head + rest;
      assert InsertBoundaries(x) == head + InsertBoundaries(t);
      InsertBoundariesConcat(t, y);
      assert Seam(x, y) == Seam(t, y);
      Regroup(head, InsertBoundaries(t), Seam(t, y), InsertBoundaries(y));
    }
  }

  /** Helper: regrouping a concatenation, a hint for the solver in
      `InsertBoundariesConcat`. */
  lemma Regroup(h: string, a: string, b: string, d: string)
    ensures h + (a + b + d) == h + a + b + d
  {
  }

  /** The case of a single character before `y`. */
  lemma SeamAfterOne(c: char, y: string)
    ensures InsertBoundaries([c] + y) == InsertBoundaries([c]) + Seam([c], y) + InsertBoundaries(y)
  {
    InsertBoundariesCons(c, y);
    assert InsertBoundaries([c]) == [c];
  }

  /** Text without a `><` is left as it is, and only such text is. */
  lemma {:induction false} InsertBoundariesIdentity(s: string)
    ensures InsertBoundaries(s) == s <==> NoBoundary(s)
  {
    if |s| >= 2 {
      assert s == [s[0]] + s[1..];
      NoBoundaryCons(s[0], s[1..]);
      InsertBoundariesIdentity(s[1..]);
      if InsertBoundaries(s) == s {
        InsertBoundariesNoBoundary(s);
      }
    }
  }

  lemma BreaksNormalizedCons(c: char, s: string)
    requires c != '\n' && BreaksNormalized(s)
    ensures BreaksNormalized([c] + s)
  {
    var cs := [c] + s;
    forall i | 0 <= i < |cs|
      ensures !BareLineFeedAt(cs, i)
    {
      if i > 0 { assert !BareLineFeedAt(s, i - 1); }
    }
  }

  lemma BreaksNormalizedCrLf(s: string)
    requires BreaksNormalized(s)
    ensures BreaksNormalized(CRLF + s)
  {
    var cs := CRLF + s;
    forall i | 0 <= i < |cs|
      ensures !BareLineFeedAt(cs, i)
    {
      if i > 1 { assert !BareLineFeedAt(s, i - 2); }
    }
  }

  /** A suffix of normalised text that does not start inside a CR LF is normalised. */
  lemma BreaksNormalizedSuffix(s: string, k: nat)
    requires BreaksNormalized(s) && k <= |s| && (k < |s| ==> s[k] != '\n')
    ensures BreaksNormalized(s[k..])
  {
    var t := s[k..];
    forall i | 0 <= i < |t|
      ensures !BareLineFeedAt(t, i)
    {
      assert !BareLineFeedAt(s, k + i);
    }
  }

  /** Every line break, LF or CR LF, written as CR LF (what splitting on
      `/\r?\n/` and writing each piece followed by CR LF produces); a CR that
      is not followed by LF stays inside its line. */
  function NormalizeBreaks(s: string): (r: string)
    ensures s != [] ==> r != [] && r[0] == (if s[0] == '\n' then '\r' else s[0])
  {
    if s == [] then []
    else if s[0] == '\r' && |s| > 1 && s[1] == '\n' then CRLF + NormalizeBreaks(s[2..])
    else if s[0] == '\n' then CRLF + NormalizeBreaks(s[1..])
    else [s[0]] + NormalizeBreaks(s[1..])
  }

  /** After normalisation every LF is part of a CR LF, and normalisation
      creates no `><`. */
  lemma {:induction false} NormalizeBreaksSound(s: string)
    ensures BreaksNormalized(NormalizeBreaks(s))
    ensures NoBoundary(s) ==> NoBoundary(NormalizeBreaks(s))
  {
    if s != [] {
      var k := if s[0] == '\r' && |s| > 1 && s[1] == '\n' then 2 else 1;
      var rest := NormalizeBreaks(s[k..]);
      NormalizeBreaksSound(s[k..]);
      if NoBoundary(s) {
        assert s == [s[0]] + s[1..];
        NoBoundaryCons(s[0], s[1..]);
        if k == 2 {
          assert s[1..] == [s[1]] + s[2..];
          NoBoundaryCons(s[1], s[2..]);
        }
      }
      if k == 2 || s[0] == '\n' {
        assert CRLF + rest == ['\r'] + (['\n'] + rest);
        BreaksNormalizedCrLf(rest);
        NoBoundaryCons('\n', rest);
        NoBoundaryCons('\r', ['\n'] + rest);
      } else {
        BreaksNormalizedCons(s[0], rest);
        NoBoundaryCons(s[0], rest);
      }
    }
  }

  /** Normalising changes exactly the text that has a bare LF. */
  lemma {:induction false} NormalizeBreaksIdentity(s: string)
    ensures NormalizeBreaks(s) == s <==> BreaksNormalized(s)
  {
    NormalizeBreaksSound(s);
    if BreaksNormalized(s) && s != [] {
      assert !BareLineFeedAt(s, 0);
      if s[0] == '\r' && |s| > 1 && s[1] == '\n' {
        if |s| > 2 { assert !BareLineFeedAt(s, 2); }
        BreaksNormalizedSuffix(s, 2);
        NormalizeBreaksIdentity(s[2..]);
        assert s == CRLF + s[2..];
      } else {
        if |s| > 1 { assert !BareLineFeedAt(s, 1); }
        BreaksNormalizedSuffix(s, 1);
        NormalizeBreaksIdentity(s[1..]);
        assert s == [s[0]] + s[1..];
      }
    }
  }

  /** A prefix without LF passes through normalisation unchanged, unless it
      ends in the CR of a CR LF. */
  lemma {:induction false} NormalizeBreaksPrefix(x: string, y: string)
    requires '\n' !in x
    requires x == [] || x[|x| - 1] != '\r' || y == [] || y[0] != '\n'
    ensures NormalizeBreaks(x + y) == x + NormalizeBreaks(y)
  {
    if x == [] {
      assert x + y == y;
    } else {
      assert (x + y)[1..] == x[1..] + y;
      assert '\n' !in x[1..];
      NormalizeBreaksPrefix(x[1..], y);
    }
  }

  /** The lines, each followed by CR LF. */
  function Terminated(lines: seq<string>): string {
    if lines == [] then [] else lines[0] + CRLF + Terminated(lines[1..])
  }

  lemma {:induction false} TerminatedSnoc(lines: seq<string>, line: string)
    ensures Terminated(lines + [line]) == Terminated(lines) + line + CRLF
  {
    if lines == [] {
      assert lines + [line] == [line];
    } else {
      assert (lines + [line])[1..] == lines[1..] + [line];
      TerminatedSnoc(lines[1..], line);
    }
  }

  lemma NormalizeLeadingBreak(y: string)
    ensures NormalizeBreaks(CRLF + y) == CRLF + NormalizeBreaks(y)
    ensures NormalizeBreaks("\n" + y) == CRLF + NormalizeBreaks(y)
  {
    assert (CRLF + y)[2..] == y;
    assert ("\n" + y)[1..] == y;
  }

  /** A line break, CR LF or LF, after text without LF is written as CR LF. */
  lemma NormalizeAroundBreak(x: string, brk: string, rest: string)
    requires '\n' !in x
    requires brk == CRLF || (brk == "\n" && (x == [] || x[|x| - 1] != '\r'))
    ensures NormalizeBreaks(x + brk + rest) == x + CRLF + NormalizeBreaks(rest)
  {
    var n := NormalizeBreaks(rest);
    var tail := brk + rest;
    assert NormalizeBreaks(tail) == CRLF + n by {
      NormalizeLeadingBreak(rest);
    }
    assert x + brk + rest == x + tail;
    NormalizeBreaksPrefix(x, tail);
    assert x + (CRLF + n) == x + CRLF + n;
  }

  /** Normalising reaches the first LF with the text before it unchanged,
      except for the CR of a CR LF. */
  lemma NormalizeAtFirstBreak(t: string, k: nat)
    requires '\n' in t && k == IndexOf(t, '\n')
    ensures NormalizeBreaks(t)
         == (if k > 0 && t[k - 1] == '\r' then t[..k - 1] else t[..k]) + CRLF + NormalizeBreaks(t[k + 1..])
  {
    var rest := t[k + 1..];
    if k > 0 && t[k - 1] == '\r' {
      var x := t[..k - 1];
      assert t == x + CRLF + rest;
      assert '\n' !in x by { assert x <= t[..k]; }
      NormalizeAroundBreak(x, CRLF, rest);
    } else {
      var x := t[..k];
      assert t == x + "\n" + rest;
      NormalizeAroundBreak(x, "\n", rest);
    }
  }

  /** Splitting on `/\r?\n/` and writing every piece followed by CR LF is
      normalising the line breaks and adding one final CR LF. */
  lemma {:induction false} SplitThenTerminate(t: string)
    ensures Terminated(SplitLines(t)) == NormalizeBreaks(t) + CRLF
    decreases |t|
  {
    if '\n' !in t {
      NormalizeBreaksPrefix(t, []);
      assert t + [] == t;
    } else {
      var k := IndexOf(t, '\n');
      NormalizeAtFirstBreak(t, k);
      SplitThenTerminate(t[k + 1..]);
    }
  }

  /** `pad` copies of the indent unit. */
  function Repeat(unit: string, n: nat): string {
    if n == 0 then [] else Repeat(unit, n - 1) + unit
  }

  // `/.+<\/\w[^>]*>$/`, the "leaf" line: a closing tag ends the line and at
  // least one character that is not a line terminator stands before it.
  predicate EndsWithClosingTag(node: string) {
    exists k :: 1 <= k <= |node| - 4 && ClosingTagFrom(node, k)
  }

  predicate ClosingTagFrom(node: string, k: int)
    requires 1 <= k <= |node| - 4
  {
    && !IsLineTerminator(node[k - 1])
    && node[k] == '<' && node[k + 1] == '/' && IsWordChar(node[k + 2])
    && (forall m :: k + 3 <= m < |node| - 1 ==> node[m] != '>')
    && node[|node| - 1] == '>'
  }

  /** `/^<\/\w/`: the line starts with a closing tag. */
  predicate StartsWithClosingTag(node: string) {
    |node| >= 3 && node[0] == '<' && node[1] == '/' && IsWordChar(node[2])
  }

  // `/^<\w[^>]*[^\/]>.*$/`: the line starts with an opening tag that is not
  // self-closing, and nothing after it is a line terminator.
  predicate OpensElement(node: string) {
    exists j :: 2 <= j <= |node| - 2 && OpeningTagEndsAt(node, j)
  }

  predicate OpeningTagEndsAt(node: string, j: int)
    requires 2 <= j <= |node| - 2
  {
    && node[0] == '<' && IsWordChar(node[1])
    && (forall m :: 2 <= m < j ==> node[m] != '>')
    && node[j] != '/' && node[j + 1] == '>'
    && (forall m :: j + 2 <= m < |node| ==> !IsLineTerminator(node[m]))
  }

  /** The branch that would indent (renderer/js/vkbeautify.js:16) is reached
      only by a line that starts both with `</x` and with `<x`: there is none. */
  lemma IndentBranchUnreachable(node: string)
    ensures !(StartsWithClosingTag(node) && OpensElement(node))
  {
  }

  /** The padding loop of renderer/js/vkbeautify.js:18-19. */
  method Padding(unit: string, pad: nat) returns (padding: string)
    ensures padding == Repeat(unit, pad)
    ensures |padding| == pad * |unit|
  {
    padding := "";
    var i := 0;
    while i < pad
      invariant 0 <= i <= pad
      invariant padding == Repeat(unit, i)
      invariant |padding| == i * |unit|
    {
      padding := padding + unit;
      i := i + 1;
    }
  }

  lemma NoBoundarySlice(s: string, a: int, b: int)
    requires 0 <= a <= b <= |s| && NoBoundary(s)
    ensures NoBoundary(s[a..b])
  {
    var t := s[a..b];
    forall i | 0 <= i < |t| - 1
      ensures !BoundaryAt(t, i)
    {
      assert !BoundaryAt(s, a + i);
    }
  }

  lemma BreaksNormalizedSlice(s: string, a: int, b: int)
    requires 0 <= a <= b <= |s| && BreaksNormalized(s)
    requires a < b ==> s[a] != '\n'
    ensures BreaksNormalized(s[a..b])
  {
    var t := s[a..b];
    forall i | 0 <= i < |t|
      ensures !BareLineFeedAt(t, i)
    {
      assert !BareLineFeedAt(s, a + i);
    }
  }

  /** Trimming keeps text free of `><` and of bare LFs. */
  lemma TrimKeepsShape(n: string)
    requires NoBoundary(n) && BreaksNormalized(n)
    ensures NoBoundary(Trim(n)) && BreaksNormalized(Trim(n))
  {
    var r := Trim(n);
    var a := TrimOffset(n);
    NoBoundarySlice(n, a, a + |r|);
    if r != [] {
      assert n[a] == r[0];
    }
    BreaksNormalizedSlice(n, a, a + |r|);
  }

  /** Boundary insertion adds only whitespace. */
  lemma {:induction false} VisibleInsertBoundaries(s: string)
    ensures Visible(InsertBoundaries(s)) == Visible(s)
  {
    if |s| >= 2 {
      var rest := InsertBoundaries(s[1..]);
      VisibleInsertBoundaries(s[1..]);
      assert s == [s[0]] + s[1..];
      VisibleAppend([s[0]], s[1..]);
      if s[0] == '>' && s[1] == '<' {
        VisibleAppend(">" + CRLF, rest);
        assert Visible(">" + CRLF) == ">" by {
          VisibleAppend(">", CRLF);
          VisibleAppend("\r", "\n");
        }
      } else {
        VisibleAppend([s[0]], rest);
      }
    }
  }

  /** Normalising line breaks adds only whitespace. */
  lemma {:induction false} VisibleNormalizeBreaks(s: string)
    ensures Visible(NormalizeBreaks(s)) == Visible(s)
  {
    if s != [] {
      var k := if s[0] == '\r' && |s| > 1 && s[1] == '\n' then 2 else 1;
      var rest := NormalizeBreaks(s[k..]);
      VisibleNormalizeBreaks(s[k..]);
      assert s == s[..k] + s[k..];
      VisibleAppend(s[..k], s[k..]);
      if k == 2 || s[0] == '\n' {
        VisibleAppend(CRLF, rest);
        VisibleAppend("\r", "\n");
        if k == 2 {
          assert s[..k] == CRLF;
        } else {
          assert s[..k] == "\n";
        }
      } else {
        assert s[..k] == [s[0]];
        VisibleAppend([s[0]], rest);
      }
    }
  }

  /** What `vkbeautify.xml` computes, whatever the indent: boundaries broken,
      line breaks written as CR LF, ends trimmed. */
  function Format(text: string): string {
    Trim(NormalizeBreaks(InsertBoundaries(text)))
  }

  /** Formatting changes whitespace only: the visible characters of the
      result are those of the input, in the same order. */
  lemma FormatVisible(text: string)
    ensures Visible(Format(text)) == Visible(text)
  {
    var t := InsertBoundaries(text);
    var n := NormalizeBreaks(t);
    VisibleInsertBoundaries(text);
    VisibleNormalizeBreaks(t);
    VisibleCore(n, Trim(n), TrimOffset(n));
  }

  /** The result is empty exactly when the input is all whitespace. */
  lemma FormatEmptyIff(text: string)
    ensures Format(text) == [] <==> AllWhitespace(text)
  {
    FormatVisible(text);
    VisibleEmptyIff(text);
    VisibleEmptyIff(Format(text));
  }

  /** The result has a line break at every former `><`, only CR LF line
      breaks, and no whitespace at either end. */
  lemma FormatShape(text: string)
    ensures NoBoundary(Format(text))
    ensures BreaksNormalized(Format(text))
    ensures IsTrimmed(Format(text))
  {
    var t := InsertBoundaries(text);
    InsertBoundariesNoBoundary(text);
    NormalizeBreaksSound(t);
    TrimKeepsShape(NormalizeBreaks(t));
  }

  /** Beautifying beautified text changes nothing. */
  lemma FormatIdempotent(text: string)
    ensures Format(Format(text)) == Format(text)
  {
    var f := Format(text);
    FormatShape(text);
    InsertBoundariesIdentity(f);
    NormalizeBreaksIdentity(f);
    TrimTrimmed(f);
  }

  /** `vkbeautify.xml(text, indent)`; `indent` is `None` for `undefined`. */
  method Xml(text: string, indent: Option<string>) returns (r: string)
    ensures r == Format(text)
  {
    var unit := if indent.Some? && indent.value != [] then indent.value else "  ";
    var t := InsertBoundaries(text);
    var pad: int := 0;
    var formatted := "";
    var nodes := SplitLines(t);
    var i := 0;
    while i < |nodes|
      invariant 0 <= i <= |nodes|
      invariant pad == 0
      invariant formatted == Terminated(nodes[..i])
    {
      var node := nodes[i];
      IndentBranchUnreachable(node);
      var indentLevel := 0;
      if EndsWithClosingTag(node) {
        indentLevel := 0;
      } else if StartsWithClosingTag(node) {
        if pad != 0 {
          pad := pad - 1;
        } else if OpensElement(node) {
          indentLevel := 1;
        } else {
          indentLevel := 0;
        }
      }
      var padding := Padding(unit, pad);
      TerminatedSnoc(nodes[..i], node);
      assert nodes[..i + 1] == nodes[..i] + [node];
      formatted := formatted + padding + node + CRLF;
      pad := pad + indentLevel;
      i := i + 1;
    }
    assert nodes[..i] == nodes;
    TrimTerminated(t);
    r := Trim(formatted);
  }

  /** Trimming the terminated lines is trimming the rejoined text: the last
      CR LF is whitespace and never reaches the result. */
  lemma TrimTerminated(t: string)
    ensures Trim(Terminated(SplitLines(t))) == Trim(NormalizeBreaks(t))
  {
    SplitThenTerminate(t);
    assert IsWhitespace(CRLF[0]) && IsWhitespace(CRLF[1]);
    TrimAppendWhitespace(NormalizeBreaks(t), CRLF);
  }
}
