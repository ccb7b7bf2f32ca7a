/** The `validate-xml` handler of main.js (lines 314-357): how the answer of
    the XML validator becomes the `{success, valid, error, line, col}` record
    sent back to the window. The validator itself is not part of this model;
    its answer is an input. */
module Validation {
  import opened Wrappers
  import opened Text

  /** The JavaScript values the handler reads from the validator's error
      object. Numbers are whole numbers here. */
  datatype JsValue = Undefined | Null | Num(n: int) | Str(s: string)

  /** Falsy values, as `x || 1` sees them. */
  predicate Falsy(v: JsValue) {
    v.Undefined? || v.Null? || v == Num(0) || v == Str("")
  }

  function DigitChar(d: nat): (c: char)
    requires d < 10
    ensures '0' <= c <= '9'
  {
    ('0' as int + d) as char
  }

  /** The decimal digits of `n`, as `String(n)` writes them. */
  function Digits(n: nat): (s: string)
    ensures s != []
    ensures forall i :: 0 <= i < |s| ==> '0' <= s[i] <= '9'
    ensures |s| > 1 ==> s[0] != '0'
  {
    if n < 10 then [DigitChar(n)] else Digits(n / 10) + [DigitChar(n % 10)]
  }

  /** The value of a string of decimal digits. */
  function DigitsValue(s: string): nat
    requires forall i :: 0 <= i < |s| ==> '0' <= s[i] <= '9'
  {
    if s == [] then 0 else 10 * DigitsValue(s[..|s| - 1]) + (s[|s| - 1] as int - '0' as int)
  }

  /** Writing a number in decimal loses nothing. */
  lemma {:induction false} DigitsRoundTrip(n: nat)
    ensures DigitsValue(Digits(n)) == n
  {
    if n >= 10 {
      var s := Digits(n);
      assert s[..|s| - 1] == Digits(n / 10);
      DigitsRoundTrip(n / 10);
    }
  }

  /** `String(v)`, as a template literal writes it. */
  function Render(v: JsValue): string {
    match v
    case Undefined => "undefined"
    case Null => "null"
    case Num(n) => if n < 0 then "-" + Digits(-n) else Digits(n)
    case Str(s) => s
  }

  /** `linePos` of the error object. */
  datatype LinePos = LinePos(line: JsValue, col: JsValue)

  /** The `err` object of a failed validation. */
  datatype ErrorDetail = ErrorDetail(msg: JsValue, line: JsValue, col: JsValue, linePos: Option<LinePos>)

  /** What calling the validator gives: `true`, an object whose `err` may be
      missing, or an exception (also one from loading the validator). */
  datatype ValidatorResult = Valid | Invalid(err: Option<ErrorDetail>) | Threw(message: string)

  /** The record the handler returns; absent fields are `None`. */
  datatype Reply = Reply(success: bool, valid: bool, error: Option<string>, line: Option<JsValue>, col: Option<JsValue>)

  /** The message of the `TypeError` thrown by reading `msg` of `undefined`. */
  const MissingErrorMessage: string := "Cannot read properties of undefined (reading 'msg')"

  /** `s.slice(0, n)`: a negative end counts from the end of `s`. */
  function SlicePrefix(s: string, n: int): (r: string)
    ensures r <= s
    ensures n >= 0 ==> |r| == if n < |s| then n else |s|
    ensures n < 0 ==> |r| == if |s| + n > 0 then |s| + n else 0
  {
    var k := if n < 0 then (if |s| + n > 0 then |s| + n else 0) else (if n < |s| then n else |s|);
    s[..k]
  }

  /** The line and column of main.js:324-345. */
  function Position(err: Option<ErrorDetail>, content: string): (JsValue, JsValue) {
    if err.None? then (Num(1), Num(1))
    else
      var e := err.value;
      if e.line.Num? && e.col.Num? then (e.line, e.col)
      else if e.linePos.Some? && e.linePos.value.line.Num? then
        (e.linePos.value.line, if Falsy(e.linePos.value.col) then Num(1) else e.linePos.value.col)
      else if e.col.Num? then (Num(|SplitLines(SlicePrefix(content, e.col.n))|), e.col)
      else (Num(1), Num(1))
  }

  /** The handler's answer for `content` when the validator gave `result`. */
  function MapValidation(content: string, result: ValidatorResult): (r: Reply)
    ensures r.success == r.valid
    ensures r.success <==> result.Valid?
    ensures r.error.None? <==> result.Valid?
    ensures r.line.Some? <==> result.Invalid? && result.err.Some?
    ensures r.col.Some? <==> r.line.Some?
    ensures result.Threw? ==> r.error == Some(result.message)
    ensures result.Invalid? && result.err.None? ==> r.error == Some(MissingErrorMessage)
    ensures r.line.Some? ==> (r.line.value, r.col.value) == Position(result.err, content)
    ensures result.Invalid? && result.err.Some? ==>
      r.error == Some(Render(result.err.value.msg) + " (line " + Render(r.line.value) + ", col " + Render(r.col.value) + ")")
  {
    match result
    case Valid => Reply(true, true, None, None, None)
    case Threw(message) => Reply(false, false, Some(message), None, None)
    case Invalid(err) =>
      var (line, col) := Position(err, content);
      if err.None? then Reply(false, false, Some(MissingErrorMessage), None, None)
      else Reply(false, false, Some(Render(err.value.msg) + " (line " + Render(line) + ", col " + Render(col) + ")"),
                 Some(line), Some(col))
  }

  /** The four ways the position of a reported error is found. */
  lemma PositionCases(e: ErrorDetail, content: string)
    ensures e.line.Num? && e.col.Num? ==> Position(Some(e), content) == (e.line, e.col)
    ensures !(e.line.Num? && e.col.Num?) && e.linePos.Some? && e.linePos.value.line.Num? ==>
      && Position(Some(e), content).0 == e.linePos.value.line
      && Position(Some(e), content).1 == (if Falsy(e.linePos.value.col) then Num(1) else e.linePos.value.col)
    ensures !(e.line.Num? && e.col.Num?) && !(e.linePos.Some? && e.linePos.value.line.Num?) && e.col.Num? ==>
      && Position(Some(e), content).0 == Num(1 + CountChar(SlicePrefix(content, e.col.n), '\n'))
      && Position(Some(e), content).1 == e.col
    ensures !(e.line.Num? && e.col.Num?) && !(e.linePos.Some? && e.linePos.value.line.Num?) && !e.col.Num? ==>
      Position(Some(e), content) == (Num(1), Num(1))
  {
    if e.col.Num? {
      SplitLinesCount(SlicePrefix(content, e.col.n));
    }
  }

  /** A line computed from a column lies within the content's lines. */
  lemma {:induction false} ColumnLineInRange(content: string, col: int)
    ensures 1 <= |SplitLines(SlicePrefix(content, col))| <= 1 + CountChar(content, '\n')
  {
    var prefix := SlicePrefix(content, col);
    SplitLinesCount(prefix);
    assert content == prefix + content[|prefix|..];
    CountCharAppend(prefix, content[|prefix|..], '\n');
  }
}
