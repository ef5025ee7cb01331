/**
 The event stream format on decoded text: sections 9.2.5 and 9.2.6 of the WHATWG HTML Living
 Standard, as one definition over a whole stream.

 Nothing here holds a buffer. A frame is what a line means given all the lines before it:
 a blank line closes the block of lines since the last blank line.
 */
module EventStream {
  import opened Wrappers

  datatype Message = Message(event: string, data: string, id: Option<string>)

  datatype Frame =
    | MessageFrame(message: Message)
    | RetryFrame(millis: nat)

  datatype LineKind =
    | Blank
    | Comment
    | Field(name: string, value: string)

  const U64_MAX: nat := 0xFFFF_FFFF_FFFF_FFFF

  // ---------- Section 9.2.5: text to lines ----------

  /** The terminated lines of `text`, character by character: an LF right after a CR belongs
      to the same terminator. What follows the last terminator is no line. */
  function TextLines(text: string, line: string, afterCr: bool): seq<string>
    decreases |text|
  {
    if text == "" then []
    else if text[0] == '\n' && afterCr then TextLines(text[1..], line, false)
    else if text[0] == '\n' || text[0] == '\r' then [line] + TextLines(text[1..], "", text[0] == '\r')
    else TextLines(text[1..], line + [text[0]], false)
  }

  // ---------- Section 9.2.6: one line ----------

  function IndexOf(s: string, c: char): (i: nat)
    ensures i <= |s| && (forall j :: 0 <= j < i ==> s[j] != c) && (i < |s| ==> s[i] == c)
  {
    if s == "" || s[0] == c then 0 else 1 + IndexOf(s[1..], c)
  }

  function ParseLine(line: string): LineKind {
    var colon := IndexOf(line, ':');
    if line == "" then Blank
    else if colon == 0 then Comment
    else if colon == |line| then Field(line, "")
    else
      var value := line[colon + 1..];
      Field(line[..colon], if value != "" && value[0] == ' ' then value[1..] else value)
  }

  // ---------- Section 9.2.6: the lines of a block ----------

  /** The lines after the last blank one. */
  function Block(lines: seq<LineKind>): seq<LineKind> {
    if lines == [] || lines[|lines| - 1].Blank? then []
    else Block(lines[..|lines| - 1]) + [lines[|lines| - 1]]
  }

  /** The values of the fields of this name, in order. */
  function Values(lines: seq<LineKind>, name: string): seq<string> {
    if lines == [] then []
    else (if lines[0].Field? && lines[0].name == name then [lines[0].value] else [])
         + Values(lines[1..], name)
  }

  function NulFree(values: seq<string>): seq<string> {
    if values == [] then []
    else (if '\0' in values[0] then [] else [values[0]]) + NulFree(values[1..])
  }

  function Last(values: seq<string>): Option<string> {
    if values == [] then None else Some(values[|values| - 1])
  }

  /** The values with an LF between each two. */
  function JoinLf(values: seq<string>): string {
    if values == [] then ""
    else if |values| == 1 then values[0]
    else values[0] + "\n" + JoinLf(values[1..])
  }

  function EventType(lines: seq<LineKind>): string {
    match Last(Values(Block(lines), "event"))
    case Some(event) => event
    case None => ""
  }

  function LastId(lines: seq<LineKind>): Option<string> {
    Last(NulFree(Values(lines, "id")))
  }

  predicate IsDigit(c: char) {
    '0' <= c <= '9'
  }

  predicate AllDigits(s: string) {
    forall i :: 0 <= i < |s| ==> IsDigit(s[i])
  }

  function DecimalValue(digits: string): nat
    requires AllDigits(digits)
  {
    if digits == "" then 0
    else
      var n := |digits| - 1;
      DecimalValue(digits[..n]) * 10 + (digits[n] - '0') as int
  }

  /** A reconnection time: only ASCII digits, at least one, and no more than a `u64` holds. */
  function ParseRetry(value: string): Option<nat> {
    if value == "" || !AllDigits(value) then None
    else if DecimalValue(value) > U64_MAX then None
    else Some(DecimalValue(value))
  }

  // ---------- Section 9.2.6: frames ----------

  /** What `line` produces when the lines before it are `before`. */
  function FrameOf(before: seq<LineKind>, line: LineKind): Option<Frame> {
    match line
    case Blank =>
      var data := Values(Block(before), "data");
      if data == [] then None
      else Some(MessageFrame(Message(EventType(before), JoinLf(data), LastId(before))))
    case Comment => None
    case Field(name, value) =>
      if name == "retry" && ParseRetry(value).Some? then Some(RetryFrame(ParseRetry(value).value))
      else None
  }

  function Listed(frame: Option<Frame>): seq<Frame> {
    if frame.Some? then [frame.value] else []
  }

  function Frames(lines: seq<LineKind>): seq<Frame> {
    if lines == [] then []
    else
      var n := |lines| - 1;
      Frames(lines[..n]) + Listed(FrameOf(lines[..n], lines[n]))
  }

  function ParseLines(lines: seq<string>): seq<LineKind> {
    seq(|lines|, i requires 0 <= i < |lines| => ParseLine(lines[i]))
  }

  /** The frames of a whole decoded stream. */
  function Interpret(text: string): seq<Frame> {
    Frames(ParseLines(TextLines(text, "", false)))
  }

  // ---------- How the definitions grow with one more line ----------

  lemma BlockGrows(lines: seq<LineKind>, line: LineKind)
    ensures Block(lines + [line]) == if line.Blank? then [] else Block(lines) + [line]
  {
    assert (lines + [line])[..|lines|] == lines;
  }

  lemma FramesGrow(lines: seq<LineKind>, line: LineKind)
    ensures Frames(lines + [line])
            == match FrameOf(lines, line)
               case Some(frame) => Frames(lines) + [frame]
               case None => Frames(lines)
  {
    assert (lines + [line])[..|lines|] == lines;
  }

  lemma {:induction false} FramesOfPrefix(lines: seq<LineKind>, n: nat)
    requires n <= |lines|
    ensures Frames(lines[..n]) <= Frames(lines)
    decreases |lines| - n
  {
    hide FrameOf;
    if n < |lines| {
      assert lines[..n + 1] == lines[..n] + [lines[n]];
      FramesGrow(lines[..n], lines[n]);
      FramesOfPrefix(lines, n + 1);
    } else {
      assert lines[..n] == lines;
    }
  }

  lemma {:induction false} ValuesConcat(a: seq<LineKind>, b: seq<LineKind>, name: string)
    ensures Values(a + b, name) == Values(a, name) + Values(b, name)
    decreases |a|
  {
    if a == [] {
      assert a + b == b;
    } else {
      assert (a + b)[1..] == a[1..] + b;
      ValuesConcat(a[1..], b, name);
    }
  }

  lemma ValuesGrow(lines: seq<LineKind>, line: LineKind, name: string)
    ensures Values(lines + [line], name)
            == if line.Field? && line.name == name then Values(lines, name) + [line.value]
               else Values(lines, name)
  {
    ValuesConcat(lines, [line], name);
    assert [line][1..] == [];
  }

  lemma {:induction false} NulFreeGrows(values: seq<string>, value: string)
    ensures NulFree(values + [value])
            == if '\0' in value then NulFree(values) else NulFree(values) + [value]
    decreases |values|
  {
    if values == [] {
      assert values + [value] == [value] && [value][1..] == [];
    } else {
      assert (values + [value])[0] == values[0] && (values + [value])[1..] == values[1..] + [value];
      NulFreeGrows(values[1..], value);
    }
  }

  lemma {:induction false} JoinLfGrows(values: seq<string>, value: string)
    ensures JoinLf(values + [value]) == if values == [] then value else JoinLf(values) + "\n" + value
    decreases |values|
  {
    if values == [] {
      assert values + [value] == [value];
    } else {
      assert (values + [value])[0] == values[0] && (values + [value])[1..] == values[1..] + [value];
      JoinLfGrows(values[1..], value);
    }
  }

  // ---------- What each line makes, by its parts ----------

  function Power10(n: nat): nat {
    if n == 0 then 1 else 10 * Power10(n - 1)
  }

  /** The number a row of digits stands for, by the place of each. */
  function PlaceValue(digits: string): nat
    requires AllDigits(digits)
  {
    if digits == "" then 0
    else (digits[0] - '0') as int * Power10(|digits| - 1) + PlaceValue(digits[1..])
  }

  lemma {:induction false} DecimalIsPlaceValue(digits: string)
    requires AllDigits(digits)
    ensures DecimalValue(digits) == PlaceValue(digits)
    decreases |digits|
  {
    if digits != "" {
      DecimalIsPlaceValue(digits[..|digits| - 1]);
      PlaceValueFromEnd(digits);
    }
  }

  lemma {:induction false} PlaceValueFromEnd(digits: string)
    requires AllDigits(digits) && digits != ""
    ensures var n := |digits| - 1;
            PlaceValue(digits) == PlaceValue(digits[..n]) * 10 + (digits[n] - '0') as int
    decreases |digits|
  {
    var n := |digits| - 1;
    if n == 0 {
      assert digits[1..] == "" && digits[..0] == "";
    } else {
      PlaceValueFromEnd(digits[1..]);
      assert digits[..n][1..] == digits[1..][..n - 1];
      assert Power10(n) == 10 * Power10(n - 1);
      TimesTen((digits[0] - '0') as int, Power10(n - 1));
    }
  }

  lemma TimesTen(d: nat, p: nat)
    ensures d * (10 * p) == (d * p) * 10
  {
  }

  /** `retry` makes a frame exactly of one or more ASCII digits whose value fits 64 bits. */
  lemma RetryMakesFrame(before: seq<LineKind>, value: string)
    ensures value == "" || (exists i :: 0 <= i < |value| && !('0' <= value[i] <= '9')) ==>
              FrameOf(before, Field("retry", value)) == None
    ensures value != "" && (forall i :: 0 <= i < |value| ==> '0' <= value[i] <= '9') ==>
              && AllDigits(value)
              && FrameOf(before, Field("retry", value))
                 == if PlaceValue(value) <= 18446744073709551615 then Some(RetryFrame(PlaceValue(value))) else None
  {
    if AllDigits(value) {
      DecimalIsPlaceValue(value);
    }
  }

  /** Only `retry` and a blank line make frames. */
  lemma OtherLinesMakeNone(before: seq<LineKind>, line: LineKind)
    requires line.Comment? || (line.Field? && line.name != "retry")
    ensures FrameOf(before, line) == None
  {
  }

  /** Line `j` comes after the last blank line, and is a `data` field. */
  ghost predicate DataSinceBlank(lines: seq<LineKind>, j: nat) {
    && j < |lines| && lines[j].Field? && lines[j].name == "data"
    && forall k :: j <= k < |lines| ==> !lines[k].Blank?
  }

  /** A blank line makes a frame exactly if some `data` field came since the last one. */
  lemma BlankNeedsData(before: seq<LineKind>)
    ensures FrameOf(before, Blank).Some? <==> exists j: nat :: DataSinceBlank(before, j)
  {
    DataIsSinceBlank(before);
  }

  lemma {:induction false} DataIsSinceBlank(lines: seq<LineKind>)
    ensures Values(Block(lines), "data") != [] <==> exists j: nat :: DataSinceBlank(lines, j)
    decreases |lines|
  {
    hide Block, Values, DataSinceBlank;
    if lines == [] {
      NothingSinceBlank();
    } else {
      var before, line := lines[..|lines| - 1], lines[|lines| - 1];
      assert lines == before + [line];
      BlockGrows(before, line);
      DataGrows(before, line);
      if line.Blank? {
        NothingSinceBlank();
      } else {
        DataIsSinceBlank(before);
        ValuesGrow(Block(before), line, "data");
      }
    }
  }

  lemma NothingSinceBlank()
    ensures Values([], "data") == [] && Block([]) == [] && forall j: nat :: !DataSinceBlank([], j)
  {
  }

  lemma DataGrows(before: seq<LineKind>, line: LineKind)
    ensures (exists j: nat :: DataSinceBlank(before + [line], j))
            <==> !line.Blank? && ((exists j: nat :: DataSinceBlank(before, j)) || (line.Field? && line.name == "data"))
  {
    var grown := before + [line];
    forall j: nat ensures DataSinceBlank(grown, j) <==>
        !line.Blank? && (DataSinceBlank(before, j) || (j == |before| && line.Field? && line.name == "data"))
    {
      assert grown[|before|] == line;
      assert forall k :: 0 <= k < |before| ==> grown[k] == before[k];
    }
    if !line.Blank? && line.Field? && line.name == "data" {
      assert DataSinceBlank(grown, |before|);
    }
  }
}
