/**
 Writing frames as an event stream and parsing them back, under any chunking.
 */
module RoundTrip {
  import opened Utf8
  import opened Lines
  import opened EventStream
  import opened Limits
  import opened Outcome
  import opened Wrappers
  import Sse = Dispatcher
  import Streaming

  // ---------- Printing ----------

  function Digits(n: nat): (s: string)
    ensures s != "" && AllDigits(s)
  {
    var last := ['0' + (n % 10) as char];
    if n < 10 then last else Digits(n / 10) + last
  }

  /** The data lines of a message: its text cut at each LF. */
  function DataLines(data: string): (r: seq<string>)
    ensures r != []
    decreases |data|
  {
    var i := IndexOf(data, '\n');
    if i == |data| then [data] else [data[..i]] + DataLines(data[i + 1..])
  }

  function DataFields(values: seq<string>): seq<LineKind> {
    seq(|values|, i requires 0 <= i < |values| => LineKind.Field("data", values[i]))
  }

  /** The lines of one frame, as what they mean. */
  function FrameLines(frame: Frame): seq<LineKind> {
    match frame
    case RetryFrame(millis) => [LineKind.Field("retry", Digits(millis))]
    case MessageFrame(m) =>
      [LineKind.Field("event", m.event)]
      + (if m.id.Some? then [LineKind.Field("id", m.id.value)] else [])
      + DataFields(DataLines(m.data))
      + [Blank]
  }

  function StreamLines(frames: seq<Frame>): seq<LineKind> {
    if frames == [] then []
    else StreamLines(frames[..|frames| - 1]) + FrameLines(frames[|frames| - 1])
  }

  /** One line of text, without its LF. */
  function LineText(line: LineKind): string {
    match line
    case Blank => ""
    case Comment => ":"
    case Field(name, value) => name + ": " + value
  }

  function PrintLines(lines: seq<LineKind>): seq<byte> {
    if lines == [] then [] else Encode(LineText(lines[0])) + [LF] + PrintLines(lines[1..])
  }

  function Print(frames: seq<Frame>): seq<byte> {
    PrintLines(StreamLines(frames))
  }

  // ---------- What can be printed ----------

  predicate OneLine(s: string) {
    '\r' !in s && '\n' !in s
  }

  predicate Printable(frame: Frame) {
    match frame
    case RetryFrame(millis) => millis <= U64_MAX
    case MessageFrame(m) =>
      && OneLine(m.event) && '\r' !in m.data
      && (m.id.Some? ==> OneLine(m.id.value) && '\0' !in m.id.value)
  }

  predicate HasId(frame: Frame) {
    frame.MessageFrame? && frame.message.id.Some?
  }

  /** Once an id has been sent, every later message has one: the stream cannot take it back. */
  predicate IdsStay(frames: seq<Frame>) {
    forall i, j :: 0 <= i < j < |frames| ==>
      (HasId(frames[i]) && frames[j].MessageFrame? ==> HasId(frames[j]))
  }

  /** No printed line is over the line bound, no message over the event bound. */
  ghost predicate Within(limits: Limits, frame: Frame) {
    && (forall line :: line in FrameLines(frame) ==> Len(LineText(line)) <= limits.maxLineBytes)
    && (frame.MessageFrame? ==> Len(frame.message.data) + 1 <= limits.maxEventBytes)
  }

  /** A line that prints to one line of text and parses back to itself. */
  predicate Plain(line: LineKind) {
    match line
    case Blank => true
    case Comment => false
    case Field(name, value) => name != "" && ':' !in name && OneLine(name) && OneLine(value)
  }

  // ---------- Bytes back to lines ----------

  lemma {:induction false} EncodeAddsNoAscii(s: string, c: char)
    requires c as int < 0x80 && c !in s
    ensures c as int !in Encode(s)
    decreases |s|
  {
    if s != "" {
      assert s[0] in s && forall d :: d in s[1..] ==> d in s;
      assert c as int !in EncodeChar(s[0]);
      EncodeAddsNoAscii(s[1..], c);
    }
  }

  lemma FieldParsesBack(name: string, value: string)
    requires name != "" && ':' !in name
    ensures ParseLine(name + ": " + value) == LineKind.Field(name, value)
  {
    var text := name + ": " + value;
    assert text[|name|] == ':' && text[..|name|] == name;
    assert text[|name| + 1..] == " " + value && (" " + value)[1..] == value;
    Field.IndexOfIs(text, ':', |name|);
  }

  /** A printed line classifies as the line that was printed, and holds no terminator. */
  lemma LineParsesBack(line: LineKind)
    requires Plain(line)
    ensures Field.ClassifyLine(Encode(LineText(line))) == line
    ensures LF !in Encode(LineText(line)) && CR !in Encode(LineText(line))
  {
    hide Decode, ParseLine, Field.ClassifyLine, Encode;
    var text := LineText(line);
    var bytes := Encode(text);
    EncodeAddsNoAscii(text, '\n');
    EncodeAddsNoAscii(text, '\r');
    Field.LateDecodingIsSound(bytes);
    DecodeEncode(text, []);
    assert bytes + [] == bytes;
    DecodeKeepsFirstAscii([], ' ');
    assert text + "" == text;
    if line.Field? {
      FieldParsesBack(line.name, line.value);
    } else {
      BlankParsesBack();
    }
  }

  lemma BlankParsesBack()
    ensures ParseLine("") == Blank
  {
  }

  function LineBytes(lines: seq<LineKind>): seq<seq<byte>> {
    seq(|lines|, i requires 0 <= i < |lines| => Encode(LineText(lines[i])))
  }

  lemma SplitTakesPrinted(line: seq<byte>, rest: seq<byte>, ended: bool)
    requires LF !in line && CR !in line
    ensures Split(line + [LF] + rest, ended)
            == Cut([line] + Split(rest, ended).lines, Split(rest, ended).rest)
  {
    hide ContentLen, Split;
    var bs := line + [LF] + rest;
    ContentLenIs(bs, |line|);
    assert bs[..|line|] == line && bs[|line| + 1..] == rest;
    SplitTakesLine(bs, ended);
  }

  lemma {:induction false} PrintSplitsBack(lines: seq<LineKind>, ended: bool)
    requires forall i :: 0 <= i < |lines| ==> Plain(lines[i])
    ensures Split(PrintLines(lines), ended) == Cut(LineBytes(lines), [])
    decreases |lines|
  {
    hide Encode, LineText, Plain, NextBreak;
    if lines == [] {
      NothingSplits(ended);
    } else {
      LineParsesBack(lines[0]);
      SplitTakesPrinted(Encode(LineText(lines[0])), PrintLines(lines[1..]), ended);
      PrintSplitsBack(lines[1..], ended);
      assert LineBytes(lines) == [Encode(LineText(lines[0]))] + LineBytes(lines[1..]);
    }
  }

  lemma NothingSplits(ended: bool)
    ensures Split([], ended) == Cut([], [])
  {
  }

  lemma PrintedLinesClassify(lines: seq<LineKind>)
    requires forall i :: 0 <= i < |lines| ==> Plain(lines[i])
    ensures Classified(LineBytes(lines)) == lines
  {
    forall i | 0 <= i < |lines| ensures Field.ClassifyLine(LineBytes(lines)[i]) == lines[i] {
      LineParsesBack(lines[i]);
    }
  }

  // ---------- Lines back to frames ----------

  function Terminated(values: seq<string>): string {
    if values == [] then "" else values[0] + "\n" + Terminated(values[1..])
  }

  lemma {:induction false} DataLinesRejoin(data: string)
    ensures Terminated(DataLines(data)) == data + "\n"
    decreases |data|
  {
    hide IndexOf;
    var i := IndexOf(data, '\n');
    var first := data[..i];
    if i == |data| {
      assert first == data && DataLines(data)[1..] == [] && first + "\n" + "" == first + "\n";
    } else {
      var rest := data[i + 1..];
      DataLinesRejoin(rest);
      assert DataLines(data)[1..] == DataLines(rest);
      assert first + "\n" + (rest + "\n") == (first + "\n" + rest) + "\n";
      assert data == first + "\n" + rest;
    }
  }

  lemma {:induction false} DataLinesAreLines(data: string)
    requires '\r' !in data
    ensures forall v :: v in DataLines(data) ==> OneLine(v)
    decreases |data|
  {
    var i := IndexOf(data, '\n');
    assert forall c :: c in data[..i] ==> c in data;
    assert '\n' !in data[..i];
    if i < |data| {
      assert forall c :: c in data[i + 1..] ==> c in data;
      DataLinesAreLines(data[i + 1..]);
    }
  }

  /** Data fields only append to the data buffer. */
  lemma {:induction false} AppendData(lines: seq<LineKind>, values: seq<string>)
    ensures var grown := lines + DataFields(values);
            && Frames(grown) == Frames(lines) && EventType(grown) == EventType(lines)
            && LastId(grown) == LastId(lines)
            && Sse.PendingData(grown) == Sse.PendingData(lines) + Terminated(values)
    decreases |values|
  {
    hide Frames, EventType, LastId, Sse.PendingData, FrameOf;
    if values == [] {
      assert lines + DataFields(values) == lines;
      assert Sse.PendingData(lines) + "" == Sse.PendingData(lines);
    } else {
      var line := LineKind.Field("data", values[0]);
      Sse.FieldUpdatesBuffers(lines, "data", values[0]);
      NoFrame(lines, "data", values[0]);
      AppendData(lines + [line], values[1..]);
      assert lines + DataFields(values) == (lines + [line]) + DataFields(values[1..]);
      assert Sse.PendingData(lines) + values[0] + "\n" + Terminated(values[1..])
          == Sse.PendingData(lines) + (values[0] + "\n" + Terminated(values[1..]));
    }
  }

  lemma NoFrame(lines: seq<LineKind>, name: string, value: string)
    requires name != "retry"
    ensures Frames(lines + [LineKind.Field(name, value)]) == Frames(lines)
  {
    FramesGrow(lines, LineKind.Field(name, value));
  }

  /** Between two printed frames no event type and no data is pending. */
  ghost predicate Idle(lines: seq<LineKind>) {
    EventType(lines) == "" && Sse.PendingData(lines) == ""
  }

  ghost function Header(m: Message): seq<LineKind> {
    [LineKind.Field("event", m.event)] + if m.id.Some? then [LineKind.Field("id", m.id.value)] else []
  }

  lemma HeaderUpdates(lines: seq<LineKind>, m: Message)
    requires Idle(lines) && Printable(MessageFrame(m)) && (m.id.None? ==> LastId(lines).None?)
    ensures var grown := lines + Header(m);
            && Frames(grown) == Frames(lines)
            && EventType(grown) == m.event && LastId(grown) == m.id && Sse.PendingData(grown) == ""
  {
    hide Frames, EventType, LastId, Sse.PendingData, FrameOf;
    var first := lines + [LineKind.Field("event", m.event)];
    Sse.FieldUpdatesBuffers(lines, "event", m.event);
    NoFrame(lines, "event", m.event);
    if m.id.Some? {
      Sse.FieldUpdatesBuffers(first, "id", m.id.value);
      NoFrame(first, "id", m.id.value);
      assert lines + Header(m) == first + [LineKind.Field("id", m.id.value)];
    } else {
      assert lines + Header(m) == first;
    }
  }

  lemma BlankMakesMessage(lines: seq<LineKind>, data: string)
    requires Sse.PendingData(lines) == data + "\n"
    ensures Frames(lines + [Blank])
            == Frames(lines) + [MessageFrame(Message(EventType(lines), data, LastId(lines)))]
  {
    FramesGrow(lines, Blank);
    var values := Values(Block(lines), "data");
    assert JoinLf(values) == (JoinLf(values) + "\n")[..|data|] == data;
  }

  lemma MessageParsesBack(lines: seq<LineKind>, m: Message)
    requires Idle(lines) && Printable(MessageFrame(m)) && (m.id.None? ==> LastId(lines).None?)
    ensures var grown := lines + FrameLines(MessageFrame(m));
            Frames(grown) == Frames(lines) + [MessageFrame(m)] && Idle(grown) && LastId(grown) == m.id
  {
    hide Frames, EventType, LastId, Sse.PendingData, FrameOf, DataLines;
    var values := DataLines(m.data);
    var body := (lines + Header(m)) + DataFields(values);
    HeaderUpdates(lines, m);
    AppendData(lines + Header(m), values);
    DataLinesRejoin(m.data);
    assert "" + Terminated(values) == Terminated(values);
    BlankMakesMessage(body, m.data);
    Sse.BlankClearsBuffers(body);
    assert lines + FrameLines(MessageFrame(m)) == body + [Blank];
  }

  lemma {:induction false} DigitsParseBack(n: nat)
    ensures DecimalValue(Digits(n)) == n
    decreases n
  {
    var s := Digits(n);
    if n < 10 {
      assert s[..0] == "";
    } else {
      DigitsParseBack(n / 10);
      assert s[..|s| - 1] == Digits(n / 10);
    }
  }

  lemma RetryParsesBack(lines: seq<LineKind>, millis: nat)
    requires Idle(lines) && millis <= U64_MAX
    ensures var grown := lines + FrameLines(RetryFrame(millis));
            Frames(grown) == Frames(lines) + [RetryFrame(millis)] && Idle(grown) && LastId(grown) == LastId(lines)
  {
    hide EventType, LastId, Sse.PendingData, Digits;
    DigitsParseBack(millis);
    FramesGrow(lines, LineKind.Field("retry", Digits(millis)));
    Sse.FieldUpdatesBuffers(lines, "retry", Digits(millis));
  }

  lemma BeforeLast(frames: seq<Frame>)
    requires frames != [] && IdsStay(frames)
    ensures var n := |frames| - 1;
            && frames == frames[..n] + [frames[n]] && IdsStay(frames[..n])
            && (forall f :: f in frames[..n] ==> f in frames) && frames[n] in frames
            && (frames[n].MessageFrame? && !HasId(frames[n]) ==> forall f :: f in frames[..n] ==> !HasId(f))
  {
    hide HasId;
    var n := |frames| - 1;
    forall f | f in frames[..n] && frames[n].MessageFrame? && !HasId(frames[n]) ensures !HasId(f) {
      var i :| 0 <= i < n && frames[..n][i] == f;
    }
  }

  /** The printed lines of a list of frames are interpreted as exactly those frames. */
  lemma {:induction false} LinesInterpretBack(frames: seq<Frame>)
    requires (forall f :: f in frames ==> Printable(f)) && IdsStay(frames)
    ensures Frames(StreamLines(frames)) == frames && Idle(StreamLines(frames))
    ensures (forall f :: f in frames ==> !HasId(f)) ==> LastId(StreamLines(frames)).None?
    decreases |frames|
  {
    hide Frames, LastId, Idle, IdsStay, FrameOf, Printable, FrameLines;
    if frames == [] {
      NothingIsIdle();
    } else {
      var n := |frames| - 1;
      BeforeLast(frames);
      LinesInterpretBack(frames[..n]);
      match frames[n]
      case RetryFrame(millis) =>
        PrintableRetry(frames[n]);
        RetryParsesBack(StreamLines(frames[..n]), millis);
      case MessageFrame(m) =>
        MessageParsesBack(StreamLines(frames[..n]), m);
    }
  }

  lemma PrintableRetry(frame: Frame)
    requires Printable(frame) && frame.RetryFrame?
    ensures frame.millis <= U64_MAX
  {
  }

  lemma NothingIsIdle()
    ensures Frames([]) == [] && Idle([]) && LastId([]).None?
  {
  }

  // ---------- Within limits ----------

  /** No line takes the pending event past its bound. */
  ghost predicate EventsFit(max: nat, lines: seq<LineKind>) {
    forall k :: 0 <= k < |lines| ==> !Sse.EventOverflows(max, lines[..k], lines[k])
  }

  lemma EventsFitGrows(max: nat, lines: seq<LineKind>, line: LineKind)
    requires EventsFit(max, lines) && !Sse.EventOverflows(max, lines, line)
    ensures EventsFit(max, lines + [line])
  {
    hide Sse.EventOverflows;
    var grown := lines + [line];
    assert grown[..|lines|] == lines;
    forall k | 0 <= k < |lines| ensures grown[..k] == lines[..k] && grown[k] == lines[k] {
    }
  }

  lemma {:induction false} DataFits(max: nat, lines: seq<LineKind>, values: seq<string>)
    requires EventsFit(max, lines) && Len(Sse.PendingData(lines) + Terminated(values)) <= max
    ensures EventsFit(max, lines + DataFields(values))
    decreases |values|
  {
    hide EventsFit, Sse.PendingData, EventType, LastId, Encode;
    if values == [] {
      assert lines + DataFields(values) == lines;
    } else {
      var line := LineKind.Field("data", values[0]);
      var pending, rest := Sse.PendingData(lines), Terminated(values[1..]);
      Sse.FieldUpdatesBuffers(lines, "data", values[0]);
      assert pending + Terminated(values) == (pending + values[0] + "\n") + rest;
      EncodeConcat(pending + values[0] + "\n", rest);
      Sse.LenOfData(pending, values[0]);
      EventsFitGrows(max, lines, line);
      DataFits(max, lines + [line], values[1..]);
      assert lines + DataFields(values) == (lines + [line]) + DataFields(values[1..]);
    }
  }

  lemma FrameFits(limits: Limits, lines: seq<LineKind>, frame: Frame)
    requires EventsFit(limits.maxEventBytes, lines) && Idle(lines) && Printable(frame) && Within(limits, frame)
    requires frame.MessageFrame? && frame.message.id.None? ==> LastId(lines).None?
    ensures EventsFit(limits.maxEventBytes, lines + FrameLines(frame))
  {
    hide EventsFit, Sse.PendingData, EventType, LastId, Frames, Encode, DataLines;
    var max := limits.maxEventBytes;
    match frame
    case RetryFrame(millis) =>
      EventsFitGrows(max, lines, LineKind.Field("retry", Digits(millis)));
    case MessageFrame(m) =>
      var values := DataLines(m.data);
      HeaderFits(max, lines, m);
      HeaderUpdates(lines, m);
      DataLinesRejoin(m.data);
      Sse.LenOfData("", m.data);
      assert "" + m.data + "\n" == m.data + "\n" && "" + Terminated(values) == Terminated(values);
      EmptyHasNoLength();
      DataFits(max, lines + Header(m), values);
      EventsFitGrows(max, (lines + Header(m)) + DataFields(values), Blank);
      assert lines + FrameLines(frame) == ((lines + Header(m)) + DataFields(values)) + [Blank];
  }

  lemma EmptyHasNoLength()
    ensures Len("") == 0
  {
  }

  lemma HeaderFits(max: nat, lines: seq<LineKind>, m: Message)
    requires EventsFit(max, lines)
    ensures EventsFit(max, lines + Header(m))
  {
    hide EventsFit;
    var first := lines + [LineKind.Field("event", m.event)];
    EventsFitGrows(max, lines, LineKind.Field("event", m.event));
    if m.id.Some? {
      EventsFitGrows(max, first, LineKind.Field("id", m.id.value));
      assert lines + Header(m) == first + [LineKind.Field("id", m.id.value)];
    } else {
      assert lines + Header(m) == first;
    }
  }

  ghost predicate CanPrint(limits: Limits, frames: seq<Frame>) {
    (forall f :: f in frames ==> Printable(f) && Within(limits, f)) && IdsStay(frames)
  }

  lemma {:induction false} PrintedEventsFit(limits: Limits, frames: seq<Frame>)
    requires CanPrint(limits, frames)
    ensures EventsFit(limits.maxEventBytes, StreamLines(frames))
    decreases |frames|
  {
    hide EventsFit, FrameLines, Printable, Within, LastId, Frames, Idle, IdsStay;
    if frames == [] {
      NoEventsFit(limits.maxEventBytes);
    } else {
      var n := |frames| - 1;
      BeforeLast(frames);
      PrintedEventsFit(limits, frames[..n]);
      LinesInterpretBack(frames[..n]);
      FrameFits(limits, StreamLines(frames[..n]), frames[n]);
    }
  }

  lemma NoEventsFit(max: nat)
    ensures EventsFit(max, [])
  {
  }

  lemma FrameLinesArePlain(frame: Frame)
    requires Printable(frame)
    ensures forall line :: line in FrameLines(frame) ==> Plain(line)
  {
    match frame
    case RetryFrame(millis) =>
      assert OneLine(Digits(millis)) by {
        assert AllDigits(Digits(millis));
      }
    case MessageFrame(m) =>
      DataLinesAreLines(m.data);
  }

  lemma {:induction false} StreamLinesArePlain(limits: Limits, frames: seq<Frame>)
    requires forall f :: f in frames ==> Printable(f) && Within(limits, f)
    ensures forall line :: line in StreamLines(frames) ==>
              Plain(line) && Len(LineText(line)) <= limits.maxLineBytes
    decreases |frames|
  {
    hide Printable, FrameLines, Plain, LineText, Encode;
    if frames != [] {
      StreamLinesArePlain(limits, frames[..|frames| - 1]);
      assert frames[|frames| - 1] in frames;
      FrameLinesArePlain(frames[|frames| - 1]);
    }
  }

  lemma LinesFit(limits: Limits, lines: seq<LineKind>)
    requires EventsFit(limits.maxEventBytes, lines)
    requires forall line :: line in lines ==> Plain(line) && Len(LineText(line)) <= limits.maxLineBytes
    ensures AllFit(limits, LineBytes(lines))
  {
    hide Sse.EventOverflows, Plain, LineText, Encode, Field.ClassifyLine;
    PrintedLinesClassify(lines);
    forall k | 0 <= k < |lines| ensures Fits(limits, LineBytes(lines), k) {
      assert lines[k] in lines;
      assert Classified(LineBytes(lines))[k] == lines[k];
      assert Classified(LineBytes(lines)[..k]) == Classified(LineBytes(lines))[..k];
    }
  }

  lemma PrintHasNoBom(lines: seq<LineKind>)
    requires lines != [] ==> lines[0].Field? && lines[0].name in {"event", "retry"}
    ensures StripBom(PrintLines(lines)) == PrintLines(lines)
  {
    hide Encode;
    if lines != [] {
      var text := LineText(lines[0]);
      assert text[0] == 'e' || text[0] == 'r';
      FirstByte(text);
      assert PrintLines(lines)[0] == text[0] as int;
    }
  }

  lemma FirstByte(text: string)
    requires text != "" && text[0] as int < 0x80
    ensures Encode(text) != [] && Encode(text)[0] == text[0] as int
  {
  }

  lemma {:induction false} PrintStartsWithField(frames: seq<Frame>)
    ensures var lines := StreamLines(frames);
            lines != [] ==> lines[0].Field? && lines[0].name in {"event", "retry"}
    decreases |frames|
  {
    if frames != [] {
      PrintStartsWithField(frames[..|frames| - 1]);
    }
  }

  /** Frames written as a stream are parsed back as exactly those frames, and need no end of
      stream to come out. */
  lemma PrintParsesBack(limits: Limits, frames: seq<Frame>, ended: bool)
    requires CanPrint(limits, frames)
    ensures OutcomeOf(limits, Print(frames), ended) == Running(frames)
  {
    hide StripBom, PrintLines, StreamLines, Plain, AllFit, EventsFit, Frames, Printable, Within, Classified;
    var lines := StreamLines(frames);
    StreamLinesArePlain(limits, frames);
    assert forall i :: 0 <= i < |lines| ==> lines[i] in lines;
    PrintStartsWithField(frames);
    PrintHasNoBom(lines);
    PrintSplitsBack(lines, ended);
    PrintedLinesClassify(lines);
    PrintedEventsFit(limits, frames);
    LinesFit(limits, lines);
    LinesInterpretBack(frames);
    OutcomeWhenDrained(limits, Cut(LineBytes(lines), []), ended || BomDecided(Print(frames)));
  }

  /** The same, through the parser: however the printed bytes are cut, and whenever frames are
      popped. */
  method ParsePrinted(limits: Limits, ghost frames: seq<Frame>, chunks: seq<seq<byte>>, pops: seq<nat>)
    returns (parsed: seq<Frame>, overflow: Option<Overflow>)
    requires CanPrint(limits, frames) && Streaming.Flatten(chunks) == Print(frames)
    ensures parsed == frames && overflow == None
  {
    hide OutcomeOf, CanPrint, Print;
    PrintParsesBack(limits, frames, true);
    ghost var looks;
    parsed, overflow, looks := Streaming.ParseInChunks(limits, chunks, pops);
  }
}
