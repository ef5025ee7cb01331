/**
 What the limits buy: where exactly an overflow is reported, how much is held, and when that is more
 than documented.
 */
module Bounds {
  import opened Utf8
  import opened Lines
  import opened Field
  import opened EventStream
  import opened Limits
  import opened Outcome
  import opened Wrappers
  import Push = Parser
  import Sse = Dispatcher

  // ---------- Where an overflow is reported ----------

  /** The overflow point: before byte `n` every prefix runs, from byte `n` on every prefix and
      the end of the stream report the same outcome. */
  ghost predicate StopsAt(limits: Limits, input: seq<byte>, n: nat)
    requires n <= |input|
  {
    && (forall m :: 0 <= m < n ==> OutcomeOf(limits, input[..m], false).Running?)
    && (forall m :: n <= m <= |input| ==> OutcomeOf(limits, input[..m], false) == OutcomeOf(limits, input, false))
    && OutcomeOf(limits, input, false).Stopped?
    && OutcomeOf(limits, input, true) == OutcomeOf(limits, input, false)
  }

  lemma {:induction false} FirstStop(limits: Limits, input: seq<byte>, n: nat) returns (k: nat)
    requires n <= |input| && OutcomeOf(limits, input[..n], false).Stopped?
    ensures k <= n && OutcomeOf(limits, input[..k], false).Stopped?
    ensures forall m :: 0 <= m < k ==> OutcomeOf(limits, input[..m], false).Running?
    decreases n
  {
    hide OutcomeOf;
    if m :| 0 <= m < n && OutcomeOf(limits, input[..m], false).Stopped? {
      k := FirstStop(limits, input, m);
    } else {
      k := n;
    }
  }

  /** A stream that crosses a bound crosses it at one byte, however it is cut into chunks. */
  lemma OverflowHasOnePoint(limits: Limits, input: seq<byte>)
    requires OutcomeOf(limits, input, false).Stopped?
    ensures exists n :: 0 <= n <= |input| && StopsAt(limits, input, n)
  {
    hide OutcomeOf;
    assert input[..|input|] == input && input + [] == input;
    var k := FirstStop(limits, input, |input|);
    forall m | k <= m <= |input|
      ensures OutcomeOf(limits, input[..m], false) == OutcomeOf(limits, input[..k], false)
    {
      assert input[..k] + input[k..m] == input[..m];
      StoppedIsFinal(limits, input[..k], input[k..m], false);
    }
    StoppedIsFinal(limits, input, [], true);
    assert StopsAt(limits, input, k);
  }

  /** Line `k` is the first over a bound. The line still being collected counts by its
      content: no terminator, no held CR, and nothing that may yet be a byte order mark. */
  ghost predicate Crosses(limits: Limits, input: seq<byte>, ended: bool, k: nat, overflow: Overflow) {
    var cut := Split(StripBom(input), ended);
    && k <= |cut.lines| && AllFit(limits, cut.lines[..k])
    && if k == |cut.lines| then
         (ended || BomDecided(input)) && ContentLen(cut.rest) > limits.maxLineBytes
         && overflow == Overflow.Line(limits.maxLineBytes)
       else if |cut.lines[k]| > limits.maxLineBytes then
         overflow == Overflow.Line(limits.maxLineBytes)
       else
         Sse.EventOverflows(limits.maxEventBytes, Classified(cut.lines[..k]), ClassifyLine(cut.lines[k]))
         && overflow == Event(limits.maxEventBytes)
  }

  /** A line that is the first to cross a bound stops the parser with that bound and with
      exactly the frames of the lines before it. */
  lemma CrossingStops(limits: Limits, input: seq<byte>, ended: bool, k: nat, overflow: Overflow)
    requires Crosses(limits, input, ended, k, overflow)
    ensures OutcomeOf(limits, input, ended)
            == Stopped(Frames(Classified(Split(StripBom(input), ended).lines[..k])), overflow)
  {
    hide Split, StripBom, Frames, Classified, ContentLen;
    FirstMisfitIs(limits, Split(StripBom(input), ended).lines, k);
  }

  /** And nothing else stops it. */
  lemma OnlyCrossingStops(limits: Limits, input: seq<byte>, ended: bool)
    ensures OutcomeOf(limits, input, ended).Stopped?
            <==> exists k, overflow :: Crosses(limits, input, ended, k, overflow)
  {
    hide Split, StripBom, Frames, Classified, ContentLen;
    var lines, outcome := Split(StripBom(input), ended).lines, OutcomeOf(limits, input, ended);
    if outcome.Stopped? {
      AllFitUpToMisfit(limits, lines);
      assert Crosses(limits, input, ended, FirstMisfit(limits, lines, 0), outcome.overflow);
    }
    if k, overflow :| Crosses(limits, input, ended, k, overflow) {
      CrossingStops(limits, input, ended, k, overflow);
    }
  }

  // ---------- What the end of the stream adds ----------

  /** All that ending a running stream can do: complete the line of a held CR, or find that
      bytes held back as a possible byte order mark are content, and too much of it. */
  lemma EndDoes(limits: Limits, input: seq<byte>)
    requires OutcomeOf(limits, input, false).Running?
    ensures var cut := Split(StripBom(input), false);
            var frames, kinds := OutcomeOf(limits, input, false).frames, Classified(cut.lines);
            OutcomeOf(limits, input, true)
            == if !BomDecided(input) then
                 if |input| > limits.maxLineBytes then Stopped([], Overflow.Line(limits.maxLineBytes))
                 else Running([])
               else if ContentLen(cut.rest) == |cut.rest| then Running(frames)
               else
                 var last := ClassifyLine(cut.rest[..ContentLen(cut.rest)]);
                 if Sse.EventOverflows(limits.maxEventBytes, kinds, last) then
                   Stopped(frames, Event(limits.maxEventBytes))
                 else Running(frames + Listed(FrameOf(kinds, last)))
  {
    if !BomDecided(input) {
      UndecidedBomIsContent(input);
    } else {
      EndOfDecidedStream(limits, StripBom(input));
    }
  }

  lemma EndOfDecidedStream(limits: Limits, bs: seq<byte>)
    requires Judge(limits, Split(bs, false), true).Running?
    ensures var cut := Split(bs, false);
            var frames, kinds := Frames(Classified(cut.lines)), Classified(cut.lines);
            && Judge(limits, cut, true) == Running(frames)
            && Judge(limits, Split(bs, true), true)
               == if ContentLen(cut.rest) == |cut.rest| then Running(frames)
                  else
                    var last := ClassifyLine(cut.rest[..ContentLen(cut.rest)]);
                    if Sse.EventOverflows(limits.maxEventBytes, kinds, last) then
                      Stopped(frames, Event(limits.maxEventBytes))
                    else Running(frames + Listed(FrameOf(kinds, last)))
  {
    hide Frames, ContentLen, Classified, ClassifyLine, FrameOf, Sse.EventOverflows;
    var cut := Split(bs, false);
    assert cut.lines[..|cut.lines|] == cut.lines;
    SplitExtends(bs, [], true);
    assert bs + [] == bs && cut.rest + [] == cut.rest;
    RestIsUndecided(bs, false);
    var n := ContentLen(cut.rest);
    if n == |cut.rest| {
      assert Split(bs, true) == Cut(cut.lines + [], cut.rest) && cut.lines + [] == cut.lines;
    } else {
      var line := cut.rest[..n];
      assert NextBreak(cut.rest, true) == Some(n + 1) && cut.rest[n + 1..] == [];
      SplitTakesLine(cut.rest, true);
      assert Split([], true) == Cut([], []) && [line] + [] == [line];
      assert Split(bs, true) == Cut(cut.lines + [line], []);
      LastLine(limits, cut.lines, line);
    }
  }

  lemma LastLine(limits: Limits, lines: seq<seq<byte>>, line: seq<byte>)
    requires AllFit(limits, lines) && |line| <= limits.maxLineBytes
    ensures var kinds, last := Classified(lines), ClassifyLine(line);
            Judge(limits, Cut(lines + [line], []), true)
            == if Sse.EventOverflows(limits.maxEventBytes, kinds, last) then
                 Stopped(Frames(kinds), Event(limits.maxEventBytes))
               else Running(Frames(kinds) + Listed(FrameOf(kinds, last)))
  {
    hide ClassifyLine, FrameOf, Sse.EventOverflows, Frames;
    var all := lines + [line];
    assert all[..|lines|] == lines && all[..|all|] == all;
    ClassifiedGrows(lines, line);
    FramesGrow(Classified(lines), ClassifyLine(line));
    if Sse.EventOverflows(limits.maxEventBytes, Classified(lines), ClassifyLine(line)) {
      FirstMisfitIs(limits, all, |lines|);
    } else {
      AllFitGrows(limits, lines, line);
      FirstMisfitIs(limits, all, |all|);
    }
  }

  /** `End` overflows a line exactly when an unfinished byte order mark is over the bound, so
      never with a bound of two bytes or more. */
  lemma EndOverflowsALine(limits: Limits, input: seq<byte>)
    requires OutcomeOf(limits, input, false).Running?
    ensures (OutcomeOf(limits, input, true).Stopped? && OutcomeOf(limits, input, true).overflow.Line?)
            <==> !BomDecided(input) && |input| > limits.maxLineBytes
  {
    EndDoes(limits, input);
  }

  /** One byte of a mark under a bound of none: `feed` accepts it, and `end` refuses a line. */
  lemma EndCanOverflowALine()
    ensures OutcomeOf(Limits(0, 0), [0xEF], false) == Running([])
    ensures OutcomeOf(Limits(0, 0), [0xEF], true) == Stopped([], Overflow.Line(0))
  {
    assert [0xEF] == BOM[..1];
    UndecidedBomIsContent([0xEF]);
    EndDoes(Limits(0, 0), [0xEF]);
  }

  // ---------- How much is held ----------

  /** What is left of a running stream is content within the bound and at most a held CR, or an
      unfinished mark. */
  lemma RestOfRunning(limits: Limits, fed: seq<byte>)
    requires OutcomeOf(limits, fed, false).Running?
    ensures var rest := Split(StripBom(fed), false).rest;
            if BomDecided(fed) then
              ContentLen(rest) <= limits.maxLineBytes && |rest| == ContentLen(rest) + if EndsInCr(rest) then 1 else 0
            else rest == fed && |fed| <= 2
  {
    hide Classified, Frames;
    var rest := Split(StripBom(fed), false).rest;
    if BomDecided(fed) {
      RestIsUndecided(StripBom(fed), false);
      assert rest != [] && ContentLen(rest) == |rest| ==> !IsTerminator(rest[|rest| - 1]);
    } else {
      UndecidedBomIsContent(fed);
    }
  }

  /** Between calls, and at any moment before. */
  lemma MemoryIsBounded(p: Push.Parser)
    requires p.Valid()
    ensures |p.lineSplitter.buf| <= Push.Max(p.limits.maxLineBytes + 1, 2)
    ensures p.peak <= Push.Max(p.limits.maxLineBytes + 1, 2) + 65536
    ensures Len(p.dispatcher.pendingData) <= p.limits.maxEventBytes
    ensures Len(p.dispatcher.pendingEvent) <= 3 * p.limits.maxLineBytes
    ensures p.dispatcher.lastEventId.Some? ==> Len(p.dispatcher.lastEventId.value) <= 3 * p.limits.maxLineBytes
  {
    hide OutcomeOf;
    if OutcomeOf(p.limits, p.fed, p.ended).Running? {
      p.SettledBufferIsBounded();
      ValuesAreBounded(p.limits, p.lineSplitter.taken);
      BuffersAreBounded(p.dispatcher.history, 3 * p.limits.maxLineBytes);
    }
  }

  /** The same over the stream: while any chunk is copied in, after any stream. */
  lemma {:induction false} HeldWhileIsBounded(limits: Limits, fed: seq<byte>, chunk: seq<byte>)
    ensures Push.HeldWhile(limits, fed, chunk) <= Push.Max(limits.maxLineBytes + 1, 2) + 65536
    decreases |chunk|
  {
    hide OutcomeOf, Split, StripBom, ContentLen, BomDecided;
    if chunk != [] && OutcomeOf(limits, fed, false).Running? {
      var n := if |chunk| < Push.FEED_PIECE_BYTES then |chunk| else Push.FEED_PIECE_BYTES;
      RestOfRunning(limits, fed);
      HeldWhileIsBounded(limits, fed + chunk[..n], chunk[n..]);
    }
  }

  /** The documented bound, the line bound and one piece, is crossed exactly when a full piece
      comes upon a line as long as the bound with its CR held, or upon an unfinished mark longer
      than the bound by what the piece is short of full. */
  lemma StatedBoundIsCrossed(limits: Limits, fed: seq<byte>, piece: seq<byte>)
    requires OutcomeOf(limits, fed, false).Running? && |piece| <= 65536
    ensures var rest := Split(StripBom(fed), false).rest;
            |rest| + |piece| > limits.maxLineBytes + 65536
            <==> if BomDecided(fed) then
                   |piece| == 65536 && ContentLen(rest) == limits.maxLineBytes && EndsInCr(rest)
                 else |fed| - limits.maxLineBytes > 65536 - |piece|
  {
    hide OutcomeOf, Split, StripBom, ContentLen, BomDecided;
    RestOfRunning(limits, fed);
  }

  /** With a bound of two bytes or more a mark has no part in it. */
  lemma OnlyAHeldCrCrosses(limits: Limits, fed: seq<byte>, piece: seq<byte>)
    requires OutcomeOf(limits, fed, false).Running? && |piece| <= 65536
    requires limits.maxLineBytes >= 2
    ensures var rest := Split(StripBom(fed), false).rest;
            |rest| + |piece| > limits.maxLineBytes + 65536
            <==> |piece| == 65536 && ContentLen(rest) == limits.maxLineBytes && EndsInCr(rest)
  {
    hide OutcomeOf, Split, StripBom;
    StatedBoundIsCrossed(limits, fed, piece);
    RestOfRunning(limits, fed);
    if !BomDecided(fed) {
      UndecidedBomIsContent(fed);
      assert forall i :: 0 <= i < |fed| ==> fed[i] == BOM[i];
    }
  }

  /** What takes the buffer to its bound: a line as long as the bound and its CR, or under a
      bound of none two bytes of a mark. */
  ghost function Fullest(limits: Limits): seq<byte> {
    if limits.maxLineBytes == 0 then BOM[..2] else HeldCr(limits.maxLineBytes)
  }

  function HeldCr(length: nat): seq<byte> {
    var x: byte := 0x78;
    seq(length, _ => x) + [CR]
  }

  lemma FullestRuns(limits: Limits)
    ensures OutcomeOf(limits, Fullest(limits), false).Running?
    ensures |Split(StripBom(Fullest(limits)), false).rest| == |Fullest(limits)| == Push.BufferBound(limits)
  {
    if limits.maxLineBytes == 0 {
      UndecidedBomIsContent(BOM[..2]);
      OutcomeWhenDrained(limits, Cut([], BOM[..2]), false);
    } else {
      HeldCrCostsOneByte(limits);
    }
  }

  /** Under every limit some run takes the buffer exactly to its bound, and so past the one
      documented: feed `Fullest`, then any full piece. */
  method FillTheBuffer(limits: Limits, chunk: seq<byte>, piece: seq<byte>)
    returns (first: Result<(), Overflow>, ghost peak: nat)
    requires chunk == Fullest(limits) && |piece| == 65536
    ensures first == Ok(())
    ensures peak == Push.Max(limits.maxLineBytes + 1, 2) + 65536 > limits.maxLineBytes + 65536
  {
    hide OutcomeOf, Push.Parser.Valid, Push.HeldWhile, Fullest, Split, StripBom;
    FullestRuns(limits);
    var p := new Push.Parser.WithLimits(limits);
    first := p.Feed(chunk);
    assert [] + chunk == chunk;
    p.EmittedInOrder();
    HeldWhileOnePiece(limits, chunk, piece);
    HeldWhileIsBounded(limits, [], chunk);
    var second := p.Feed(piece);
    peak := p.peak;
  }

  lemma HeldWhileOnePiece(limits: Limits, fed: seq<byte>, piece: seq<byte>)
    requires OutcomeOf(limits, fed, false).Running? && |piece| == Push.FEED_PIECE_BYTES
    ensures Push.HeldWhile(limits, fed, piece) == |Split(StripBom(fed), false).rest| + Push.FEED_PIECE_BYTES
  {
    hide OutcomeOf, Split;
    assert piece[Push.FEED_PIECE_BYTES..] == [];
  }

  ghost predicate ValuesWithin(lines: seq<LineKind>, max: nat) {
    forall i :: 0 <= i < |lines| && lines[i].Field? ==> Len(lines[i].value) <= max
  }

  lemma ValueIsBounded(line: seq<byte>)
    ensures ClassifyLine(line).Field? ==> Len(ClassifyLine(line).value) <= 3 * |line|
  {
    var colon := Position(line, COLON);
    if 0 < colon < |line| {
      var after := line[colon + 1..];
      var value := if after != [] && after[0] == SPACE then after[1..] else after;
      LossyIsDecode(value);
      DecodedLength(value);
    }
  }

  lemma ValuesAreBounded(limits: Limits, lines: seq<seq<byte>>)
    requires AllFit(limits, lines)
    ensures ValuesWithin(Classified(lines), 3 * limits.maxLineBytes)
  {
    forall i | 0 <= i < |lines| && ClassifyLine(lines[i]).Field?
      ensures Len(ClassifyLine(lines[i]).value) <= 3 * limits.maxLineBytes
    {
      assert Fits(limits, lines, i);
      ValueIsBounded(lines[i]);
    }
  }

  lemma {:induction false} SelectedValuesAreBounded(lines: seq<LineKind>, name: string, max: nat)
    requires ValuesWithin(lines, max)
    ensures forall v :: v in Values(lines, name) ==> Len(v) <= max
    decreases |lines|
  {
    if lines != [] {
      SelectedValuesAreBounded(lines[1..], name, max);
    }
  }

  lemma {:induction false} BlockIsWithin(lines: seq<LineKind>, max: nat)
    requires ValuesWithin(lines, max)
    ensures ValuesWithin(Block(lines), max)
    decreases |lines|
  {
    if lines != [] && !lines[|lines| - 1].Blank? {
      BlockIsWithin(lines[..|lines| - 1], max);
    }
  }

  lemma {:induction false} NulFreeSelects(values: seq<string>)
    ensures forall v :: v in NulFree(values) ==> v in values
    decreases |values|
  {
    if values != [] {
      NulFreeSelects(values[1..]);
    }
  }

  lemma BuffersAreBounded(lines: seq<LineKind>, max: nat)
    requires ValuesWithin(lines, max)
    ensures Len(EventType(lines)) <= max
    ensures LastId(lines).Some? ==> Len(LastId(lines).value) <= max
  {
    BlockIsWithin(lines, max);
    SelectedValuesAreBounded(Block(lines), "event", max);
    SelectedValuesAreBounded(lines, "id", max);
    NulFreeSelects(Values(lines, "id"));
  }

  /** Between calls too the buffer may be a byte over the limit, for a CR held at its end. */
  lemma HeldCrCostsOneByte(limits: Limits)
    ensures OutcomeOf(limits, HeldCr(limits.maxLineBytes), false).Running?
    ensures var rest := Split(StripBom(HeldCr(limits.maxLineBytes)), false).rest;
            rest == HeldCr(limits.maxLineBytes) && |rest| == limits.maxLineBytes + 1
  {
    var input := HeldCr(limits.maxLineBytes);
    assert input[0] != BOM[0];
    ContentLenIs(input, limits.maxLineBytes);
    OutcomeWhenDrained(limits, Cut([], input), true);
  }

  // ---------- What a message holds ----------

  /** The data of every message is within the event bound, and one byte below it. */
  lemma MessagesAreBounded(limits: Limits, input: seq<byte>, ended: bool)
    ensures forall f :: f in OutcomeOf(limits, input, ended).frames && f.MessageFrame? ==>
              Len(f.message.data) < limits.maxEventBytes
  {
    hide Split, StripBom, Frames, Classified;
    var lines := Split(StripBom(input), ended).lines;
    AllFitUpToMisfit(limits, lines);
    FramesAreBounded(limits, lines[..FirstMisfit(limits, lines, 0)]);
  }

  lemma {:induction false} FramesAreBounded(limits: Limits, lines: seq<seq<byte>>)
    requires AllFit(limits, lines)
    ensures forall f :: f in Frames(Classified(lines)) && f.MessageFrame? ==>
              Len(f.message.data) < limits.maxEventBytes
    decreases |lines|
  {
    hide FrameOf, Encode, ClassifyLine, AllFit, Fits;
    if lines != [] {
      var n := |lines| - 1;
      AllFitBefore(limits, lines, n);
      FramesAreBounded(limits, lines[..n]);
      assert Classified(lines)[..n] == Classified(lines[..n]);
      MessageIsBounded(limits, lines, n);
    }
  }

  lemma AllFitBefore(limits: Limits, lines: seq<seq<byte>>, k: nat)
    requires AllFit(limits, lines) && k <= |lines|
    ensures AllFit(limits, lines[..k])
  {
    assert lines == lines[..k] + lines[k..];
    forall j | 0 <= j < k ensures Fits(limits, lines[..k], j) {
      FitsInLonger(limits, lines[..k], lines[k..], j);
    }
  }

  lemma MessageIsBounded(limits: Limits, lines: seq<seq<byte>>, k: nat)
    requires AllFit(limits, lines) && k < |lines|
    ensures var frame := FrameOf(Classified(lines[..k]), ClassifyLine(lines[k]));
            frame.Some? && frame.value.MessageFrame? ==> Len(frame.value.message.data) < limits.maxEventBytes
  {
    PendingDataFits(limits, lines, k);
    var data := JoinLf(Values(Block(Classified(lines[..k])), "data"));
    EncodeConcat(data, "\n");
    assert Encode("\n") == EncodeChar('\n') + Encode("");
  }

  lemma {:induction false} PendingDataFits(limits: Limits, lines: seq<seq<byte>>, k: nat)
    requires AllFit(limits, lines) && k <= |lines|
    ensures Len(Sse.PendingData(Classified(lines[..k]))) <= limits.maxEventBytes
    decreases k
  {
    hide ClassifyLine, EncodeChar;
    if k > 0 {
      var before, kind := Classified(lines[..k - 1]), ClassifyLine(lines[k - 1]);
      PendingDataFits(limits, lines, k - 1);
      assert lines[..k] == lines[..k - 1] + [lines[k - 1]];
      ClassifiedGrows(lines[..k - 1], lines[k - 1]);
      assert Fits(limits, lines, k - 1);
      match kind
      case Blank => Sse.BlankClearsBuffers(before);
      case Comment => Sse.CommentChangesNothing(before);
      case Field(name, value) =>
        Sse.FieldUpdatesBuffers(before, name, value);
        Sse.LenOfData(Sse.PendingData(before), value);
    }
  }
}
