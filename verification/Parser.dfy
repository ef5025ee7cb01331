/**
 The push parser: chunks in, frames out, both bounds enforced piece by piece.

 Ghost fields remember what was fed and what was popped. The invariant says that this history
 determines everything the parser holds, so how the bytes were cut into chunks cannot show.
 */
module Parser {
  import opened Utf8
  import opened Lines
  import opened Field
  import opened EventStream
  import opened Limits
  import opened Outcome
  import opened Wrappers
  import Sse = Dispatcher
  import Splitter = LineSplitter

  const FEED_PIECE_BYTES: nat := 64 * 1024

  ghost function Max(a: nat, b: nat): nat {
    if a < b then b else a
  }

  /** The most the line buffer holds between two calls. */
  ghost function BufferBound(limits: Limits): nat {
    Max(limits.maxLineBytes + 1, 2)
  }

  /** The most the line buffer holds while `chunk` is copied in after `fed`, piece by piece. */
  ghost function HeldWhile(limits: Limits, fed: seq<byte>, chunk: seq<byte>): nat
    decreases |chunk|
  {
    if chunk == [] || OutcomeOf(limits, fed, false).Stopped? then 0
    else
      var n := if |chunk| < FEED_PIECE_BYTES then |chunk| else FEED_PIECE_BYTES;
      Max(|Split(StripBom(fed), false).rest| + n, HeldWhile(limits, fed + chunk[..n], chunk[n..]))
  }

  /** How many of the pieces that `chunk` is copied in by end in a CR. */
  function PiecesEndingInCr(chunk: seq<byte>): nat
    decreases |chunk|
  {
    if chunk == [] then 0
    else
      var n := if |chunk| < FEED_PIECE_BYTES then |chunk| else FEED_PIECE_BYTES;
      PiecesEndingInCr(chunk[n..]) + if EndsInCr(chunk[..n]) then 1 else 0
  }

  class Parser {
    var lineSplitter: Splitter.LineSplitter
    var dispatcher: Sse.Dispatcher
    var queue: seq<Frame>
    var closed: bool

    ghost const limits: Limits
    /** All bytes fed before the parser closed, and whether `End` closed it. */
    ghost var fed: seq<byte>
    ghost var ended: bool
    ghost var popped: seq<Frame>
    /** All frames ever queued, popped or not. */
    ghost var emitted: seq<Frame>
    /** Rounds of the scan loop, pieces copied in that end in a CR, and the most the line buffer
        ever held. */
    ghost var looks: nat
    ghost var crPieces: nat
    ghost var peak: nat

    ghost function Repr(): set<object>
      reads this
    {
      {this, lineSplitter, dispatcher}
    }

    /** Splitter and dispatcher agree on the lines taken, and all of them were within bounds. */
    ghost predicate Working()
      reads this, lineSplitter, dispatcher
    {
      && lineSplitter.Valid() && dispatcher.Valid()
      && lineSplitter.maxLineBytes == limits.maxLineBytes
      && dispatcher.maxEventBytes == limits.maxEventBytes
      && dispatcher.history == Classified(lineSplitter.taken)
      && AllFit(limits, lineSplitter.taken)
      && emitted == popped + queue == Frames(dispatcher.history)
    }

    ghost predicate Settled()
      reads this, lineSplitter, dispatcher
    {
      && Working() && lineSplitter.Drained()
      && (lineSplitter.bomState.Resolved? ==> ContentLen(lineSplitter.buf) <= limits.maxLineBytes)
    }

    ghost predicate Abandoned()
      reads this, lineSplitter, dispatcher
    {
      && closed
      && lineSplitter.buf == [] && lineSplitter.scanFrom == 0 && lineSplitter.maxLineBytes == 0
      && lineSplitter.bomState.Pristine? && !lineSplitter.closed
      && dispatcher.pendingEvent == "" && dispatcher.pendingData == "" && dispatcher.lastEventId == None
      && dispatcher.maxEventBytes == 0
    }

    ghost predicate Valid()
      reads this, lineSplitter, dispatcher
    {
      && emitted == popped + queue
      && emitted == OutcomeOf(limits, fed, ended).frames
      && looks <= |fed| + crPieces
      && peak <= BufferBound(limits) + FEED_PIECE_BYTES
      && match OutcomeOf(limits, fed, ended)
         case Running(_) =>
           && Settled() && closed == ended == lineSplitter.closed && lineSplitter.input == fed
           && lineSplitter.looks == looks && lineSplitter.holds == crPieces
         case Stopped(_, _) => Abandoned()
    }

    constructor WithLimits(limits: Limits)
      ensures Valid() && fresh(Repr())
      ensures this.limits == limits && fed == [] && !ended && !closed && popped == [] && emitted == []
      ensures looks == crPieces == peak == 0
    {
      hide Valid, Splitter.LineSplitter.Valid, Splitter.LineSplitter.Refines, Splitter.LineSplitter.Drained;
      hide Sse.Dispatcher.Valid;
      lineSplitter := new Splitter.LineSplitter(limits.maxLineBytes);
      dispatcher := new Sse.Dispatcher(limits.maxEventBytes);
      queue, closed := [], false;
      this.limits, fed, ended, popped, emitted := limits, [], false, [], [];
      looks, crPieces, peak := 0, 0, 0;
      new;
      FreshIsValid();
    }

    lemma FreshIsValid()
      requires lineSplitter.Valid() && lineSplitter.Drained() && dispatcher.Valid()
      requires lineSplitter.maxLineBytes == limits.maxLineBytes && dispatcher.maxEventBytes == limits.maxEventBytes
      requires lineSplitter.input == [] && lineSplitter.taken == [] && lineSplitter.buf == []
      requires lineSplitter.looks == lineSplitter.holds == 0 && !lineSplitter.closed
      requires dispatcher.history == [] && fed == [] && !ended && !closed && popped == queue == emitted == []
      requires looks == crPieces == peak == 0
      ensures Valid()
    {
      hide OutcomeOf, Frames, Classified, AllFit, ContentLen;
      hide Splitter.LineSplitter.Valid, Splitter.LineSplitter.Drained, Sse.Dispatcher.Valid;
      NothingFed(limits);
    }

    /** Feeds a chunk. The error, and the frames that stay, are those of the first line in the
        stream to cross a bound. */
    method Feed(chunk: seq<byte>) returns (r: Result<(), Overflow>)
      requires Valid()
      modifies Repr()
      ensures Valid() && fresh(Repr() - old(Repr()))
      ensures popped == old(popped) && ended == old(ended)
      ensures old(closed) ==> r == Ok(()) && unchanged(this)
      ensures !old(closed) ==>
                && fed == old(fed) + chunk
                && r == (match OutcomeOf(limits, fed, false)
                         case Running(_) => Ok(())
                         case Stopped(_, overflow) => Err(overflow))
      ensures old(emitted) <= emitted
      ensures !old(closed) ==>
                if r.Ok? then crPieces == old(crPieces) + PiecesEndingInCr(chunk)
                else crPieces <= old(crPieces) + PiecesEndingInCr(chunk)
      ensures !old(closed) ==> peak == Max(old(peak), HeldWhile(limits, old(fed), chunk))
      ensures !old(closed) && chunk != [] ==> looks == old(lineSplitter).looks
    {
      hide OutcomeOf, Valid, HeldWhile, Split, StripBom, Max, BufferBound, PiecesEndingInCr;
      if closed {
        return Ok(());
      }
      OpenIsRunning();
      EmittedInOrder();
      FramesOnlyGrow(limits, fed, chunk, false);
      ghost var before, top := fed, Max(peak, HeldWhile(limits, fed, chunk));
      assert chunk[0..] == chunk && chunk[..0] == [] && before + [] == before;
      var i := 0;
      while i < |chunk|
        invariant 0 <= i <= |chunk|
        invariant Valid() && !closed && !ended && Repr() == old(Repr())
        invariant OutcomeOf(limits, fed, false).Running?
        invariant fed == before + chunk[..i]
        invariant popped == old(popped) && lineSplitter == old(lineSplitter)
        invariant i > 0 ==> looks == lineSplitter.looks
        invariant top == Max(peak, HeldWhile(limits, fed, chunk[i..]))
        invariant crPieces + PiecesEndingInCr(chunk[i..]) == old(crPieces) + PiecesEndingInCr(chunk)
      {
        var n := if |chunk| - i < FEED_PIECE_BYTES then |chunk| - i else FEED_PIECE_BYTES;
        CutsInThree(before, chunk, i, n);
        HeldWhileStep(limits, fed, chunk, i, n, peak);
        PiecesStep(chunk, i, n);
        var overflow := FeedPiece(chunk[i..i + n]);
        if overflow.Err? {
          Ignore(chunk[i + n..]);
          EmittedInOrder();
          return overflow;
        }
        i := i + n;
      }
      assert chunk[..i] == chunk && chunk[i..] == [];
      HeldWhileNothing(limits, fed, peak);
      EmittedInOrder();
      return Ok(());
    }

    /** The bytes of a chunk after the piece that crossed a bound reach nothing. */
    ghost method Ignore(rest: seq<byte>)
      requires Valid() && !ended && OutcomeOf(limits, fed, false).Stopped?
      modifies `fed
      ensures Valid() && fed == old(fed) + rest
      ensures OutcomeOf(limits, fed, false) == old(OutcomeOf(limits, fed, false))
    {
      StoppedIsFinal(limits, fed, rest, false);
      fed := fed + rest;
    }

    /** Copies one piece in and drains it. */
    method FeedPiece(piece: seq<byte>) returns (r: Result<(), Overflow>)
      requires Valid() && !closed && 0 < |piece| <= FEED_PIECE_BYTES
      modifies Repr()
      ensures Valid() && fresh(Repr() - old(Repr()))
      ensures fed == old(fed) + piece && popped == old(popped) && ended == old(ended)
      ensures crPieces == old(crPieces) + (if EndsInCr(piece) then 1 else 0) && looks == old(lineSplitter).looks
      ensures peak == Max(old(peak), |Split(StripBom(old(fed)), false).rest| + |piece|)
      ensures r.Ok? ==> lineSplitter == old(lineSplitter) && Repr() == old(Repr())
      ensures r == match OutcomeOf(limits, fed, false)
                   case Running(_) => Ok(())
                   case Stopped(_, overflow) => Err(overflow)
      ensures r.Ok? ==> !closed && OutcomeOf(limits, fed, false).Running?
    {
      hide OutcomeOf, Frames, Classified, AllFit, ContentLen, Split, StripBom;
      hide Splitter.LineSplitter.Valid, Splitter.LineSplitter.Drained, Sse.Dispatcher.Valid;
      CopyIn(piece);
      r := DrainLines();
      looks := lineSplitter.looks;
      if r.Err? {
        Abandon();
      } else {
        SettledIsRunning();
      }
    }

    /** Copies one piece into the line buffer, which is then at its fullest. */
    method CopyIn(piece: seq<byte>)
      requires Valid() && !closed && 0 < |piece| <= FEED_PIECE_BYTES
      modifies `fed, `crPieces, `peak, lineSplitter
      ensures Working() && !lineSplitter.closed && lineSplitter.input == fed == old(fed) + piece
      ensures crPieces == old(crPieces) + (if EndsInCr(fed) then 1 else 0) && lineSplitter.holds == old(crPieces)
      ensures EndsInCr(fed) <==> EndsInCr(piece)
      ensures |lineSplitter.buf| == |Split(StripBom(old(fed)), false).rest| + |piece|
      ensures peak == Max(old(peak), |lineSplitter.buf|) <= BufferBound(limits) + FEED_PIECE_BYTES
    {
      hide OutcomeOf, Frames, Classified, AllFit, ContentLen, Split, StripBom;
      hide Splitter.LineSplitter.Valid, Splitter.LineSplitter.Drained, Sse.Dispatcher.Valid;
      SettledBufferIsBounded();
      lineSplitter.Feed(piece);
      fed := fed + piece;
      crPieces := crPieces + if EndsInCr(piece) then 1 else 0;
      peak := Max(peak, |lineSplitter.buf|);
    }

    /** Ends the stream: a held CR completes its line, a last line without terminator is dropped. */
    method End() returns (r: Result<(), Overflow>)
      requires Valid()
      modifies Repr()
      ensures Valid() && fresh(Repr() - old(Repr()))
      ensures old(emitted) <= emitted
      ensures closed && popped == old(popped) && fed == old(fed) && crPieces == old(crPieces) && peak == old(peak)
      ensures old(closed) ==> r == Ok(()) && unchanged(this)
      ensures !old(closed) ==>
                && ended && looks == old(lineSplitter).looks
                && r == match OutcomeOf(limits, fed, true)
                        case Running(_) => Ok(())
                        case Stopped(_, overflow) => Err(overflow)
    {
      hide OutcomeOf, Frames, Classified, AllFit, ContentLen, Split, StripBom, BufferBound, Max;
      hide Splitter.LineSplitter.Refines;
      hide Splitter.LineSplitter.Valid, Splitter.LineSplitter.Drained, Sse.Dispatcher.Valid;
      if closed {
        return Ok(());
      }
      EndOnlyAdds();
      lineSplitter.End();
      ended := true;
      r := DrainLines();
      looks := lineSplitter.looks;
      if r.Err? {
        Abandon();
      } else {
        SettledIsRunning();
      }
      closed := true;
    }

    /** Pops the oldest frame not yet popped. */
    method NextFrame() returns (frame: Option<Frame>)
      requires Valid()
      modifies this
      ensures Valid() && Repr() == old(Repr())
      ensures fed == old(fed) && ended == old(ended) && closed == old(closed)
      ensures crPieces == old(crPieces) && looks == old(looks) && peak == old(peak)
      ensures queue == if old(queue) == [] then [] else old(queue)[1..]
      ensures emitted == old(emitted) == popped + queue
      ensures popped == if old(queue) == [] then old(popped) else old(popped) + [old(queue)[0]]
      ensures frame == if old(queue) == [] then None else Some(old(queue)[0])
    {
      hide OutcomeOf, Frames, Classified, AllFit, ContentLen;
      hide Splitter.LineSplitter.Valid, Splitter.LineSplitter.Drained, Sse.Dispatcher.Valid;
      if queue == [] {
        return None;
      }
      frame := Some(queue[0]);
      assert popped + queue == (popped + [queue[0]]) + queue[1..];
      popped := popped + [queue[0]];
      queue := queue[1..];
    }

    method DrainLines() returns (r: Result<(), Overflow>)
      requires Working()
      modifies `queue, `emitted, lineSplitter, dispatcher
      ensures lineSplitter.input == old(lineSplitter.input) && lineSplitter.closed == old(lineSplitter.closed)
      ensures lineSplitter.looks <= |lineSplitter.input| + lineSplitter.holds
      ensures var more := if !lineSplitter.closed && EndsInCr(lineSplitter.input) then 1 else 0;
              && lineSplitter.holds <= old(lineSplitter.holds) + more
              && (r.Ok? ==> lineSplitter.holds == old(lineSplitter.holds) + more)
      ensures emitted == popped + queue
      ensures r.Ok? ==> r == Ok(()) && Settled()
      ensures r.Err? ==>
                OutcomeOf(limits, lineSplitter.input, lineSplitter.closed) == Stopped(emitted, r.error)
    {
      hide OutcomeOf, Frames, Classified, AllFit, ContentLen;
      hide Splitter.LineSplitter.Valid, Splitter.LineSplitter.Drained, Sse.Dispatcher.Valid;
      while true
        invariant Working()
        invariant lineSplitter.input == old(lineSplitter.input)
        invariant lineSplitter.closed == old(lineSplitter.closed)
        invariant lineSplitter.holds == old(lineSplitter.holds)
        decreases |lineSplitter.buf|
      {
        var next := lineSplitter.NextLine();
        if next.Err? {
          StopsAtLine(lineSplitter, limits);
          return Err(next.error);
        }
        if next.value.None? {
          return Ok(());
        }
        var accepted := TakeLine(next.value.value);
        if accepted.Err? {
          return accepted;
        }
      }
    }

    /** Hands one line to the dispatcher and queues the frame it makes. */
    method TakeLine(line: seq<byte>) returns (r: Result<(), Overflow>)
      requires lineSplitter.Valid() && dispatcher.Valid() && lineSplitter.bomState.Resolved?
      requires lineSplitter.maxLineBytes == limits.maxLineBytes
      requires dispatcher.maxEventBytes == limits.maxEventBytes
      requires |lineSplitter.taken| > 0 && |line| <= limits.maxLineBytes
      requires lineSplitter.taken == lineSplitter.taken[..|lineSplitter.taken| - 1] + [line]
      requires dispatcher.history == Classified(lineSplitter.taken[..|lineSplitter.taken| - 1])
      requires AllFit(limits, lineSplitter.taken[..|lineSplitter.taken| - 1])
      requires emitted == popped + queue == Frames(dispatcher.history)
      modifies `queue, `emitted, dispatcher
      ensures emitted == popped + queue
      ensures r.Ok? ==> Working()
      ensures r.Err? ==>
                OutcomeOf(limits, lineSplitter.input, lineSplitter.closed) == Stopped(emitted, r.error)
    {
      hide OutcomeOf, Frames, Classified, AllFit, ContentLen;
      hide Splitter.LineSplitter.Valid, Splitter.LineSplitter.Drained, Sse.Dispatcher.Valid;
      ghost var before := lineSplitter.taken[..|lineSplitter.taken| - 1];
      var kind := ClassifyLine(line);
      ClassifiedGrows(before, line);
      FramesGrow(dispatcher.history, kind);
      var made: Option<Frame> := None;
      match kind {
        case Blank =>
          made := dispatcher.Dispatch();
        case Comment =>
          dispatcher.PassComment();
        case Field(name, value) =>
          var outcome := dispatcher.ProcessField(name, value);
          if outcome.Err? {
            StopsAtEvent(lineSplitter, limits, before, line);
            return Err(outcome.error);
          }
          made := outcome.value;
      }
      if made.Some? {
        assert popped + (queue + [made.value]) == (popped + queue) + [made.value];
        queue, emitted := queue + [made.value], emitted + [made.value];
      }
      ThisLineFits(limits, before, line);
      return Ok(());
    }

    /** Closes after a crossed bound, with nothing of the stream kept but the frames queued. */
    method Abandon()
      modifies `closed, `lineSplitter, `dispatcher
      ensures Abandoned() && fresh(lineSplitter) && fresh(dispatcher)
    {
      closed := true;
      lineSplitter := new Splitter.LineSplitter(0);
      dispatcher := new Sse.Dispatcher(0);
    }

    lemma EmittedInOrder()
      requires Valid()
      ensures emitted == popped + queue
      ensures emitted == OutcomeOf(limits, fed, ended).frames
      ensures looks <= |fed| + crPieces
      ensures closed <==> ended || OutcomeOf(limits, fed, ended).Stopped?
    {
    }

    lemma EndOnlyAdds()
      requires Valid() && !closed
      ensures emitted <= OutcomeOf(limits, fed, true).frames
    {
      hide OutcomeOf;
      FramesOnlyGrow(limits, fed, [], true);
      assert fed + [] == fed;
    }

    lemma OpenIsRunning()
      requires Valid() && !closed
      ensures !ended && OutcomeOf(limits, fed, false).Running?
    {
    }

    lemma SettledBufferIsBounded()
      requires Settled()
      ensures |lineSplitter.buf| <= BufferBound(limits)
      ensures lineSplitter.buf == Split(StripBom(lineSplitter.input), lineSplitter.closed).rest
    {
      var s := lineSplitter;
      RestIsUndecided(StripBom(s.input), s.closed);
      if s.bomState.Pristine? {
        UndecidedBomIsContent(s.input);
      }
    }

    lemma SettledIsRunning()
      requires Settled()
      ensures OutcomeOf(limits, lineSplitter.input, lineSplitter.closed) == Running(emitted)
    {
      var s := lineSplitter;
      OutcomeWhenDrained(limits, Cut(s.taken, s.buf), s.bomState.Resolved?);
    }
  }

  lemma HeldWhileStep(limits: Limits, fed: seq<byte>, chunk: seq<byte>, i: nat, n: nat, peak: nat)
    requires i < |chunk| && OutcomeOf(limits, fed, false).Running?
    requires n == if |chunk| - i < FEED_PIECE_BYTES then |chunk| - i else FEED_PIECE_BYTES
    ensures var after := Max(peak, |Split(StripBom(fed), false).rest| + n);
            && Max(peak, HeldWhile(limits, fed, chunk[i..]))
               == Max(after, HeldWhile(limits, fed + chunk[i..i + n], chunk[i + n..]))
            && (OutcomeOf(limits, fed + chunk[i..i + n], false).Stopped? ==>
                  Max(peak, HeldWhile(limits, fed, chunk[i..])) == after)
  {
    hide OutcomeOf, Split;
    assert chunk[i..][..n] == chunk[i..i + n] && chunk[i..][n..] == chunk[i + n..];
  }

  lemma PiecesStep(chunk: seq<byte>, i: nat, n: nat)
    requires i < |chunk| && n == if |chunk| - i < FEED_PIECE_BYTES then |chunk| - i else FEED_PIECE_BYTES
    ensures PiecesEndingInCr(chunk[i..])
            == PiecesEndingInCr(chunk[i + n..]) + if EndsInCr(chunk[i..i + n]) then 1 else 0
  {
    hide EndsInCr;
    assert chunk[i..][..n] == chunk[i..i + n] && chunk[i..][n..] == chunk[i + n..];
  }

  lemma HeldWhileNothing(limits: Limits, fed: seq<byte>, peak: nat)
    ensures Max(peak, HeldWhile(limits, fed, [])) == peak && PiecesEndingInCr([]) == 0
  {
  }

  lemma NothingFed(limits: Limits)
    ensures OutcomeOf(limits, [], false) == Running([])
    ensures Classified([]) == [] && Frames([]) == [] && AllFit(limits, []) && ContentLen([]) == 0
  {
    OutcomeWhenDrained(limits, Cut([], []), false);
  }

  lemma CutsInThree(before: seq<byte>, chunk: seq<byte>, i: nat, n: nat)
    requires i + n <= |chunk|
    ensures before + chunk[..i + n] == (before + chunk[..i]) + chunk[i..i + n]
    ensures before + chunk == (before + chunk[..i + n]) + chunk[i + n..]
  {
  }

  lemma ThisLineFits(limits: Limits, before: seq<seq<byte>>, line: seq<byte>)
    requires AllFit(limits, before) && |line| <= limits.maxLineBytes
    requires !Sse.EventOverflows(limits.maxEventBytes, Classified(before), ClassifyLine(line))
    ensures AllFit(limits, before + [line])
  {
    assert (before + [line])[..|before|] == before;
    AllFitGrows(limits, before, line);
  }

  lemma StopsAtLine(s: Splitter.LineSplitter, limits: Limits)
    requires s.Refines() && s.bomState.Resolved? && AllFit(limits, s.taken)
    requires ContentLen(s.buf) > limits.maxLineBytes
    ensures OutcomeOf(limits, s.input, s.closed)
            == Stopped(Frames(Classified(s.taken)), Overflow.Line(limits.maxLineBytes))
  {
    OutcomeAtRefusedLine(limits, Cut(s.taken, s.buf), s.closed);
  }

  lemma StopsAtEvent(s: Splitter.LineSplitter, limits: Limits, before: seq<seq<byte>>, line: seq<byte>)
    requires s.Valid() && s.bomState.Resolved? && s.taken == before + [line] && AllFit(limits, before)
    requires |line| <= limits.maxLineBytes
    requires Sse.EventOverflows(limits.maxEventBytes, Classified(before), ClassifyLine(line))
    ensures OutcomeOf(limits, s.input, s.closed)
            == Stopped(Frames(Classified(before)), Event(limits.maxEventBytes))
  {
    OutcomeAtRefusedEvent(limits, before, line, s.buf, s.closed);
  }
}
