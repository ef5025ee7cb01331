/**
 The parser over whole runs: chunks of any size, frames popped at any time, either end.
 */
module Streaming {
  import opened Utf8
  import opened Lines
  import opened EventStream
  import opened Limits
  import opened Outcome
  import opened Standard
  import opened Wrappers
  import Push = Parser
  import Sse = Dispatcher
  import Splitter = LineSplitter

  // ---------- Nothing but the bytes decides the state ----------

  datatype Held = Held(
    buf: seq<byte>, scanFrom: nat, bomState: Splitter.BomState, splitterClosed: bool, maxLineBytes: nat,
    pendingEvent: string, pendingData: string, lastEventId: Option<string>, maxEventBytes: nat,
    closed: bool)

  /** Every field of a parser, its splitter and its dispatcher, except the queue. */
  ghost function HeldBy(p: Push.Parser): Held
    reads p, p.lineSplitter, p.dispatcher
  {
    var s, d := p.lineSplitter, p.dispatcher;
    Held(s.buf, s.scanFrom, s.bomState, s.closed, s.maxLineBytes,
         d.pendingEvent, d.pendingData, d.lastEventId, d.maxEventBytes, p.closed)
  }

  /** The same fields, computed from all bytes fed and whether the stream was ended. */
  ghost function HeldAfter(limits: Limits, fed: seq<byte>, ended: bool): Held {
    if OutcomeOf(limits, fed, ended).Stopped? then
      Held([], 0, Splitter.Pristine, false, 0, "", "", None, 0, true)
    else
      var cut := Split(StripBom(fed), ended);
      var lines := Classified(cut.lines);
      Held(cut.rest, ContentLen(cut.rest),
           if ended || BomDecided(fed) then Splitter.Resolved else Splitter.Pristine, ended,
           limits.maxLineBytes,
           EventType(lines), Sse.PendingData(lines), LastId(lines), limits.maxEventBytes, ended)
  }

  lemma StateIsWhatWasFed(p: Push.Parser)
    requires p.Valid()
    ensures HeldBy(p) == HeldAfter(p.limits, p.fed, p.ended)
    ensures p.popped + p.queue == OutcomeOf(p.limits, p.fed, p.ended).frames
  {
    hide OutcomeOf, Split, StripBom, BomDecided, Classified, EventType, Sse.PendingData, LastId, ContentLen;
  }

  /** Feeding `a` and then `b` leaves every field as feeding `a + b` does, and reports the
      same first overflow. */
  method FeedBothWays(p: Push.Parser, q: Push.Parser, a: seq<byte>, b: seq<byte>)
    returns (split: Result<(), Overflow>, whole: Result<(), Overflow>)
    requires p.Valid() && q.Valid() && p.Repr() !! q.Repr()
    requires p.limits == q.limits && p.fed == q.fed && p.ended == q.ended && p.closed == q.closed
    modifies p.Repr(), q.Repr()
    ensures p.Valid() && q.Valid()
    ensures HeldBy(p) == HeldBy(q) && p.popped + p.queue == q.popped + q.queue
    ensures split == whole
  {
    hide OutcomeOf, Push.Parser.Valid, HeldBy, HeldAfter;
    CuttingAgrees(p.limits, p.fed, a, b);
    p.EmittedInOrder();
    split := p.Feed(a);
    p.EmittedInOrder();
    var second := p.Feed(b);
    if split.Ok? {
      split := second;
    }
    whole := q.Feed(a + b);
    StateIsWhatWasFed(p);
    StateIsWhatWasFed(q);
  }

  /** Bytes fed after a crossed bound change nothing. */
  lemma CuttingAgrees(limits: Limits, fed: seq<byte>, a: seq<byte>, b: seq<byte>)
    ensures (fed + a) + b == fed + (a + b)
    ensures OutcomeOf(limits, fed + a, false).Stopped? ==>
              && OutcomeOf(limits, fed + (a + b), false) == OutcomeOf(limits, fed + a, false)
              && HeldAfter(limits, fed + (a + b), false) == HeldAfter(limits, fed + a, false)
  {
    hide OutcomeOf;
    assert (fed + a) + b == fed + (a + b);
    if OutcomeOf(limits, fed + a, false).Stopped? {
      StoppedIsFinal(limits, fed + a, b, false);
    }
  }

  // ---------- Any chunks, any interleaving ----------

  function Flatten(chunks: seq<seq<byte>>): seq<byte> {
    if chunks == [] then [] else Flatten(chunks[..|chunks| - 1]) + chunks[|chunks| - 1]
  }

  /** How many pieces end in a CR, over all chunks. */
  function PiecesEndingInCr(chunks: seq<seq<byte>>): nat {
    if chunks == [] then 0
    else PiecesEndingInCr(chunks[..|chunks| - 1]) + Push.PiecesEndingInCr(chunks[|chunks| - 1])
  }

  method PopSome(p: Push.Parser, n: nat) returns (frames: seq<Frame>)
    requires p.Valid()
    modifies p
    ensures p.Valid() && p.Repr() == old(p.Repr())
    ensures p.popped == old(p.popped) + frames && p.emitted == old(p.emitted) == p.popped + p.queue
    ensures p.fed == old(p.fed) && p.ended == old(p.ended) && p.closed == old(p.closed)
    ensures p.crPieces == old(p.crPieces) && p.looks == old(p.looks)
    ensures n >= |old(p.queue)| ==> p.queue == []
  {
    hide Push.Parser.Valid;
    p.EmittedInOrder();
    frames := [];
    for i := 0 to n
      invariant p.Valid() && p.Repr() == old(p.Repr())
      invariant p.popped == old(p.popped) + frames && p.emitted == old(p.emitted) == p.popped + p.queue
      invariant p.fed == old(p.fed) && p.ended == old(p.ended) && p.closed == old(p.closed)
      invariant p.crPieces == old(p.crPieces) && p.looks == old(p.looks)
      invariant i >= |old(p.queue)| ==> p.queue == []
      invariant |p.queue| + i == |old(p.queue)| || p.queue == []
    {
      var frame := p.NextFrame();
      if frame.Some? {
        frames := frames + [frame.value];
      }
    }
  }

  lemma FlattenGrows(chunks: seq<seq<byte>>, i: nat)
    requires i < |chunks|
    ensures Flatten(chunks[..i + 1]) == Flatten(chunks[..i]) + chunks[i]
    ensures PiecesEndingInCr(chunks[..i + 1]) == PiecesEndingInCr(chunks[..i]) + Push.PiecesEndingInCr(chunks[i])
  {
    assert chunks[..i + 1][..i] == chunks[..i];
  }

  /** A consumer that feeds `chunks`, pops `pops[i]` times after chunk `i`, ends the stream and
      pops the rest. Neither the cutting nor the popping shows in what it gets, and the scan loop
      goes round at most once per byte and once more per piece that ends in a CR. */
  method ParseInChunks(limits: Limits, chunks: seq<seq<byte>>, pops: seq<nat>)
    returns (frames: seq<Frame>, overflow: Option<Overflow>, ghost looks: nat)
    ensures frames == OutcomeOf(limits, Flatten(chunks), true).frames
    ensures frames <= Interpret(DecodeStream(Flatten(chunks)))
    ensures overflow == match OutcomeOf(limits, Flatten(chunks), true)
                        case Running(_) => None
                        case Stopped(_, crossed) => Some(crossed)
    ensures overflow.None? ==> frames == Interpret(DecodeStream(Flatten(chunks)))
    ensures looks <= |Flatten(chunks)| + PiecesEndingInCr(chunks)
  {
    hide OutcomeOf, Push.Parser.Valid, Interpret, DecodeStream, Flatten, Followed;
    hide PiecesEndingInCr, Push.PiecesEndingInCr;
    var p := new Push.Parser.WithLimits(limits);
    frames, overflow := [], None;
    NothingFollowed(p);
    assert chunks[..0] == [];
    for i := 0 to |chunks|
      invariant p.Valid() && fresh(p.Repr()) && p.limits == limits && frames == p.popped && !p.ended
      invariant Followed(p, Flatten(chunks[..i]), overflow)
      invariant |p.fed| <= |Flatten(chunks[..i])| && p.crPieces <= PiecesEndingInCr(chunks[..i])
    {
      FlattenGrows(chunks, i);
      var some;
      some, overflow := FeedThenPop(p, Flatten(chunks[..i]), chunks[i], if i < |pops| then pops[i] else 0, overflow);
      frames := frames + some;
    }
    assert chunks[..|chunks|] == chunks;
    var rest;
    rest, overflow := EndThenPop(p, Flatten(chunks), overflow);
    frames := frames + rest;
    looks := p.looks;
    FramesStartAsTheStandards(limits, Flatten(chunks));
    if overflow.None? {
      FramesAreTheStandards(limits, Flatten(chunks));
    }
  }

  method FeedThenPop(p: Push.Parser, ghost bytes: seq<byte>, chunk: seq<byte>, n: nat, before: Option<Overflow>)
    returns (frames: seq<Frame>, overflow: Option<Overflow>)
    requires p.Valid() && !p.ended && Followed(p, bytes, before)
    modifies p.Repr()
    ensures p.Valid() && fresh(p.Repr() - old(p.Repr())) && !p.ended
    ensures Followed(p, bytes + chunk, overflow) && p.popped == old(p.popped) + frames
    ensures |p.fed| <= |old(p.fed)| + |chunk| && p.crPieces <= old(p.crPieces) + Push.PiecesEndingInCr(chunk)
  {
    hide OutcomeOf, Push.Parser.Valid;
    StoppedStays(p.limits, bytes, chunk, false);
    p.EmittedInOrder();
    overflow := before;
    var fed := p.Feed(chunk);
    if fed.Err? {
      overflow := Some(fed.error);
    }
    p.EmittedInOrder();
    frames := PopSome(p, n);
  }

  method EndThenPop(p: Push.Parser, ghost bytes: seq<byte>, before: Option<Overflow>)
    returns (frames: seq<Frame>, overflow: Option<Overflow>)
    requires p.Valid() && !p.ended && Followed(p, bytes, before)
    modifies p.Repr()
    ensures p.popped == old(p.popped) + frames == OutcomeOf(p.limits, bytes, true).frames
    ensures overflow == match OutcomeOf(p.limits, bytes, true)
                        case Running(_) => None
                        case Stopped(_, crossed) => Some(crossed)
    ensures p.looks <= |old(p.fed)| + old(p.crPieces)
  {
    hide OutcomeOf, Push.Parser.Valid;
    StoppedStays(p.limits, bytes, [], true);
    assert bytes + [] == bytes;
    p.EmittedInOrder();
    overflow := before;
    var ended := p.End();
    if ended.Err? {
      overflow := Some(ended.error);
    }
    p.EmittedInOrder();
    frames := PopSome(p, |p.queue|);
  }

  lemma NothingFollowed(p: Push.Parser)
    requires p.Valid() && !p.closed && p.fed == []
    ensures Followed(p, [], None) && Flatten([]) == [] && PiecesEndingInCr([]) == 0
  {
    hide Push.Parser.Valid;
  }

  /** The parser is open on exactly `bytes`, or stopped as all of `bytes` stops it. */
  ghost predicate Followed(p: Push.Parser, bytes: seq<byte>, overflow: Option<Overflow>)
    reads p
  {
    if !p.closed then
      p.fed == bytes && overflow.None?
    else
      match OutcomeOf(p.limits, bytes, false)
      case Running(_) => false
      case Stopped(frames, crossed) => p.emitted == frames && overflow == Some(crossed)
  }

  lemma StoppedStays(limits: Limits, bytes: seq<byte>, more: seq<byte>, ended: bool)
    ensures OutcomeOf(limits, bytes, false).Stopped? ==>
              OutcomeOf(limits, bytes + more, ended) == OutcomeOf(limits, bytes, false)
  {
    if OutcomeOf(limits, bytes, false).Stopped? {
      StoppedIsFinal(limits, bytes, more, ended);
    }
  }
}
