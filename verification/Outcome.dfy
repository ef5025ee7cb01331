/**
 What a parser with bounds makes of a byte stream, as one definition over the whole stream:
 the frames of the lines before the first one that crosses a bound, and which bound that is.
 */
module Outcome {
  import opened Utf8
  import opened Lines
  import opened Field
  import opened EventStream
  import opened Dispatcher
  import opened Limits

  datatype Outcome =
    | Running(frames: seq<Frame>)
    | Stopped(frames: seq<Frame>, overflow: Overflow)

  ghost function Classified(lines: seq<seq<byte>>): seq<LineKind> {
    seq(|lines|, i requires 0 <= i < |lines| => ClassifyLine(lines[i]))
  }

  /** Line `k` is within both bounds, given the lines before it. */
  ghost predicate Fits(limits: Limits, lines: seq<seq<byte>>, k: nat)
    requires k < |lines|
  {
    && |lines[k]| <= limits.maxLineBytes
    && !EventOverflows(limits.maxEventBytes, Classified(lines[..k]), ClassifyLine(lines[k]))
  }

  ghost predicate AllFit(limits: Limits, lines: seq<seq<byte>>) {
    forall k :: 0 <= k < |lines| ==> Fits(limits, lines, k)
  }

  ghost function FirstMisfit(limits: Limits, lines: seq<seq<byte>>, from: nat): (k: nat)
    requires from <= |lines|
    ensures from <= k <= |lines|
    ensures forall j :: from <= j < k ==> Fits(limits, lines, j)
    ensures k < |lines| ==> !Fits(limits, lines, k)
    decreases |lines| - from
  {
    if from == |lines| || !Fits(limits, lines, from) then from else FirstMisfit(limits, lines, from + 1)
  }

  ghost function Judge(limits: Limits, cut: Cut, restIsContent: bool): Outcome {
    var k := FirstMisfit(limits, cut.lines, 0);
    var frames := Frames(Classified(cut.lines[..k]));
    if k < |cut.lines| then
      Stopped(frames, if |cut.lines[k]| > limits.maxLineBytes
                      then Overflow.Line(limits.maxLineBytes) else Event(limits.maxEventBytes))
    else if restIsContent && ContentLen(cut.rest) > limits.maxLineBytes then
      Stopped(frames, Overflow.Line(limits.maxLineBytes))
    else Running(frames)
  }

  /** The outcome of all bytes fed so far, and of the end of the stream if it was signalled. */
  ghost function OutcomeOf(limits: Limits, input: seq<byte>, ended: bool): Outcome {
    Judge(limits, Split(StripBom(input), ended), ended || BomDecided(input))
  }

  // ---------- Reading an outcome off a parser that is under way ----------

  lemma ClassifiedGrows(lines: seq<seq<byte>>, line: seq<byte>)
    ensures Classified(lines + [line]) == Classified(lines) + [ClassifyLine(line)]
  {
  }

  lemma FitsInLonger(limits: Limits, lines: seq<seq<byte>>, more: seq<seq<byte>>, k: nat)
    requires k < |lines|
    ensures Fits(limits, lines + more, k) == Fits(limits, lines, k)
  {
    assert (lines + more)[..k] == lines[..k];
  }

  lemma FirstMisfitIs(limits: Limits, lines: seq<seq<byte>>, k: nat)
    requires k <= |lines| && AllFit(limits, lines[..k])
    requires k < |lines| ==> !Fits(limits, lines, k)
    ensures FirstMisfit(limits, lines, 0) == k
  {
    assert lines == lines[..k] + lines[k..];
    forall j | 0 <= j < k ensures Fits(limits, lines, j) {
      FitsInLonger(limits, lines[..k], lines[k..], j);
    }
  }

  lemma AllFitGrows(limits: Limits, lines: seq<seq<byte>>, line: seq<byte>)
    requires AllFit(limits, lines) && Fits(limits, lines + [line], |lines|)
    ensures AllFit(limits, lines + [line])
  {
    forall j | 0 <= j < |lines| ensures Fits(limits, lines + [line], j) {
      FitsInLonger(limits, lines, [line], j);
    }
  }

  lemma OutcomeWhenDrained(limits: Limits, cut: Cut, restIsContent: bool)
    requires AllFit(limits, cut.lines)
    requires restIsContent ==> ContentLen(cut.rest) <= limits.maxLineBytes
    ensures Judge(limits, cut, restIsContent) == Running(Frames(Classified(cut.lines)))
  {
    assert cut.lines[..|cut.lines|] == cut.lines;
    FirstMisfitIs(limits, cut.lines, |cut.lines|);
  }

  /** A line refused for its length, finished or not, is what the whole stream stops at. */
  lemma OutcomeAtRefusedLine(limits: Limits, cut: Cut, ended: bool)
    requires AllFit(limits, cut.lines) && ContentLen(cut.rest) > limits.maxLineBytes
    ensures Judge(limits, Resume(cut, ended), true)
            == Stopped(Frames(Classified(cut.lines)), Overflow.Line(limits.maxLineBytes))
  {
    var lines := Resume(cut, ended).lines;
    assert lines[..|cut.lines|] == cut.lines;
    FirstMisfitIs(limits, lines, |cut.lines|);
  }

  /** A data field refused for its event is what the whole stream stops at. */
  lemma OutcomeAtRefusedEvent(limits: Limits, taken: seq<seq<byte>>, line: seq<byte>, rest: seq<byte>,
                              ended: bool)
    requires AllFit(limits, taken) && |line| <= limits.maxLineBytes
    requires EventOverflows(limits.maxEventBytes, Classified(taken), ClassifyLine(line))
    ensures Judge(limits, Resume(Cut(taken + [line], rest), ended), true)
            == Stopped(Frames(Classified(taken)), Event(limits.maxEventBytes))
  {
    var lines := Resume(Cut(taken + [line], rest), ended).lines;
    assert lines[..|taken|] == taken && lines[|taken|] == line;
    FirstMisfitIs(limits, lines, |taken|);
  }

  // ---------- A crossed bound is final ----------

  lemma ContentOnlyGrows(bs: seq<byte>, more: seq<byte>)
    ensures ContentLen(bs + more) >= ContentLen(bs)
  {
    assert forall i :: 0 <= i < ContentLen(bs) ==> !IsTerminator((bs + more)[i]);
  }

  lemma StoppedIsDecided(limits: Limits, input: seq<byte>)
    requires OutcomeOf(limits, input, false).Stopped?
    ensures BomDecided(input)
  {
    if !BomDecided(input) {
      UndecidedBomIsContent(input);
    }
  }

  lemma AllFitUpToMisfit(limits: Limits, lines: seq<seq<byte>>)
    ensures AllFit(limits, lines[..FirstMisfit(limits, lines, 0)])
  {
    var k := FirstMisfit(limits, lines, 0);
    assert lines == lines[..k] + lines[k..];
    forall j | 0 <= j < k ensures Fits(limits, lines[..k], j) {
      FitsInLonger(limits, lines[..k], lines[k..], j);
    }
  }

  lemma MisfitIsFinal(limits: Limits, lines: seq<seq<byte>>, more: seq<seq<byte>>)
    requires FirstMisfit(limits, lines, 0) < |lines|
    ensures FirstMisfit(limits, lines + more, 0) == FirstMisfit(limits, lines, 0)
  {
    var k := FirstMisfit(limits, lines, 0);
    AllFitUpToMisfit(limits, lines);
    FitsInLonger(limits, lines, more, k);
    assert (lines + more)[..k] == lines[..k];
    FirstMisfitIs(limits, lines + more, k);
  }

  lemma JudgementIsFinal(limits: Limits, cut: Cut, more: seq<byte>, ended: bool)
    requires Judge(limits, cut, true).Stopped?
    ensures Judge(limits, Resume(Cut(cut.lines, cut.rest + more), ended), true) == Judge(limits, cut, true)
  {
    var k := FirstMisfit(limits, cut.lines, 0);
    AllFitUpToMisfit(limits, cut.lines);
    if k < |cut.lines| {
      var next := Split(cut.rest + more, ended).lines;
      MisfitIsFinal(limits, cut.lines, next);
      assert (cut.lines + next)[..k] == cut.lines[..k];
    } else {
      assert cut.lines[..k] == cut.lines;
      ContentOnlyGrows(cut.rest, more);
      OutcomeAtRefusedLine(limits, Cut(cut.lines, cut.rest + more), ended);
    }
  }

  /** Once a bound is crossed, no later byte and no end of stream changes the outcome. */
  lemma StoppedIsFinal(limits: Limits, input: seq<byte>, more: seq<byte>, ended: bool)
    requires OutcomeOf(limits, input, false).Stopped?
    ensures OutcomeOf(limits, input + more, ended) == OutcomeOf(limits, input, false)
  {
    StoppedIsDecided(limits, input);
    StripBomExtends(input, more);
    SplitExtends(StripBom(input), more, ended);
    JudgementIsFinal(limits, Split(StripBom(input), false), more, ended);
    BomStaysDecided(input, more);
  }

  /** Frames once emitted stay: more bytes, or the end, only add to them. */
  lemma FramesOnlyGrow(limits: Limits, input: seq<byte>, more: seq<byte>, ended: bool)
    ensures OutcomeOf(limits, input, false).frames <= OutcomeOf(limits, input + more, ended).frames
  {
    hide Split, StripBom, BomDecided, Judge, Frames, Classified;
    if OutcomeOf(limits, input, false).Stopped? {
      StoppedIsFinal(limits, input, more, ended);
    } else if BomDecided(input) {
      StripBomExtends(input, more);
      SplitExtends(StripBom(input), more, ended);
      BomStaysDecided(input, more);
      LinesOnlyAddFrames(limits, Split(StripBom(input), false), more, ended);
    } else {
      UndecidedHasNoFrames(limits, input);
    }
  }

  lemma UndecidedHasNoFrames(limits: Limits, input: seq<byte>)
    requires !BomDecided(input)
    ensures OutcomeOf(limits, input, false) == Running([])
  {
    UndecidedBomIsContent(input);
    OutcomeWhenDrained(limits, Cut([], input), false);
  }

  lemma LinesOnlyAddFrames(limits: Limits, cut: Cut, more: seq<byte>, ended: bool)
    requires Judge(limits, cut, true).Running?
    ensures Judge(limits, cut, true).frames
            <= Judge(limits, Resume(Cut(cut.lines, cut.rest + more), ended), true).frames
  {
    hide Split, Frames, Classified, Fits, ContentLen;
    var lines, next := cut.lines, Split(cut.rest + more, ended).lines;
    var all := lines + next;
    var k := FirstMisfit(limits, all, 0);
    assert lines[..|lines|] == lines;
    if k < |lines| {
      FitsInLonger(limits, lines, next, k);
    }
    PrefixIsClassified(all, |lines|, k);
    assert all[..|lines|] == lines;
    FramesOfPrefix(Classified(all[..k]), |lines|);
  }

  lemma PrefixIsClassified(lines: seq<seq<byte>>, n: nat, k: nat)
    requires n <= k <= |lines|
    ensures |Classified(lines[..k])| == k && Classified(lines[..k])[..n] == Classified(lines[..n])
  {
  }

  lemma BomStaysDecided(input: seq<byte>, more: seq<byte>)
    requires BomDecided(input)
    ensures BomDecided(input + more)
  {
    assert input + more <= BOM ==> forall i :: 0 <= i < |input| ==> input[i] == (input + more)[i] == BOM[i];
  }
}
