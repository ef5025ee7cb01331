/**
 The parser against the standard: what it emits is the interpretation of the decoded stream.
 */
module Standard {
  import opened Utf8
  import opened Lines
  import opened Field
  import opened EventStream
  import opened Limits
  import opened Outcome

  ghost function Decoded(lines: seq<seq<byte>>): seq<string> {
    seq(|lines|, i requires 0 <= i < |lines| => Decode(lines[i]))
  }

  /** Section 9.2.5: the stream is decoded as UTF-8, which takes one leading mark off. */
  ghost function DecodeStream(input: seq<byte>): string {
    Decode(StripBom(input))
  }

  /** The bytes whose lines are decided while the stream is open: a last CR still waits. */
  function WithoutHeldCr(bs: seq<byte>): seq<byte> {
    if EndsInCr(bs) then bs[..|bs| - 1] else bs
  }

  // ---------- Lines of bytes are lines of text ----------

  /** Text without terminators only adds to the current line. */
  lemma {:induction false} TextLinesSkip(text: string, more: string, line: string, afterCr: bool)
    requires '\n' !in text && '\r' !in text
    ensures TextLines(text + more, line, afterCr)
            == TextLines(more, line + text, if text == "" then afterCr else false)
    decreases |text|
  {
    if text == "" {
      assert text + more == more && line + text == line;
    } else {
      assert (text + more)[0] == text[0] && (text + more)[1..] == text[1..] + more;
      assert text[0] in text && forall c :: c in text[1..] ==> c in text;
      TextLinesSkip(text[1..], more, line + [text[0]], false);
      assert line + [text[0]] + text[1..] == line + text;
    }
  }

  lemma ContentHasNoTerminator(bs: seq<byte>)
    ensures var text := Decode(bs[..ContentLen(bs)]); '\n' !in text && '\r' !in text
  {
    var content := bs[..ContentLen(bs)];
    assert LF !in content && CR !in content;
    DecodeAddsNoAscii(content, '\n');
    DecodeAddsNoAscii(content, '\r');
  }

  lemma TextEndsLine(text: string, end: char, after: string)
    requires '\n' !in text && '\r' !in text && (end == '\n' || end == '\r')
    ensures TextLines(text + [end] + after, "", false) == [text] + TextLines(after, "", end == '\r')
  {
    TextLinesSkip(text, [end] + after, "", false);
    assert text + ([end] + after) == text + [end] + after;
    assert "" + text == text && ([end] + after)[1..] == after;
  }

  /** One line of bytes and its terminator are one line of text. */
  lemma TextTakesLine(bs: seq<byte>)
    requires NextBreak(bs, true).Some?
    ensures TextLines(Decode(bs), "", false)
            == [Decode(bs[..ContentLen(bs)])] + TextLines(Decode(bs[NextBreak(bs, true).value..]), "", false)
  {
    hide Decode, TextLines;
    var n := ContentLen(bs);
    AfterTerminator(bs, n);
    hide NextBreak;
    var content, tail := bs[..n], bs[n + 1..];
    assert bs == content + [bs[n]] + tail;
    DecodeCutsAtAscii(content, bs[n], tail);
    ContentHasNoTerminator(bs);
    TextEndsLine(Decode(content), bs[n] as char, Decode(tail));
  }

  /** The LF of a CRLF starts no line of its own, and nothing else is swallowed after a CR. */
  lemma AfterTerminator(bs: seq<byte>, n: nat)
    requires n == ContentLen(bs) < |bs|
    ensures TextLines(Decode(bs[n + 1..]), "", bs[n] as char == '\r')
            == TextLines(Decode(bs[NextBreak(bs, true).value..]), "", false)
  {
    hide Decode, TextLines, ContentLen;
    var tail := bs[n + 1..];
    if bs[n] == CR && tail != [] && tail[0] == LF {
      assert tail[1..] == bs[n + 2..];
      LfAfterCr(tail);
    } else {
      NotLfAfterCr(tail, bs[n] == CR);
    }
  }

  lemma LfAfterCr(tail: seq<byte>)
    requires tail != [] && tail[0] == LF
    ensures TextLines(Decode(tail), "", true) == TextLines(Decode(tail[1..]), "", false)
  {
    hide Decode;
    assert tail == [] + [LF] + tail[1..];
    DecodeCutsAtAscii([], LF, tail[1..]);
    DecodeKeepsFirstAscii([], '\n');
    assert Decode(tail) == ['\n'] + Decode(tail[1..]);
    TextSkipsLf(Decode(tail[1..]));
  }

  lemma TextSkipsLf(text: string)
    ensures TextLines(['\n'] + text, "", true) == TextLines(text, "", false)
  {
    assert (['\n'] + text)[1..] == text;
  }

  lemma NotLfAfterCr(tail: seq<byte>, afterCr: bool)
    requires afterCr ==> tail == [] || tail[0] != LF
    ensures TextLines(Decode(tail), "", afterCr) == TextLines(Decode(tail), "", false)
  {
    hide Decode;
    DecodeKeepsFirstAscii(tail, '\n');
  }

  lemma {:induction false} SplitIsTextLines(bs: seq<byte>)
    ensures Decoded(Split(bs, true).lines) == TextLines(Decode(bs), "", false)
    decreases |bs|
  {
    match NextBreak(bs, true)
    case None =>
      assert bs[..ContentLen(bs)] == bs && Decode(bs) + "" == Decode(bs);
      ContentHasNoTerminator(bs);
      TextLinesSkip(Decode(bs), "", "", false);
    case Some(k) =>
      TextTakesLine(bs);
      SplitIsTextLines(bs[k..]);
  }

  lemma ClassifiedIsParsed(lines: seq<seq<byte>>)
    ensures Classified(lines) == ParseLines(Decoded(lines))
  {
    forall i | 0 <= i < |lines| ensures ClassifyLine(lines[i]) == ParseLine(Decode(lines[i])) {
      LateDecodingIsSound(lines[i]);
    }
  }

  // ---------- Whole streams ----------

  /** Splitting bytes and decoding late, field by field, is interpreting the decoded stream. */
  lemma LinesMeanTheDecodedStream(bs: seq<byte>)
    ensures Frames(Classified(Split(bs, true).lines)) == Interpret(Decode(bs))
  {
    hide Split, Decode, Frames, Classified, ParseLines, TextLines;
    ClassifiedIsParsed(Split(bs, true).lines);
    SplitIsTextLines(bs);
  }

  lemma ContentBeforeHeldCr(bs: seq<byte>)
    requires NextBreak(bs, false).Some?
    ensures NextBreak(bs, false).value <= |WithoutHeldCr(bs)|
    ensures ContentLen(WithoutHeldCr(bs)) == ContentLen(bs)
  {
    hide ContentLen;
    ContentLenIs(WithoutHeldCr(bs), ContentLen(bs));
  }

  lemma BreakBeforeHeldCr(bs: seq<byte>)
    requires NextBreak(bs, false).Some?
    ensures NextBreak(WithoutHeldCr(bs), true) == NextBreak(bs, false)
  {
    hide ContentLen;
    var shorter := WithoutHeldCr(bs);
    ContentBeforeHeldCr(bs);
    assert forall i :: 0 <= i < |shorter| ==> shorter[i] == bs[i];
  }

  lemma CutsBeforeHeldCr(bs: seq<byte>, n: nat, k: nat)
    requires n <= k <= |WithoutHeldCr(bs)|
    ensures WithoutHeldCr(bs)[..n] == bs[..n]
    ensures WithoutHeldCr(bs)[k..] == WithoutHeldCr(bs[k..])
  {
    assert |bs[k..]| == |bs| - k && (k < |bs| ==> bs[k..][|bs| - k - 1] == bs[|bs| - 1]);
  }

  lemma NothingBeforeHeldCr(bs: seq<byte>)
    requires NextBreak(bs, false).None?
    ensures NextBreak(WithoutHeldCr(bs), true).None?
  {
    var n := ContentLen(bs);
    ContentLenIs(WithoutHeldCr(bs), if n < |bs| then n else |WithoutHeldCr(bs)|);
  }

  /** While the stream is open, exactly the lines before a held CR are decided. */
  lemma {:induction false} OpenSplitWithholdsCr(bs: seq<byte>)
    ensures Split(bs, false).lines == Split(WithoutHeldCr(bs), true).lines
    decreases |bs|
  {
    match NextBreak(bs, false)
    case None =>
      NothingBeforeHeldCr(bs);
    case Some(k) =>
      ContentBeforeHeldCr(bs);
      BreakBeforeHeldCr(bs);
      CutsBeforeHeldCr(bs, ContentLen(bs), k);
      SplitTakesLine(bs, false);
      SplitTakesLine(WithoutHeldCr(bs), true);
      OpenSplitWithholdsCr(bs[k..]);
  }

  lemma BomBeforeHeldCr(input: seq<byte>)
    ensures WithoutHeldCr(StripBom(input)) == StripBom(WithoutHeldCr(input))
  {
    if EndsInCr(input) {
      var shorter := input[..|input| - 1];
      assert BOM <= input ==> |input| > |BOM| && shorter[..|BOM|] == input[..|BOM|];
      assert BOM <= shorter ==> input[..|BOM|] == shorter[..|BOM|];
    }
  }

  /** At the end of any stream that crosses no bound, the frames are the standard's. */
  lemma FramesAreTheStandards(limits: Limits, input: seq<byte>)
    requires OutcomeOf(limits, input, true).Running?
    ensures OutcomeOf(limits, input, true).frames == Interpret(DecodeStream(input))
  {
    hide Split, StripBom, Interpret, Decode, Frames, Classified, ContentLen, Fits;
    var lines := Split(StripBom(input), true).lines;
    assert lines[..|lines|] == lines;
    LinesMeanTheDecodedStream(StripBom(input));
  }

  /** Before the end they are the standard's for the bytes so far, a held CR left out. */
  lemma FramesSoFarAreTheStandards(limits: Limits, input: seq<byte>)
    requires OutcomeOf(limits, input, false).Running?
    ensures OutcomeOf(limits, input, false).frames == Interpret(DecodeStream(WithoutHeldCr(input)))
  {
    hide Split, StripBom, WithoutHeldCr, Interpret, Decode, Frames, Classified, ContentLen, Fits;
    var bs := StripBom(input);
    var lines := Split(bs, false).lines;
    assert lines[..|lines|] == lines;
    OpenSplitWithholdsCr(bs);
    BomBeforeHeldCr(input);
    LinesMeanTheDecodedStream(WithoutHeldCr(bs));
  }

  /** Whatever the limits, the frames are the standard's from the start; a crossed bound only cuts
      them short. */
  lemma FramesStartAsTheStandards(limits: Limits, input: seq<byte>)
    ensures OutcomeOf(limits, input, true).frames <= Interpret(DecodeStream(input))
  {
    hide Split, StripBom, Interpret, Decode, Frames, ContentLen, Fits;
    var lines := Split(StripBom(input), true).lines;
    var k := FirstMisfit(limits, lines, 0);
    assert Classified(lines[..k]) == Classified(lines)[..k];
    FramesOfPrefix(Classified(lines), k);
    LinesMeanTheDecodedStream(StripBom(input));
  }
}
