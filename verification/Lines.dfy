/**
 Cutting a whole byte stream into lines, the specification of the incremental splitter.

 A line ends at the first LF, CR or CRLF. While the stream is open, a CR that is its last
 byte decides nothing: the next byte may be the LF of the same terminator.
 */
module Lines {
  import opened Utf8
  import opened Wrappers

  const LF: byte := 0x0A
  const CR: byte := 0x0D
  const BOM: seq<byte> := [0xEF, 0xBB, 0xBF]

  datatype Cut = Cut(lines: seq<seq<byte>>, rest: seq<byte>)

  predicate IsTerminator(b: byte) {
    b == LF || b == CR
  }

  function StripBom(bs: seq<byte>): seq<byte> {
    if BOM <= bs then bs[|BOM|..] else bs
  }

  /** More input can no longer turn what has arrived into a byte order mark. */
  predicate BomDecided(bs: seq<byte>) {
    |bs| >= |BOM| || !(bs <= BOM)
  }

  /** How many bytes come before the first terminator. */
  function ContentLen(bs: seq<byte>): (n: nat)
    ensures n <= |bs|
    ensures forall i :: 0 <= i < n ==> !IsTerminator(bs[i])
    ensures n < |bs| ==> IsTerminator(bs[n])
  {
    if bs == [] || IsTerminator(bs[0]) then 0 else 1 + ContentLen(bs[1..])
  }

  /** How many bytes the first line and its terminator take, once that is decided. */
  function NextBreak(bs: seq<byte>, closed: bool): (r: Option<nat>)
    ensures r.Some? ==> ContentLen(bs) < r.value <= |bs|
  {
    var n := ContentLen(bs);
    if n == |bs| then None
    else if bs[n] == LF then Some(n + 1)
    else if n + 1 < |bs| then Some(if bs[n + 1] == LF then n + 2 else n + 1)
    else if closed then Some(n + 1)
    else None
  }

  function Split(bs: seq<byte>, closed: bool): Cut
    decreases |bs|
  {
    match NextBreak(bs, closed)
    case None => Cut([], bs)
    case Some(k) =>
      var tail := Split(bs[k..], closed);
      Cut([bs[..ContentLen(bs)]] + tail.lines, tail.rest)
  }

  lemma ContentLenIs(bs: seq<byte>, n: nat)
    requires n <= |bs|
    requires forall i :: 0 <= i < n ==> !IsTerminator(bs[i])
    requires n < |bs| ==> IsTerminator(bs[n])
    ensures ContentLen(bs) == n
  {
    assert ContentLen(bs) >= n;
  }

  /** A break decided on the bytes so far stays where it is, and so does the line before it. */
  lemma BreakIsFinal(bs: seq<byte>, more: seq<byte>, closed: bool)
    requires NextBreak(bs, false).Some?
    ensures NextBreak(bs + more, closed) == NextBreak(bs, false)
    ensures ContentLen(bs + more) == ContentLen(bs)
  {
    ContentLenIs(bs + more, ContentLen(bs));
  }

  /** `cut`, then what `Split` makes of `bs`. */
  function Resume(cut: Cut, closed: bool): Cut {
    var next := Split(cut.rest, closed);
    Cut(cut.lines + next.lines, next.rest)
  }

  lemma SplitTakesLine(bs: seq<byte>, closed: bool)
    requires NextBreak(bs, closed).Some?
    ensures Split(bs, closed)
            == Resume(Cut([bs[..ContentLen(bs)]], bs[NextBreak(bs, closed).value..]), closed)
  {
  }

  /** Cutting is incremental: cut what has arrived, then go on with what was left over. */
  lemma {:induction false} SplitExtends(bs: seq<byte>, more: seq<byte>, closed: bool)
    ensures var sofar := Split(bs, false);
            Split(bs + more, closed) == Resume(Cut(sofar.lines, sofar.rest + more), closed)
    decreases |bs|
  {
    hide ContentLen, StripBom;
    match NextBreak(bs, false)
    case None =>
    case Some(k) =>
      var line := bs[..ContentLen(bs)];
      var tail := Split(bs[k..], false);
      BreakIsFinal(bs, more, closed);
      assert (bs + more)[k..] == bs[k..] + more;
      assert (bs + more)[..ContentLen(bs)] == line;
      SplitTakesLine(bs + more, closed);
      SplitExtends(bs[k..], more, closed);
      ResumeAfter([line], Cut(tail.lines, tail.rest + more), closed);
  }

  /** Lines in front stay in front. */
  lemma ResumeAfter(before: seq<seq<byte>>, cut: Cut, closed: bool)
    ensures var done := Resume(cut, closed);
            Resume(Cut(before + cut.lines, cut.rest), closed) == Cut(before + done.lines, done.rest)
  {
    Regroup(before, cut.lines, Split(cut.rest, closed).lines);
  }

  lemma Regroup<T>(a: seq<T>, b: seq<T>, c: seq<T>)
    ensures (a + b) + c == a + (b + c)
  {
  }

  /** A cut that stopped anywhere resumes to the same lines however the input goes on. */
  lemma ResumeExtends(bs: seq<byte>, cut: Cut, more: seq<byte>, closed: bool)
    requires Split(bs, false) == Resume(cut, false)
    ensures Split(bs + more, closed) == Resume(Cut(cut.lines, cut.rest + more), closed)
  {
    var held := Split(cut.rest, false);
    SplitExtends(bs, more, closed);
    SplitExtends(cut.rest, more, closed);
    ResumeAfter(cut.lines, Cut(held.lines, held.rest + more), closed);
  }

  lemma ResumeTakesLine(cut: Cut, closed: bool)
    requires NextBreak(cut.rest, closed).Some?
    ensures Resume(cut, closed)
            == Resume(Cut(cut.lines + [cut.rest[..ContentLen(cut.rest)]],
                          cut.rest[NextBreak(cut.rest, closed).value..]), closed)
  {
    var line := cut.rest[..ContentLen(cut.rest)];
    var tail := cut.rest[NextBreak(cut.rest, closed).value..];
    SplitTakesLine(cut.rest, closed);
    ResumeAfter(cut.lines, Cut([line], tail), closed);
  }

  /** What is left over holds no decided line. */
  lemma {:induction false} RestIsUndecided(bs: seq<byte>, closed: bool)
    ensures NextBreak(Split(bs, closed).rest, closed).None?
    decreases |bs|
  {
    match NextBreak(bs, closed)
    case None =>
    case Some(k) => RestIsUndecided(bs[k..], closed);
  }

  predicate EndsInCr(bs: seq<byte>) {
    bs != [] && bs[|bs| - 1] == CR
  }

  /** A last CR of an open stream is never taken with a line. */
  lemma {:induction false} SplitLeavesLastCr(bs: seq<byte>)
    ensures EndsInCr(Split(bs, false).rest) <==> EndsInCr(bs)
    decreases |bs|
  {
    hide ContentLen, EndsInCr;
    match NextBreak(bs, false)
    case None =>
    case Some(k) =>
      LineLeavesLastCr(bs, k);
      hide NextBreak;
      SplitLeavesLastCr(bs[k..]);
  }

  lemma LineLeavesLastCr(bs: seq<byte>, k: nat)
    requires NextBreak(bs, false) == Some(k)
    ensures EndsInCr(bs[k..]) <==> EndsInCr(bs)
  {
    hide ContentLen;
    if k < |bs| {
      assert bs[k..][|bs[k..]| - 1] == bs[|bs| - 1];
    }
  }

  /** What is left over is content, and a last CR besides. */
  lemma RestHoldsOnlyLastCr(input: seq<byte>)
    ensures var rest := Split(StripBom(input), false).rest;
            ContentLen(rest) == |rest| - if EndsInCr(input) then 1 else 0
  {
    hide Split;
    SplitLeavesLastCr(StripBom(input));
    RestIsUndecided(StripBom(input), false);
    assert EndsInCr(StripBom(input)) <==> EndsInCr(input);
    var rest := Split(StripBom(input), false).rest;
    assert rest != [] && ContentLen(rest) == |rest| ==> !IsTerminator(rest[|rest| - 1]);
  }

  lemma StripBomExtends(bs: seq<byte>, more: seq<byte>)
    requires BomDecided(bs)
    ensures StripBom(bs + more) == StripBom(bs) + more
  {
    assert |bs| >= |BOM| ==> (bs + more)[..|BOM|] == bs[..|BOM|];
    assert forall i :: 0 <= i < |bs| ==> (bs + more)[i] == bs[i];
  }

  /** An undecided mark is at most two bytes, none of them a terminator. */
  lemma UndecidedBomIsContent(bs: seq<byte>)
    requires !BomDecided(bs)
    ensures |bs| <= 2 && StripBom(bs) == bs && ContentLen(bs) == |bs|
  {
    assert forall i :: 0 <= i < |bs| ==> bs[i] == BOM[i];
    ContentLenIs(bs, |bs|);
  }

  // ---------- Terminators and the mark, byte by byte ----------

  lemma FirstLine(line: seq<byte>, end: seq<byte>, rest: seq<byte>, closed: bool)
    requires 0x0A !in line && 0x0D !in line
    requires end == [0x0A] || end == [0x0D, 0x0A] || (end == [0x0D] && rest != [] && rest[0] != 0x0A)
             || (end == [0x0D] && rest == [] && closed)
    ensures var tail := Split(rest, closed);
            Split(line + end + rest, closed) == Cut([line] + tail.lines, tail.rest)
  {
    hide Split;
    var bs := line + end + rest;
    ContentLenIs(bs, |line|);
    assert bs[..|line|] == line && bs[|line| + |end|..] == rest;
    assert |end| == 1 && rest != [] ==> bs[|line| + 1] == rest[0];
    SplitTakesLine(bs, closed);
  }

  /** What has no terminator, or on an open stream only a last CR, is no line yet. */
  lemma NoLineYet(line: seq<byte>, closed: bool)
    requires 0x0A !in line && 0x0D !in line
    ensures Split(line, closed) == Cut([], line)
    ensures Split(line + [0x0D], false) == Cut([], line + [0x0D])
  {
    ContentLenIs(line, |line|);
    ContentLenIs(line + [0x0D], |line|);
  }

  /** The mark is U+FEFF in UTF-8; one is dropped from the front, and nothing else. */
  lemma MarkIsDroppedOnce(bs: seq<byte>)
    ensures BOM == EncodeChar('\U{FEFF}') == [0xEF, 0xBB, 0xBF]
    ensures StripBom([0xEF, 0xBB, 0xBF] + bs) == bs
    ensures !([0xEF, 0xBB, 0xBF] <= bs) ==> StripBom(bs) == bs
  {
  }
}
