/**
 The incremental line splitter: bytes arrive in any pieces, lines leave one at a time.

 Ghost fields keep the history the splitter's work is measured against: all bytes fed, the
 lines handed out, and how often its scan loop looked at a byte.
 */
module LineSplitter {
  import opened Utf8
  import opened Lines
  import opened Limits
  import opened Wrappers

  datatype BomState = Pristine | Resolved

  class LineSplitter {
    var buf: seq<byte>
    /** Where the scan for a terminator goes on: all of `buf` before it holds none. */
    var scanFrom: nat
    const maxLineBytes: nat
    var bomState: BomState
    var closed: bool

    ghost var input: seq<byte>
    ghost var taken: seq<seq<byte>>
    /** Rounds of the scan loop so far, and how many of them stopped to hold a CR. */
    ghost var looks: nat
    ghost var holds: nat

    /** Lines taken, then the lines of the buffer, are the lines of everything fed, and
        nothing already scanned is a terminator. */
    ghost predicate Refines()
      reads this
    {
      && scanFrom <= |buf| <= |input|
      && (forall i :: 0 <= i < scanFrom ==> !IsTerminator(buf[i]))
      && (bomState == Pristine ==> buf == input && taken == [] && scanFrom < |BOM|)
      && (bomState == Resolved ==>
            && (closed || BomDecided(input))
            && Split(StripBom(input), closed) == Resume(Cut(taken, buf), closed))
    }

    /** Besides, every byte was looked at once, a held CR once more. */
    ghost predicate Valid()
      reads this
    {
      Refines() && looks <= |input| - |buf| + scanFrom + holds
    }

    /** No decided line is left in the buffer, and every field is what the input alone says. */
    ghost predicate Drained()
      reads this
    {
      && Split(StripBom(input), closed) == Cut(taken, buf)
      && scanFrom == ContentLen(buf)
      && (bomState == Resolved <==> closed || BomDecided(input))
    }

    ghost predicate Marked()
      reads this
    {
      bomState == Pristine && BOM <= buf
    }

    /** The buffer once a leading mark is off. */
    ghost function Unmarked(): seq<byte>
      reads this
    {
      if Marked() then buf[|BOM|..] else buf
    }

    /** How often the scan loop will go round in the next call: over the content that is left and
        its terminator, from where it stopped or, once a mark comes off, from the start. */
    ghost function LooksAhead(): int
      reads this
    {
      var n := ContentLen(Unmarked());
      n - (if Marked() then 0 else scanFrom) + if n < |Unmarked()| then 1 else 0
    }

    /** What a scan of `bs` leaves: all of it, or what follows the line it handed out. */
    ghost predicate Leaves(bs: seq<byte>, r: Result<Option<seq<byte>>, Overflow>)
      reads this
    {
      if r.Ok? && r.value.Some? then
        NextBreak(bs, closed).Some? && r.value.value == bs[..ContentLen(bs)]
        && buf == bs[NextBreak(bs, closed).value..] && scanFrom == 0
      else
        buf == bs && (r.Ok? ==> NextBreak(bs, closed).None? && scanFrom == ContentLen(bs))
    }

    constructor (maxLineBytes: nat)
      ensures Valid() && Drained() && !closed && this.maxLineBytes == maxLineBytes
      ensures input == [] && taken == [] && buf == [] && scanFrom == 0 && bomState == Pristine
      ensures looks == 0 && holds == 0
    {
      buf, scanFrom, bomState, closed := [], 0, Pristine, false;
      this.maxLineBytes := maxLineBytes;
      input, taken, looks, holds := [], [], 0, 0;
    }

    method Feed(chunk: seq<byte>)
      requires Valid()
      modifies this
      ensures Valid()
      ensures closed == old(closed) && taken == old(taken) && looks == old(looks) && holds == old(holds)
      ensures bomState == old(bomState) && scanFrom == old(scanFrom)
      ensures buf == if closed then old(buf) else old(buf) + chunk
      ensures input == if closed then old(input) else old(input) + chunk
    {
      hide ContentLen, NextBreak, Split, StripBom, IsTerminator;
      if closed {
        return;
      }
      if bomState == Resolved {
        StripBomExtends(input, chunk);
        ResumeExtends(StripBom(input), Cut(taken, buf), chunk, false);
      }
      buf := buf + chunk;
      input := input + chunk;
    }

    method End()
      requires Valid()
      modifies this
      ensures Valid() && closed
      ensures taken == old(taken) && input == old(input) && looks == old(looks) && holds == old(holds)
      ensures bomState == old(bomState) && scanFrom == old(scanFrom) && buf == old(buf)
    {
      if bomState == Resolved && !closed {
        ResumeExtends(StripBom(input), Cut(taken, buf), [], true);
        assert StripBom(input) + [] == StripBom(input) && buf + [] == buf;
      }
      closed := true;
    }

    /** Hands out the next line. Refuses it, finished or not, once more than `maxLineBytes`
        bytes of content are held, unless they may still be a byte order mark. */
    method NextLine() returns (r: Result<Option<seq<byte>>, Overflow>)
      requires Valid()
      modifies this
      ensures closed == old(closed) && input == old(input)
      ensures Refines() && (r.Ok? ==> Valid())
      ensures Leaves(old(Unmarked()), r)
      ensures looks == old(looks) + old(LooksAhead()) && looks <= |input| + holds
      ensures old(holds) <= holds <= old(holds) + if !closed && EndsInCr(input) then 1 else 0
      ensures r.Ok? ==> holds == old(holds) + if r.value.None? && !closed && EndsInCr(input) then 1 else 0
      ensures r.Ok? && r.value.Some? ==>
                && bomState == Resolved && |buf| < |old(buf)|
                && taken == old(taken) + [r.value.value] && |r.value.value| <= maxLineBytes
      ensures r == Ok(None) ==>
                && taken == old(taken) && Drained()
                && (bomState == Resolved ==> ContentLen(buf) <= maxLineBytes)
      ensures r.Err? ==>
                && taken == old(taken) && r.error == Overflow.Line(maxLineBytes)
                && bomState == Resolved && ContentLen(buf) > maxLineBytes
    {
      ResolveBom();
      var i := Scan();
      ContentLenIs(buf, i);
      if i < |buf| {
        r := EndLineAt(i);
      } else {
        r := StopAt(i);
      }
    }

    /** Decides what the terminator at `i` ends: a CR at the very end may be half of a CRLF
        until the stream closes. */
    method EndLineAt(i: nat) returns (r: Result<Option<seq<byte>>, Overflow>)
      requires Refines() && (bomState == Resolved <==> closed || BomDecided(input))
      requires i < |buf| && IsTerminator(buf[i]) && forall j :: 0 <= j < i ==> !IsTerminator(buf[j])
      requires looks <= |input| - |buf| + i + 1 + holds
      modifies this
      ensures closed == old(closed) && input == old(input) && looks == old(looks)
      ensures Refines() && (r.Ok? ==> Valid()) && Leaves(old(buf), r)
      ensures looks <= |input| + holds
      ensures old(holds) <= holds <= old(holds) + if !closed && EndsInCr(input) then 1 else 0
      ensures r.Ok? ==> holds == old(holds) + if r.value.None? && !closed && EndsInCr(input) then 1 else 0
      ensures r.Ok? && r.value.Some? ==>
                && bomState == Resolved && |buf| < |old(buf)|
                && taken == old(taken) + [r.value.value] && |r.value.value| <= maxLineBytes
      ensures r == Ok(None) ==>
                && taken == old(taken) && Drained()
                && (bomState == Resolved ==> ContentLen(buf) <= maxLineBytes)
      ensures r.Err? ==>
                && taken == old(taken) && r.error == Overflow.Line(maxLineBytes)
                && bomState == Resolved && ContentLen(buf) > maxLineBytes
    {
      FoundTerminator(i);
      if buf[i] == CR && i + 1 == |buf| && !closed {
        r := StopAt(i);
      } else {
        r := TakeLine(i, if buf[i] == CR && i + 1 < |buf| && buf[i + 1] == LF then i + 2 else i + 1);
      }
    }

    /** Looks for a terminator from where the last scan stopped. */
    method Scan() returns (i: nat)
      requires scanFrom <= |buf| && forall j :: 0 <= j < scanFrom ==> !IsTerminator(buf[j])
      modifies `looks
      ensures i <= |buf| && forall j :: 0 <= j < i ==> !IsTerminator(buf[j])
      ensures i < |buf| ==> IsTerminator(buf[i])
      ensures looks == old(looks) + (i - scanFrom) + if i < |buf| then 1 else 0
    {
      i := scanFrom;
      while i < |buf|
        invariant scanFrom <= i <= |buf|
        invariant forall j :: 0 <= j < i ==> !IsTerminator(buf[j])
        invariant looks == old(looks) + (i - scanFrom)
      {
        looks := looks + 1;
        if IsTerminator(buf[i]) {
          return;
        }
        i := i + 1;
      }
    }

    /** Which bytes will be looked at again: none, or the one CR that all bytes so far end in. */
    lemma LooksAgainAtLastCr()
      requires Drained() && !closed
      ensures scanFrom < |buf| <==> EndsInCr(input)
      ensures scanFrom < |buf| ==> scanFrom == |buf| - 1 && buf[scanFrom] == CR
    {
      hide Split, ContentLen;
      RestHoldsOnlyLastCr(input);
      SplitLeavesLastCr(StripBom(input));
    }

    /** A terminator is found only in a buffer that cannot be part of a byte order mark. */
    lemma FoundTerminator(i: nat)
      requires i < |buf| && IsTerminator(buf[i]) && forall j :: 0 <= j < i ==> !IsTerminator(buf[j])
      requires Refines() && (bomState == Resolved <==> closed || BomDecided(input))
      ensures ContentLen(buf) == i && bomState == Resolved
    {
      ContentLenIs(buf, i);
      if bomState == Pristine {
        UndecidedBomIsContent(buf);
      }
    }

    /** Ends a scan that decided no line: remembers where to go on, and checks the bound. */
    method StopAt(i: nat) returns (r: Result<Option<seq<byte>>, Overflow>)
      requires Refines() && NextBreak(buf, closed).None? && i == ContentLen(buf)
      requires bomState == Resolved <==> closed || BomDecided(input)
      requires looks <= |input| - |buf| + i + holds + if i < |buf| then 1 else 0
      modifies `scanFrom, `holds
      ensures Valid() && Drained()
      ensures holds == old(holds) + if !closed && EndsInCr(input) then 1 else 0
      ensures r == if bomState == Resolved && ContentLen(buf) > maxLineBytes
                   then Err(Overflow.Line(maxLineBytes)) else Ok(None)
    {
      hide Split;
      if bomState == Pristine {
        UndecidedIsDrained();
      } else {
        UndecidedRest(taken, buf, closed);
      }
      scanFrom := i;
      if !closed {
        LooksAgainAtLastCr();
      }
      if i < |buf| {
        holds := holds + 1;
      }
      r := CheckBound(i);
    }

    lemma UndecidedIsDrained()
      requires Refines() && bomState == Pristine && !closed && !BomDecided(input)
      ensures Split(StripBom(input), closed) == Cut(taken, buf)
    {
      UndecidedBomIsContent(buf);
    }

    method CheckBound(contentLen: nat) returns (r: Result<Option<seq<byte>>, Overflow>)
      ensures r == if bomState == Resolved && contentLen > maxLineBytes
                   then Err(Overflow.Line(maxLineBytes)) else Ok(None)
    {
      if bomState == Resolved && contentLen > maxLineBytes {
        return Err(Overflow.Line(maxLineBytes));
      }
      return Ok(None);
    }

    /** Takes the first line off the buffer, or leaves all as it is if the line is too long. */
    method TakeLine(lineEnd: nat, drainThrough: nat) returns (r: Result<Option<seq<byte>>, Overflow>)
      requires Refines() && bomState == Resolved
      requires lineEnd == ContentLen(buf) && NextBreak(buf, closed) == Some(drainThrough) && drainThrough <= |buf|
      requires looks <= |input| - |buf| + drainThrough + holds
      modifies this
      ensures closed == old(closed) && input == old(input) && bomState == old(bomState)
      ensures holds == old(holds) && looks == old(looks)
      ensures Refines() && (r.Ok? ==> Valid())
      ensures if lineEnd > maxLineBytes
              then r == Err(Overflow.Line(maxLineBytes)) && taken == old(taken) && buf == old(buf)
              else r == Ok(Some(old(buf)[..lineEnd])) && taken == old(taken) + [old(buf)[..lineEnd]]
                   && buf == old(buf)[drainThrough..] && scanFrom == 0
    {
      if lineEnd > maxLineBytes {
        return Err(Overflow.Line(maxLineBytes));
      }
      var line := buf[..lineEnd];
      ResumeTakesLine(Cut(taken, buf), closed);
      taken := taken + [line];
      buf := buf[drainThrough..];
      scanFrom := 0;
      return Ok(Some(line));
    }

    method ResolveBom()
      requires Valid()
      modifies this
      ensures Valid() && closed == old(closed) && input == old(input) && taken == old(taken)
      ensures holds == old(holds) && looks == old(looks) && |buf| <= |old(buf)|
      ensures bomState == Resolved <==> closed || BomDecided(input)
      ensures buf == old(Unmarked()) && scanFrom == if old(Marked()) then 0 else old(scanFrom)
    {
      hide ContentLen, NextBreak, Split;
      if bomState == Resolved {
        return;
      }
      if |buf| >= |BOM| {
        if BOM <= buf {
          buf := buf[|BOM|..];
          scanFrom := 0;
        }
        bomState := Resolved;
        return;
      }
      if !(buf <= BOM) {
        bomState := Resolved;
        return;
      }
      if closed {
        bomState := Resolved;
      }
    }
  }

  lemma UndecidedRest(taken: seq<seq<byte>>, rest: seq<byte>, closed: bool)
    requires NextBreak(rest, closed).None?
    ensures Resume(Cut(taken, rest), closed) == Cut(taken, rest)
  {
    assert taken + [] == taken;
  }

  /** The scan loop is not quite once round per byte: a CR that ends a piece is looked at again.
      Two bytes here, in two pieces, take three looks. */
  method HeldCrIsLookedAtTwice(maxLineBytes: nat) returns (line: Result<Option<seq<byte>>, Overflow>, ghost looks: nat)
    ensures line == Ok(Some([])) && looks == 3
  {
    hide LineSplitter.Valid, LineSplitter.Refines, LineSplitter.Drained;
    hide ContentLen, NextBreak, Split, StripBom, BomDecided, IsTerminator, Resume, EndsInCr;
    OneCrIsHeld();
    var s := new LineSplitter(maxLineBytes);
    s.Feed([CR]);
    var held := s.NextLine();
    assert held == Ok(None) && s.buf == [CR] && s.scanFrom == 0 && s.looks == 1;
    s.Feed([0x78]);
    assert s.buf == [CR, 0x78];
    line := s.NextLine();
    assert s.buf == [0x78] && s.scanFrom == 0 && s.looks == 2;
    var open := s.NextLine();
    looks := s.looks;
  }

  lemma OneCrIsHeld()
    ensures ContentLen([CR]) == 0 && NextBreak([CR], false) == None
    ensures ContentLen([CR, 0x78]) == 0 && NextBreak([CR, 0x78], false) == Some(1) && [CR, 0x78][1..] == [0x78]
    ensures ContentLen([0x78]) == 1 && [CR] + [0x78] == [CR, 0x78] && [] + [CR] == [CR]
    ensures !(BOM <= [CR]) && !(BOM <= [CR, 0x78]) && !(BOM <= [0x78])
  {
    ContentLenIs([0x78], 1);
  }
}
