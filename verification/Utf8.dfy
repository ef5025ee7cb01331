/**
 UTF-8 in the two forms the parser's correctness rests on, and the encoder.

 `Decode` is the decoder of section 8.1.1 of the WHATWG Encoding Standard: one byte at a
 time, with the bytes still needed and the range allowed for the next one as state.
 `Lossy` is what Rust's `String::from_utf8_lossy` does: cut off one sequence, or one
 maximal malformed piece, at a time. They are proved equal, so a field decoded late by
 the parser is a field of the stream decoded first.
 */
module Utf8 {
  type byte = b: int | 0 <= b < 256

  const REPLACEMENT: char := '\U{FFFD}'

  // ---------- The standard's decoder ----------

  datatype Decoder =
    | Start
    | Tail(need: nat, codePoint: nat, lower: int, upper: int)
  {
    /** A pending sequence can only complete to a scalar value outside ASCII. */
    ghost predicate Ok() {
      Tail? ==>
        var least := codePoint * 64 + (lower - 0x80);
        var most := codePoint * 64 + (upper - 0x80);
        && 0x80 <= lower <= upper <= 0xBF
        && ( || (need == 1 && Completes(least, most))
             || (need == 2 && Completes(least * 64, most * 64 + 63))
             || (need == 3 && Completes(least * 4096, most * 4096 + 4095)))
    }
  }

  ghost predicate Completes(least: int, most: int) {
    0x80 <= least && most <= 0x10FFFF && (most < 0xD800 || 0xE000 <= least)
  }

  /** What one byte does when no sequence is pending. */
  function Lead(b: byte): (r: (Decoder, string))
    ensures r.0.Ok()
  {
    if b < 0x80 then (Start, [b as char])
    else if 0xC2 <= b <= 0xDF then (Tail(1, b - 0xC0, 0x80, 0xBF), "")
    else if 0xE0 <= b <= 0xEF then
      (Tail(2, b - 0xE0, if b == 0xE0 then 0xA0 else 0x80, if b == 0xED then 0x9F else 0xBF), "")
    else if 0xF0 <= b <= 0xF4 then
      (Tail(3, b - 0xF0, if b == 0xF0 then 0x90 else 0x80, if b == 0xF4 then 0x8F else 0xBF), "")
    else (Start, [REPLACEMENT])
  }

  /** One byte: a byte that cannot continue the pending sequence ends it as an error and is
      looked at again. */
  function Step(st: Decoder, b: byte): (r: (Decoder, string))
    requires st.Ok()
    ensures r.0.Ok()
  {
    match st
    case Start => Lead(b)
    case Tail(need, codePoint, lower, upper) =>
      if b < lower || upper < b then
        var again := Lead(b);
        (again.0, [REPLACEMENT] + again.1)
      else
        var next := codePoint * 64 + (b - 0x80);
        if need == 1 then (Start, [next as char]) else (Tail(need - 1, next, 0x80, 0xBF), "")
  }

  function DecodeFrom(st: Decoder, bs: seq<byte>): string
    requires st.Ok()
    decreases |bs|
  {
    if bs == [] then
      if st.Start? then "" else [REPLACEMENT]
    else
      var r := Step(st, bs[0]);
      r.1 + DecodeFrom(r.0, bs[1..])
  }

  function Decode(bs: seq<byte>): string {
    DecodeFrom(Start, bs)
  }

  /** An ASCII byte always cuts: whatever was pending before it is replaced, and what
      follows is decoded from scratch. */
  lemma {:induction false} DecodeFromCutsAtAscii(st: Decoder, a: seq<byte>, d: byte, b: seq<byte>)
    requires st.Ok() && d < 0x80
    ensures DecodeFrom(st, a + [d] + b) == DecodeFrom(st, a) + [d as char] + Decode(b)
    decreases |a|
  {
    var all := a + [d] + b;
    if a == [] {
      assert all[0] == d && all[1..] == b;
    } else {
      assert all[0] == a[0] && all[1..] == a[1..] + [d] + b;
      DecodeFromCutsAtAscii(Step(st, a[0]).0, a[1..], d, b);
    }
  }

  lemma DecodeCutsAtAscii(a: seq<byte>, d: byte, b: seq<byte>)
    requires d < 0x80
    ensures Decode(a + [d] + b) == Decode(a) + [d as char] + Decode(b)
  {
    DecodeFromCutsAtAscii(Start, a, d, b);
  }

  /** Decoding makes no ASCII character that was not an ASCII byte. */
  lemma {:induction false} DecodeFromAddsNoAscii(st: Decoder, bs: seq<byte>, c: char)
    requires st.Ok() && c as int < 0x80 && c as int !in bs
    ensures c !in DecodeFrom(st, bs)
    decreases |bs|
  {
    if bs != [] {
      var r := Step(st, bs[0]);
      assert bs[0] in bs && c !in r.1;
      assert forall b :: b in bs[1..] ==> b in bs;
      DecodeFromAddsNoAscii(r.0, bs[1..], c);
    }
  }

  lemma DecodeAddsNoAscii(bs: seq<byte>, c: char)
    requires c as int < 0x80 && c as int !in bs
    ensures c !in Decode(bs)
  {
    DecodeFromAddsNoAscii(Start, bs, c);
  }

  /** A pending sequence decodes to something that does not start with ASCII. */
  lemma {:induction false} PendingStartsOutsideAscii(st: Decoder, bs: seq<byte>)
    requires st.Ok() && st.Tail?
    ensures DecodeFrom(st, bs) != "" && DecodeFrom(st, bs)[0] as int >= 0x80
    decreases |bs|
  {
    if bs != [] {
      var r := Step(st, bs[0]);
      if r.1 == "" {
        PendingStartsOutsideAscii(r.0, bs[1..]);
      }
    }
  }

  /** The first character is ASCII exactly when the first byte is that character. */
  lemma DecodeKeepsFirstAscii(bs: seq<byte>, c: char)
    requires c as int < 0x80
    ensures (bs != [] && bs[0] == c as int) <==> (Decode(bs) != "" && Decode(bs)[0] == c)
    ensures bs == [] <==> Decode(bs) == ""
  {
    if bs != [] {
      var r := Step(Start, bs[0]);
      if r.0.Tail? {
        PendingStartsOutsideAscii(r.0, bs[1..]);
      }
    }
  }

  // ---------- Rust's lossy conversion ----------

  function At(bs: seq<byte>, i: nat): byte {
    if i < |bs| then bs[i] else 0
  }

  predicate Continues(b: byte) {
    0x80 <= b <= 0xBF
  }

  function Width(lead: byte): nat {
    if lead < 0x80 then 1
    else if 0xC2 <= lead <= 0xDF then 2
    else if 0xE0 <= lead <= 0xEF then 3
    else if 0xF0 <= lead <= 0xF4 then 4
    else 0
  }

  predicate SecondAllowed(lead: byte, second: byte) {
    match Width(lead)
    case 2 => Continues(second)
    case 3 =>
      || (lead == 0xE0 && 0xA0 <= second <= 0xBF)
      || (0xE1 <= lead <= 0xEC && 0x80 <= second <= 0xBF)
      || (lead == 0xED && 0x80 <= second <= 0x9F)
      || (0xEE <= lead <= 0xEF && 0x80 <= second <= 0xBF)
    case 4 =>
      || (lead == 0xF0 && 0x90 <= second <= 0xBF)
      || (0xF1 <= lead <= 0xF3 && 0x80 <= second <= 0xBF)
      || (lead == 0xF4 && 0x80 <= second <= 0x8F)
    case _ => false
  }

  /** How many bytes the next piece takes, and the scalar value it is if it is well formed. */
  function NextPiece(bs: seq<byte>): (r: (char, nat))
    requires bs != []
    ensures 1 <= r.1 <= |bs|
  {
    var b0, b1, b2, b3 := bs[0], At(bs, 1), At(bs, 2), At(bs, 3);
    var w := Width(b0);
    if w == 1 then (b0 as char, 1)
    else if w == 0 || !SecondAllowed(b0, b1) then (REPLACEMENT, 1)
    else if w == 2 then (((b0 - 0xC0) * 64 + (b1 - 0x80)) as char, 2)
    else if !Continues(b2) then (REPLACEMENT, 2)
    else if w == 3 then (((b0 - 0xE0) * 4096 + (b1 - 0x80) * 64 + (b2 - 0x80)) as char, 3)
    else if !Continues(b3) then (REPLACEMENT, 3)
    else (((b0 - 0xF0) * 262144 + (b1 - 0x80) * 4096 + (b2 - 0x80) * 64 + (b3 - 0x80)) as char, 4)
  }

  function Lossy(bs: seq<byte>): string
    decreases |bs|
  {
    if bs == [] then ""
    else
      var r := NextPiece(bs);
      [r.0] + Lossy(bs[r.1..])
  }

  /** Where a pending sequence breaks off, it is one replacement and the rest starts afresh. */
  lemma PendingBreaksOff(st: Decoder, bs: seq<byte>, i: nat)
    requires st.Ok() && st.Tail? && i <= |bs|
    requires i == |bs| || bs[i] < st.lower || st.upper < bs[i]
    ensures DecodeFrom(st, bs[i..]) == [REPLACEMENT] + Decode(bs[i..])
  {
    if i < |bs| {
      assert bs[i..][0] == bs[i];
    }
  }

  lemma PendingGoesOn(st: Decoder, bs: seq<byte>, i: nat)
    requires st.Ok() && st.Tail? && i < |bs| && st.lower <= bs[i] <= st.upper
    ensures DecodeFrom(st, bs[i..]) ==
              var next := st.codePoint * 64 + (bs[i] - 0x80);
              if st.need == 1 then [next as char] + Decode(bs[i + 1..])
              else DecodeFrom(Tail(st.need - 1, next, 0x80, 0xBF), bs[i + 1..])
  {
    assert bs[i..][0] == bs[i] && bs[i..][1..] == bs[i + 1..];
  }

  lemma TakesPieceFromSecond(bs: seq<byte>, s1: Decoder)
    requires bs != [] && Lead(bs[0]) == (s1, "") && s1.Tail?
    ensures DecodeFrom(s1, bs[1..]) == [NextPiece(bs).0] + Decode(bs[NextPiece(bs).1..])
  {
    hide DecodeFrom, Decode;
    if |bs| == 1 || !SecondAllowed(bs[0], bs[1]) {
      PendingBreaksOff(s1, bs, 1);
    } else {
      PendingGoesOn(s1, bs, 1);
      if s1.need > 1 {
        TakesPieceFromThird(bs, Step(s1, bs[1]).0);
      }
    }
  }

  lemma TakesPieceFromThird(bs: seq<byte>, s2: Decoder)
    requires |bs| >= 2 && Width(bs[0]) >= 3 && SecondAllowed(bs[0], bs[1])
    requires s2 == Step(Lead(bs[0]).0, bs[1]).0
    ensures DecodeFrom(s2, bs[2..]) == [NextPiece(bs).0] + Decode(bs[NextPiece(bs).1..])
  {
    hide DecodeFrom, Decode;
    if |bs| == 2 || !Continues(bs[2]) {
      PendingBreaksOff(s2, bs, 2);
    } else {
      PendingGoesOn(s2, bs, 2);
      if s2.need > 1 {
        TakesPieceFromFourth(bs, Step(s2, bs[2]).0);
      }
    }
  }

  lemma TakesPieceFromFourth(bs: seq<byte>, s3: Decoder)
    requires |bs| >= 3 && Width(bs[0]) == 4 && SecondAllowed(bs[0], bs[1]) && Continues(bs[2])
    requires s3 == Step(Step(Lead(bs[0]).0, bs[1]).0, bs[2]).0
    ensures DecodeFrom(s3, bs[3..]) == [NextPiece(bs).0] + Decode(bs[NextPiece(bs).1..])
  {
    hide DecodeFrom, Decode;
    if |bs| == 3 || !Continues(bs[3]) {
      PendingBreaksOff(s3, bs, 3);
    } else {
      PendingGoesOn(s3, bs, 3);
    }
  }

  /** The decoder, run over the next piece, emits that piece's character and is back at the start. */
  lemma DecodeTakesPiece(bs: seq<byte>)
    requires bs != []
    ensures Decode(bs) == [NextPiece(bs).0] + Decode(bs[NextPiece(bs).1..])
  {
    var r := Lead(bs[0]);
    assert Decode(bs) == r.1 + DecodeFrom(r.0, bs[1..]);
    if r.0.Tail? {
      TakesPieceFromSecond(bs, r.0);
    }
  }

  /** Rust's lossy conversion is the standard's decoder with replacement. */
  lemma {:induction false} LossyIsDecode(bs: seq<byte>)
    ensures Lossy(bs) == Decode(bs)
    decreases |bs|
  {
    if bs != [] {
      DecodeTakesPiece(bs);
      LossyIsDecode(bs[NextPiece(bs).1..]);
    }
  }

  // ---------- Encoding ----------

  function EncodeChar(c: char): (r: seq<byte>)
    ensures 1 <= |r| <= 4
  {
    var v := c as int;
    if v < 0x80 then [v]
    else if v < 0x800 then [0xC0 + v / 64, 0x80 + v % 64]
    else if v < 0x10000 then [0xE0 + v / 4096, 0x80 + v / 64 % 64, 0x80 + v % 64]
    else [0xF0 + v / 262144, 0x80 + v / 4096 % 64, 0x80 + v / 64 % 64, 0x80 + v % 64]
  }

  function Encode(s: string): seq<byte> {
    if s == "" then [] else EncodeChar(s[0]) + Encode(s[1..])
  }

  /** The length of a Rust `String`: its bytes, not its characters. */
  function Len(s: string): nat {
    |Encode(s)|
  }

  lemma {:induction false} EncodeConcat(a: string, b: string)
    ensures Encode(a + b) == Encode(a) + Encode(b)
    decreases |a|
  {
    if a == "" {
      assert a + b == b;
    } else {
      assert (a + b)[0] == a[0] && (a + b)[1..] == a[1..] + b;
      EncodeConcat(a[1..], b);
    }
  }

  lemma EncodedCharIsOnePiece(c: char, rest: seq<byte>)
    ensures NextPiece(EncodeChar(c) + rest) == (c, |EncodeChar(c)|)
  {
    hide NextPiece;
    var v := c as int;
    if v < 0x800 {
      TwoBytesAreOnePiece(c, rest);
    } else if v < 0x10000 {
      ThreeBytesAreOnePiece(c, rest);
    } else {
      FourBytesAreOnePiece(c, rest);
    }
  }

  lemma TwoBytesAreOnePiece(c: char, rest: seq<byte>)
    requires c as int < 0x800
    ensures NextPiece(EncodeChar(c) + rest) == (c, |EncodeChar(c)|)
  {
  }

  lemma ThreeBytesAreOnePiece(c: char, rest: seq<byte>)
    requires 0x800 <= c as int < 0x10000
    ensures NextPiece(EncodeChar(c) + rest) == (c, |EncodeChar(c)|)
  {
    var v := c as int;
    assert v / 64 / 64 == v / 4096;
    assert v == (v / 4096 * 64 + v / 64 % 64) * 64 + v % 64;
  }

  lemma FourBytesAreOnePiece(c: char, rest: seq<byte>)
    requires 0x10000 <= c as int
    ensures NextPiece(EncodeChar(c) + rest) == (c, |EncodeChar(c)|)
  {
    var v := c as int;
    assert v / 64 / 64 == v / 4096 && v / 4096 / 64 == v / 262144;
    assert v == ((v / 262144 * 64 + v / 4096 % 64) * 64 + v / 64 % 64) * 64 + v % 64;
  }

  lemma DecodeEncodedChar(c: char, rest: seq<byte>)
    ensures Decode(EncodeChar(c) + rest) == [c] + Decode(rest)
  {
    EncodedCharIsOnePiece(c, rest);
    DecodeTakesPiece(EncodeChar(c) + rest);
  }

  /** Decoding undoes encoding, whatever bytes follow. */
  lemma {:induction false} DecodeEncode(s: string, rest: seq<byte>)
    ensures Decode(Encode(s) + rest) == s + Decode(rest)
    decreases |s|
  {
    hide Decode;
    if s == "" {
      assert Encode(s) + rest == rest;
    } else {
      var tail := Encode(s[1..]) + rest;
      assert Encode(s) + rest == EncodeChar(s[0]) + tail;
      DecodeEncodedChar(s[0], tail);
      DecodeEncode(s[1..], rest);
    }
  }

  /** Replacement can make text longer than its bytes, but never more than three times. */
  lemma {:induction false} DecodedLength(bs: seq<byte>)
    ensures Len(Decode(bs)) <= 3 * |bs|
    decreases |bs|
  {
    if bs != [] {
      var r := NextPiece(bs);
      DecodeTakesPiece(bs);
      EncodeConcat([r.0], Decode(bs[r.1..]));
      assert Encode([r.0]) == EncodeChar(r.0) + Encode("");
      DecodedLength(bs[r.1..]);
    }
  }

  // ---------- What is malformed ----------

  lemma PieceIsShortest(bs: seq<byte>)
    requires bs != [] && NextPiece(bs).0 != '\U{FFFD}'
    ensures EncodeChar(NextPiece(bs).0) == bs[..NextPiece(bs).1]
  {
    var n := NextPiece(bs).1;
    if n == 1 {
      OneByteIsShortest(bs);
    } else if n == 2 {
      TwoBytesAreShortest(bs);
    } else if n == 3 {
      ThreeBytesAreShortest(bs);
    } else {
      FourBytesAreShortest(bs);
    }
  }

  lemma OneByteIsShortest(bs: seq<byte>)
    requires bs != [] && NextPiece(bs).1 == 1 && NextPiece(bs).0 != '\U{FFFD}'
    ensures EncodeChar(NextPiece(bs).0) == bs[..1]
  {
  }

  lemma TwoBytesAreShortest(bs: seq<byte>)
    requires bs != [] && NextPiece(bs).1 == 2 && NextPiece(bs).0 != '\U{FFFD}'
    ensures EncodeChar(NextPiece(bs).0) == bs[..2]
  {
    ShortestOfTwo(bs[0] - 0xC0, bs[1] - 0x80);
  }

  lemma ThreeBytesAreShortest(bs: seq<byte>)
    requires bs != [] && NextPiece(bs).1 == 3 && NextPiece(bs).0 != '\U{FFFD}'
    ensures EncodeChar(NextPiece(bs).0) == bs[..3]
  {
    ShortestOfThree(bs[0] - 0xE0, bs[1] - 0x80, bs[2] - 0x80);
  }

  lemma FourBytesAreShortest(bs: seq<byte>)
    requires bs != [] && NextPiece(bs).1 == 4 && NextPiece(bs).0 != '\U{FFFD}'
    ensures EncodeChar(NextPiece(bs).0) == bs[..4]
  {
    ShortestOfFour(bs[0] - 0xF0, bs[1] - 0x80, bs[2] - 0x80, bs[3] - 0x80);
  }

  lemma ShortestOfTwo(a: nat, b: nat)
    requires b < 64
    ensures var v := a * 64 + b; v / 64 == a && v % 64 == b
  {
  }

  lemma ShortestOfThree(a: nat, b: nat, c: nat)
    requires b < 64 && c < 64
    ensures var v := a * 4096 + b * 64 + c; v / 4096 == a && v / 64 % 64 == b && v % 64 == c
  {
    var v := a * 4096 + b * 64 + c;
    assert v == (a * 64 + b) * 64 + c;
    assert v / 64 == a * 64 + b;
  }

  lemma ShortestOfFour(a: nat, b: nat, c: nat, d: nat)
    requires b < 64 && c < 64 && d < 64
    ensures var v := a * 262144 + b * 4096 + c * 64 + d;
            v / 262144 == a && v / 4096 % 64 == b && v / 64 % 64 == c && v % 64 == d
  {
    var v := a * 262144 + b * 4096 + c * 64 + d;
    assert v == ((a * 64 + b) * 64 + c) * 64 + d;
    assert v / 64 == (a * 64 + b) * 64 + c;
    assert v / 4096 == a * 64 + b;
  }

  /** Bytes that decode without U+FFFD are exactly the encoding of what they decode to: nothing
      overlong, no surrogate and nothing cut short passes unreplaced. */
  lemma {:induction false} OnlyEncodingsDecode(bs: seq<byte>)
    requires '\U{FFFD}' !in Decode(bs)
    ensures Encode(Decode(bs)) == bs && Len(Decode(bs)) == |bs|
    decreases |bs|
  {
    hide Decode, NextPiece, EncodeChar;
    if bs == [] {
      NothingDecodes();
    } else {
      var (c, n) := NextPiece(bs);
      DecodeTakesPiece(bs);
      assert Decode(bs)[0] == c && Decode(bs)[1..] == Decode(bs[n..]);
      assert forall d :: d in Decode(bs[n..]) ==> d in Decode(bs);
      OnlyEncodingsDecode(bs[n..]);
      PieceIsShortest(bs);
      assert bs == bs[..n] + bs[n..];
    }
  }

  lemma NothingDecodes()
    ensures Decode([]) == ""
  {
  }

  /** What stands for malformed bytes is U+FFFD: one for each byte that can start nothing, and one
      for a sequence cut short. */
  lemma MalformedIsReplaced(b: byte, rest: seq<byte>)
    ensures 0x80 <= b < 0xC2 || 0xF5 <= b ==> Decode([b] + rest) == ['\U{FFFD}'] + Decode(rest)
    ensures 0xC2 <= b < 0xF5 && (rest == [] || rest[0] < 0x80 || 0xC0 <= rest[0]) ==>
              Decode([b] + rest) == ['\U{FFFD}'] + Decode(rest)
    ensures b < 0x80 ==> Decode([b] + rest) == [b as char] + Decode(rest)
  {
    hide Decode;
    var bs := [b] + rest;
    DecodeTakesPiece(bs);
    assert At(bs, 1) == if rest == [] then 0 else rest[0];
    assert bs[1..] == rest;
  }
}
