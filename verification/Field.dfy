/**
 Classifying one line of bytes. Names and values are cut out of the bytes first and decoded
 after, which is proved to be the same as decoding the line first.
 */
module Field {
  import opened Utf8
  import opened EventStream

  const COLON: byte := 0x3A
  const SPACE: byte := 0x20

  function Position(line: seq<byte>, b: byte): (i: nat)
    ensures i <= |line| && (forall j :: 0 <= j < i ==> line[j] != b) && (i < |line| ==> line[i] == b)
  {
    if line == [] || line[0] == b then 0 else 1 + Position(line[1..], b)
  }

  function ClassifyLine(line: seq<byte>): LineKind {
    if line == [] then Blank
    else if line[0] == COLON then Comment
    else
      var colon := Position(line, COLON);
      if colon == |line| then LineKind.Field(Lossy(line), Lossy([]))
      else
        var after := line[colon + 1..];
        var value := if after != [] && after[0] == SPACE then after[1..] else after;
        LineKind.Field(Lossy(line[..colon]), Lossy(value))
  }

  lemma IndexOfIs(s: string, c: char, i: nat)
    requires i <= |s| && (forall j :: 0 <= j < i ==> s[j] != c) && (i < |s| ==> s[i] == c)
    ensures IndexOf(s, c) == i
  {
    assert IndexOf(s, c) >= i;
  }

  lemma DecodeDropsSpace(after: seq<byte>)
    ensures var text := Decode(after);
            Decode(if after != [] && after[0] == SPACE then after[1..] else after)
            == if text != "" && text[0] == ' ' then text[1..] else text
  {
    DecodeKeepsFirstAscii(after, ' ');
    if after != [] && after[0] == SPACE {
      assert after == [] + [SPACE] + after[1..];
      DecodeCutsAtAscii([], SPACE, after[1..]);
    }
  }

  /** Classifying bytes and decoding the pieces is decoding the line and parsing the text. */
  lemma LateDecodingIsSound(line: seq<byte>)
    ensures ClassifyLine(line) == ParseLine(Decode(line))
  {
    hide Decode, Lossy, Position, IndexOf;
    var colon := Position(line, COLON);
    LossyIsDecode(line);
    LossyIsDecode([]);
    DecodeKeepsFirstAscii([], ':');
    DecodeKeepsFirstAscii(line, ':');
    if colon == |line| {
      assert line[..colon] == line;
      DecodeAddsNoAscii(line, ':');
      IndexOfIs(Decode(line), ':', |Decode(line)|);
    } else {
      var name, after := line[..colon], line[colon + 1..];
      assert line == name + [COLON] + after;
      DecodeCutsAtAscii(name, COLON, after);
      DecodeAddsNoAscii(name, ':');
      var text := Decode(line);
      assert text[..|Decode(name)|] == Decode(name);
      IndexOfIs(text, ':', |Decode(name)|);
      DecodeKeepsFirstAscii(name, ':');
      assert text[|Decode(name)| + 1..] == Decode(after);
      LossyIsDecode(name);
      DecodeDropsSpace(after);
      LossyIsDecode(if after != [] && after[0] == SPACE then after[1..] else after);
    }
  }

  // ---------- Every line, byte by byte ----------

  /** Everything after the first colon is the value, and everything before it the name. */
  lemma ValueIsKept(name: seq<byte>, value: seq<byte>)
    requires name != [] && 0x3A !in name && (value == [] || value[0] != 0x20)
    ensures ClassifyLine(name + [0x3A] + value) == LineKind.Field(Decode(name), Decode(value))
  {
    hide Lossy, Decode;
    var line := name + [0x3A] + value;
    PositionIs(line, 0x3A, |name|);
    assert line[..|name|] == name && line[|name| + 1..] == value;
    LossyIsDecode(name);
    LossyIsDecode(value);
  }

  /** One space after the colon is dropped, and no more than one. */
  lemma OneSpaceIsDropped(name: seq<byte>, value: seq<byte>)
    requires name != [] && 0x3A !in name
    ensures ClassifyLine(name + [0x3A, 0x20] + value) == LineKind.Field(Decode(name), Decode(value))
  {
    hide Lossy, Decode;
    var line := name + [0x3A, 0x20] + value;
    PositionIs(line, 0x3A, |name|);
    assert line[..|name|] == name && line[|name| + 1..] == [0x20] + value && ([0x20] + value)[1..] == value;
    LossyIsDecode(name);
    LossyIsDecode(value);
  }

  /** The lines that are not a name, a colon and a value. */
  lemma OtherLines(line: seq<byte>)
    ensures line == [] ==> ClassifyLine(line) == Blank
    ensures line != [] && line[0] == 0x3A ==> ClassifyLine(line) == Comment
    ensures line != [] && 0x3A !in line ==> ClassifyLine(line) == LineKind.Field(Decode(line), "")
  {
    hide Decode;
    if line != [] && 0x3A !in line {
      PositionIs(line, 0x3A, |line|);
      LossyIsDecode(line);
    }
  }

  lemma PositionIs(line: seq<byte>, b: byte, i: nat)
    requires i <= |line| && (forall j :: 0 <= j < i ==> line[j] != b) && (i < |line| ==> line[i] == b)
    ensures Position(line, b) == i
  {
    assert Position(line, b) >= i;
  }
}
