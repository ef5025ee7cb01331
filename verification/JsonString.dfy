/**
 Writing JSON string literals and flat JSON objects byte by byte, and reading them back by
 section 7 of RFC 8259.
 */
module JsonString {
  import opened Utf8
  import opened Wrappers

  const QUOTE: byte := 0x22
  const BACKSLASH: byte := 0x5C
  const COMMA: byte := 0x2C
  const COLON: byte := 0x3A
  const OPEN: byte := 0x7B
  const CLOSE: byte := 0x7D

  // ---------- Writing ----------

  /** A lower-case hexadecimal digit. */
  function HexDigit(d: nat): byte
    requires d < 16
  {
    if d < 10 then 0x30 + d else 0x61 + (d - 10)
  }

  function Escape(b: byte): seq<byte> {
    if b == QUOTE then [BACKSLASH, QUOTE]
    else if b == BACKSLASH then [BACKSLASH, BACKSLASH]
    else if b == 0x08 then [BACKSLASH, 0x62]
    else if b == 0x0C then [BACKSLASH, 0x66]
    else if b == 0x0A then [BACKSLASH, 0x6E]
    else if b == 0x0D then [BACKSLASH, 0x72]
    else if b == 0x09 then [BACKSLASH, 0x74]
    else if b < 0x20 then [BACKSLASH, 0x75, 0x30, 0x30, HexDigit(b / 16), HexDigit(b % 16)]
    else [b]
  }

  function EscapeAll(value: seq<byte>): seq<byte> {
    if value == [] then [] else EscapeAll(value[..|value| - 1]) + Escape(value[|value| - 1])
  }

  function Literal(value: seq<byte>): seq<byte> {
    [QUOTE] + EscapeAll(value) + [QUOTE]
  }

  type Entry = (seq<byte>, seq<byte>)

  function Member(entry: Entry): seq<byte> {
    Literal(entry.0) + [COLON] + Literal(entry.1)
  }

  function Members(entries: seq<Entry>): seq<byte> {
    if entries == [] then []
    else if |entries| == 1 then Member(entries[0])
    else Members(entries[..|entries| - 1]) + [COMMA] + Member(entries[|entries| - 1])
  }

  /** The object for a map whose entries, in key order, are `entries`. */
  function ObjectText(entries: seq<Entry>): seq<byte> {
    [OPEN] + Members(entries) + [CLOSE]
  }

  class JsonWriter {
    var out: seq<byte>

    constructor ()
      ensures out == []
    {
      out := [];
    }

    method AppendJsonString(value: seq<byte>)
      modifies this
      ensures out == old(out) + Literal(value)
    {
      hide Escape;
      out := out + [QUOTE];
      for i := 0 to |value|
        invariant out == old(out) + [QUOTE] + EscapeAll(value[..i])
      {
        assert value[..i + 1][..i] == value[..i];
        AppendEscaped(value[i]);
      }
      assert value[..|value|] == value;
      out := out + [QUOTE];
    }

    method AppendEscaped(b: byte)
      modifies this
      ensures out == old(out) + Escape(b)
    {
      if b == QUOTE {
        out := out + [BACKSLASH, QUOTE];
      } else if b == BACKSLASH {
        out := out + [BACKSLASH, BACKSLASH];
      } else if b == 0x08 {
        out := out + [BACKSLASH, 0x62];
      } else if b == 0x0C {
        out := out + [BACKSLASH, 0x66];
      } else if b == 0x0A {
        out := out + [BACKSLASH, 0x6E];
      } else if b == 0x0D {
        out := out + [BACKSLASH, 0x72];
      } else if b == 0x09 {
        out := out + [BACKSLASH, 0x74];
      } else if b < 0x20 {
        out := out + [BACKSLASH, 0x75, 0x30, 0x30, HexDigit(b / 16), HexDigit(b % 16)];
      } else {
        out := out + [b];
      }
    }

    method ToIdentifierJson(identifier: seq<Entry>)
      modifies this
      ensures out == ObjectText(identifier)
    {
      hide Literal, Member;
      out := [OPEN];
      var first := true;
      for i := 0 to |identifier|
        invariant out == [OPEN] + Members(identifier[..i]) && first == (i == 0)
      {
        MembersGrow(identifier[..i], identifier[i]);
        assert identifier[..i + 1] == identifier[..i] + [identifier[i]];
        if !first {
          out := out + [COMMA];
        }
        first := false;
        AppendJsonString(identifier[i].0);
        out := out + [COLON];
        AppendJsonString(identifier[i].1);
      }
      assert identifier[..|identifier|] == identifier;
      out := out + [CLOSE];
    }
  }

  lemma MembersGrow(entries: seq<Entry>, entry: Entry)
    ensures var start := if entries == [] then [OPEN] else [OPEN] + Members(entries) + [COMMA];
            start + Literal(entry.0) + [COLON] + Literal(entry.1) == [OPEN] + Members(entries + [entry])
    ensures Members([]) == []
  {
    hide Literal;
    assert (entries + [entry])[..|entries|] == entries;
  }

  // ---------- Reading ----------

  function HexValue(b: byte): Option<nat> {
    if 0x30 <= b <= 0x39 then Some(b - 0x30)
    else if 0x41 <= b <= 0x46 then Some(b - 0x41 + 10)
    else if 0x61 <= b <= 0x66 then Some(b - 0x61 + 10)
    else None
  }

  function CodeUnit(bs: seq<byte>): Option<nat>
    requires |bs| >= 4
  {
    match (HexValue(bs[0]), HexValue(bs[1]), HexValue(bs[2]), HexValue(bs[3]))
    case (Some(a), Some(b), Some(c), Some(d)) => Some(((a * 16 + b) * 16 + c) * 16 + d)
    case _ => None
  }

  /** The character of a `\u` escape, which two of them make together outside the basic plane. */
  function ReadUnicode(bs: seq<byte>): Option<(char, nat)>
    requires |bs| >= 6
  {
    match CodeUnit(bs[2..])
    case None => None
    case Some(unit) =>
      if unit < 0xD800 || 0xE000 <= unit <= 0xFFFF then Some((unit as char, 6))
      else if unit < 0xDC00 && |bs| >= 12 && bs[6] == 0x5C && bs[7] == 0x75 then
        match CodeUnit(bs[8..])
        case None => None
        case Some(low) =>
          if 0xDC00 <= low < 0xE000 then
            Some(((0x10000 + (unit - 0xD800) * 0x400 + (low - 0xDC00)) as char, 12))
          else None
      else None
  }

  function Unescaped(b: byte): Option<byte> {
    if b == 0x22 || b == 0x5C || b == 0x2F then Some(b)
    else if b == 0x62 then Some(0x08)
    else if b == 0x66 then Some(0x0C)
    else if b == 0x6E then Some(0x0A)
    else if b == 0x72 then Some(0x0D)
    else if b == 0x74 then Some(0x09)
    else None
  }

  /** What one element of a string literal stands for, and how many bytes it takes. A raw
      quote or control byte is none. */
  function ReadElement(bs: seq<byte>): (r: Option<(seq<byte>, nat)>)
    ensures r.Some? ==> 0 < r.value.1 <= |bs|
  {
    if bs == [] || bs[0] == 0x22 || bs[0] < 0x20 then None
    else if bs[0] != 0x5C then Some(([bs[0]], 1))
    else if |bs| < 2 then None
    else if bs[1] == 0x75 then
      if |bs| < 6 then None
      else
        match ReadUnicode(bs)
        case None => None
        case Some((c, n)) => Some((EncodeChar(c), n))
    else
      match Unescaped(bs[1])
      case None => None
      case Some(b) => Some(([b], 2))
  }

  /** The value of the elements up to the closing quote, and what follows that quote. */
  function ReadElements(bs: seq<byte>): (r: Option<(seq<byte>, seq<byte>)>)
    ensures r.Some? ==> |r.value.1| < |bs|
    decreases |bs|
  {
    if bs != [] && bs[0] == 0x22 then Some(([], bs[1..]))
    else
      match ReadElement(bs)
      case None => None
      case Some((part, n)) =>
        match ReadElements(bs[n..])
        case None => None
        case Some((value, rest)) => Some((part + value, rest))
  }

  function ReadString(bs: seq<byte>): (r: Option<(seq<byte>, seq<byte>)>)
    ensures r.Some? ==> |r.value.1| < |bs|
  {
    if bs != [] && bs[0] == 0x22 then ReadElements(bs[1..]) else None
  }

  // ---------- What is written reads back ----------

  lemma EscapeIsOneElement(b: byte, rest: seq<byte>)
    ensures ReadElement(Escape(b) + rest) == Some(([b], |Escape(b)|))
    ensures Escape(b)[0] != QUOTE
  {
    var e := Escape(b);
    var bs := e + rest;
    assert forall i :: 0 <= i < |e| ==> bs[i] == e[i];
    if |e| == 6 {
      assert bs[2..][0] == 0x30 && bs[2..][1] == 0x30 && bs[2..][2] == e[4] && bs[2..][3] == e[5];
      assert CodeUnit(bs[2..]) == Some(b);
      assert EncodeChar(b as char) == [b];
    }
  }

  lemma {:induction false} EscapeAllConcat(a: seq<byte>, b: seq<byte>)
    ensures EscapeAll(a + b) == EscapeAll(a) + EscapeAll(b)
    decreases |b|
  {
    hide Escape;
    if b == [] {
      assert a + b == a;
    } else {
      var n := |b| - 1;
      assert (a + b)[..|a + b| - 1] == a + b[..n];
      EscapeAllConcat(a, b[..n]);
    }
  }

  lemma {:induction false} ElementsReadBack(value: seq<byte>, rest: seq<byte>)
    ensures ReadElements(EscapeAll(value) + [QUOTE] + rest) == Some((value, rest))
    decreases |value|
  {
    hide ReadElement, Escape;
    if value == [] {
      assert EscapeAll(value) + [QUOTE] + rest == [QUOTE] + rest && ([QUOTE] + rest)[1..] == rest;
    } else {
      var head, tail := Escape(value[0]), EscapeAll(value[1..]) + [QUOTE] + rest;
      EscapeAllConcat([value[0]], value[1..]);
      assert value == [value[0]] + value[1..] && EscapeAll([value[0]]) == EscapeAll([]) + head;
      var bs := EscapeAll(value) + [QUOTE] + rest;
      assert bs == head + tail;
      EscapeIsOneElement(value[0], tail);
      assert bs[|head|..] == tail && bs[0] == head[0];
      ElementsReadBack(value[1..], rest);
    }
  }

  /** Un-escaping a literal gives back the bytes that were escaped, whatever follows it. */
  lemma LiteralReadsBack(value: seq<byte>, rest: seq<byte>)
    ensures ReadString(Literal(value) + rest) == Some((value, rest))
  {
    assert (Literal(value) + rest)[1..] == EscapeAll(value) + [QUOTE] + rest;
    ElementsReadBack(value, rest);
  }

  /** No control byte, so no NUL: a C string of the output is the whole output. */
  lemma {:induction false} EscapedHasNoControl(value: seq<byte>)
    ensures forall b :: b in EscapeAll(value) ==> b >= 0x20
    decreases |value|
  {
    if value != [] {
      EscapedHasNoControl(value[..|value| - 1]);
    }
  }

  lemma MemberHasNoControl(entry: Entry)
    ensures forall b :: b in Member(entry) ==> b >= 0x20
  {
    EscapedHasNoControl(entry.0);
    EscapedHasNoControl(entry.1);
  }

  lemma {:induction false} MembersHaveNoControl(entries: seq<Entry>)
    ensures forall b :: b in Members(entries) ==> b >= 0x20
    decreases |entries|
  {
    hide Member;
    if entries != [] {
      var n := |entries| - 1;
      MemberHasNoControl(entries[n]);
      MembersHaveNoControl(entries[..n]);
    }
  }

  lemma ObjectHasNoControl(entries: seq<Entry>)
    ensures forall b :: b in ObjectText(entries) ==> b >= 0x20
  {
    MembersHaveNoControl(entries);
  }

  /** The short forms are used where there are any. */
  lemma ShortForms()
    ensures Escape(0x22) == [0x5C, 0x22] && Escape(0x5C) == [0x5C, 0x5C]
    ensures Escape(0x08) == [0x5C, 'b' as int] && Escape(0x0C) == [0x5C, 'f' as int]
    ensures Escape(0x0A) == [0x5C, 'n' as int] && Escape(0x0D) == [0x5C, 'r' as int]
    ensures Escape(0x09) == [0x5C, 't' as int]
  {
  }

  /** The other control bytes are four lower-case hexadecimal digits, and any other byte is itself. */
  lemma OtherForms(b: byte)
    ensures b < 0x20 && b !in {0x08, 0x09, 0x0A, 0x0C, 0x0D} ==>
              Escape(b) == [0x5C, 'u' as int, '0' as int, '0' as int,
                            "0123456789abcdef"[b / 16] as int, "0123456789abcdef"[b % 16] as int]
    ensures b >= 0x20 && b != 0x22 && b != 0x5C ==> Escape(b) == [b]
  {
    if b < 0x20 {
      HexDigitIs(b / 16);
      HexDigitIs(b % 16);
    }
  }

  lemma HexDigitIs(d: nat)
    requires d < 16
    ensures HexDigit(d) == "0123456789abcdef"[d] as int
  {
  }

  // ---------- Objects ----------

  function ReadMember(bs: seq<byte>): (r: Option<(Entry, seq<byte>)>)
    ensures r.Some? ==> |r.value.1| < |bs|
  {
    match ReadString(bs)
    case None => None
    case Some((key, more)) =>
      if more == [] || more[0] != 0x3A then None
      else
        match ReadString(more[1..])
        case None => None
        case Some((value, rest)) => Some(((key, value), rest))
  }

  /** Members up to the closing brace. */
  function ReadMembers(bs: seq<byte>): Option<(seq<Entry>, seq<byte>)>
    decreases |bs|
  {
    match ReadMember(bs)
    case None => None
    case Some((entry, more)) =>
      if more != [] && more[0] == 0x7D then Some(([entry], more[1..]))
      else if more != [] && more[0] == 0x2C then
        match ReadMembers(more[1..])
        case None => None
        case Some((entries, rest)) => Some(([entry] + entries, rest))
      else None
  }

  function ReadObject(bs: seq<byte>): Option<(seq<Entry>, seq<byte>)> {
    if bs == [] || bs[0] != 0x7B then None
    else if |bs| > 1 && bs[1] == 0x7D then Some(([], bs[2..]))
    else ReadMembers(bs[1..])
  }

  lemma MemberReadsBack(entry: Entry, rest: seq<byte>)
    ensures ReadMember(Member(entry) + rest) == Some((entry, rest))
  {
    hide ReadString, Literal;
    var after := [COLON] + Literal(entry.1) + rest;
    assert Member(entry) + rest == Literal(entry.0) + after;
    LiteralReadsBack(entry.0, after);
    assert after[1..] == Literal(entry.1) + rest;
    LiteralReadsBack(entry.1, rest);
  }

  lemma {:induction false} MembersFromFront(entries: seq<Entry>)
    requires |entries| > 1
    ensures Members(entries) == Member(entries[0]) + [COMMA] + Members(entries[1..])
    decreases |entries|
  {
    hide Member;
    var n := |entries| - 1;
    var last := [COMMA] + Member(entries[n]);
    assert entries[1..][..n - 1] == entries[..n][1..];
    if n > 1 {
      MembersFromFront(entries[..n]);
      var front, middle := Member(entries[0]) + [COMMA], Members(entries[..n][1..]);
      assert Members(entries[1..]) == middle + last;
      assert (front + middle) + last == front + (middle + last);
    }
  }

  lemma MembersReadOne(entry: Entry, rest: seq<byte>)
    ensures ReadMembers(Member(entry) + ([CLOSE] + rest)) == Some(([entry], rest))
  {
    hide ReadMember, Member;
    MemberReadsBack(entry, [CLOSE] + rest);
    assert ([CLOSE] + rest)[1..] == rest;
  }

  lemma MembersReadMore(entry: Entry, more: seq<byte>)
    ensures ReadMembers(Member(entry) + ([COMMA] + more))
            == match ReadMembers(more)
               case None => None
               case Some((entries, rest)) => Some(([entry] + entries, rest))
  {
    hide ReadMember, Member;
    MemberReadsBack(entry, [COMMA] + more);
    assert ([COMMA] + more)[1..] == more;
  }

  lemma {:induction false} MembersReadBack(entries: seq<Entry>, rest: seq<byte>)
    requires entries != []
    ensures ReadMembers(Members(entries) + ([CLOSE] + rest)) == Some((entries, rest))
    decreases |entries|
  {
    hide ReadMembers, Member;
    if |entries| == 1 {
      MembersReadOne(entries[0], rest);
      assert entries == [entries[0]];
    } else {
      var others := Members(entries[1..]);
      MembersFromFront(entries);
      var end := [CLOSE] + rest;
      assert (Member(entries[0]) + [COMMA] + others) + end == Member(entries[0]) + ([COMMA] + (others + end));
      MembersReadMore(entries[0], others + end);
      MembersReadBack(entries[1..], rest);
      assert entries == [entries[0]] + entries[1..];
    }
  }

  lemma {:induction false} MembersStartWithKey(entries: seq<Entry>)
    requires entries != []
    ensures Members(entries) != [] && Members(entries)[0] == QUOTE
    decreases |entries|
  {
    if |entries| > 1 {
      MembersStartWithKey(entries[..|entries| - 1]);
    }
  }

  /** An identifier's JSON reads back as the identifier. */
  lemma ObjectReadsBack(entries: seq<Entry>, rest: seq<byte>)
    ensures ReadObject(ObjectText(entries) + rest) == Some((entries, rest))
  {
    hide ReadMembers, Member;
    var bs := ObjectText(entries) + rest;
    if entries == [] {
      assert bs[2..] == rest;
    } else {
      MembersStartWithKey(entries);
      assert bs[1..] == Members(entries) + ([CLOSE] + rest);
      MembersReadBack(entries, rest);
    }
  }

  /** So two identifiers never have the same JSON. */
  lemma IdentifierJsonIsInjective(a: seq<Entry>, b: seq<Entry>)
    ensures ObjectText(a) == ObjectText(b) ==> a == b
  {
    ObjectReadsBack(a, []);
    ObjectReadsBack(b, []);
  }

  // ---------- Maps ----------

  /** The order of `std::string` keys: byte by byte, a prefix first. */
  predicate Less(a: seq<byte>, b: seq<byte>) {
    b != [] && (a == [] || a[0] < b[0] || (a[0] == b[0] && Less(a[1..], b[1..])))
  }

  /** What iterating over the map visits. */
  ghost predicate Iterates(m: map<seq<byte>, seq<byte>>, entries: seq<Entry>) {
    && (forall i, j :: 0 <= i < j < |entries| ==> Less(entries[i].0, entries[j].0))
    && forall e: Entry :: e in entries <==> e.0 in m && m[e.0] == e.1
  }

  /** That order: at the first place where they differ, one has ended or has the lesser byte. */
  lemma {:induction false} LessMeans(a: seq<byte>, b: seq<byte>)
    ensures Less(a, b) <==> exists i :: 0 <= i <= |a| && DifferAt(a, b, i)
    decreases |a|
  {
    if a == [] {
      assert DifferAt(a, b, 0) <==> b != [];
    } else if b != [] && a[0] == b[0] {
      LessMeans(a[1..], b[1..]);
      if i :| 0 <= i <= |a[1..]| && DifferAt(a[1..], b[1..], i) {
        SameStart(a, b, i + 1);
        assert DifferAt(a, b, i + 1);
      }
      if i :| 0 <= i <= |a| && DifferAt(a, b, i) {
        SameStart(a, b, i);
        assert DifferAt(a[1..], b[1..], i - 1);
      }
    } else {
      assert DifferAt(a, b, 0) <==> b != [] && a[0] < b[0];
    }
  }

  ghost predicate DifferAt(a: seq<byte>, b: seq<byte>, i: nat) {
    i <= |a| && i < |b| && a[..i] == b[..i] && (i == |a| || a[i] < b[i])
  }

  lemma SameStart(a: seq<byte>, b: seq<byte>, i: nat)
    requires a != [] && b != [] && a[0] == b[0] && 1 <= i <= |a|
    ensures DifferAt(a, b, i) <==> DifferAt(a[1..], b[1..], i - 1)
  {
    if i < |b| {
      assert a[..i] == [a[0]] + a[1..][..i - 1] && b[..i] == [b[0]] + b[1..][..i - 1];
      assert a[1..][..i - 1] == a[..i][1..] && b[1..][..i - 1] == b[..i][1..];
    }
  }

  lemma {:induction false} LessIsOneWay(a: seq<byte>, b: seq<byte>)
    requires Less(a, b)
    ensures a != b && !Less(b, a)
    decreases |a|
  {
    if a != [] && a[0] == b[0] {
      LessIsOneWay(a[1..], b[1..]);
    }
  }

  lemma {:induction false} OneOrderOnly(a: seq<Entry>, b: seq<Entry>)
    requires forall i, j :: 0 <= i < j < |a| ==> Less(a[i].0, a[j].0)
    requires forall i, j :: 0 <= i < j < |b| ==> Less(b[i].0, b[j].0)
    requires forall e :: e in a <==> e in b
    ensures a == b
    decreases |a|
  {
    hide Less;
    assert a != [] ==> a[0] in a;
    assert b != [] ==> b[0] in b;
    if a != [] {
      var p, q :| 0 <= p < |a| && a[p] == b[0] && 0 <= q < |b| && b[q] == a[0];
      if p > 0 && q > 0 {
        LessIsOneWay(a[0].0, a[p].0);
      }
      forall e ensures e in a[1..] <==> e in a && e != a[0] {
        OnceOnly(a, e);
      }
      forall e ensures e in b[1..] <==> e in b && e != b[0] {
        OnceOnly(b, e);
      }
      OneOrderOnly(a[1..], b[1..]);
      assert a == [a[0]] + a[1..] && b == [b[0]] + b[1..];
    }
  }

  lemma OnceOnly(a: seq<Entry>, e: Entry)
    requires a != [] && forall i, j :: 0 <= i < j < |a| ==> Less(a[i].0, a[j].0)
    ensures e in a[1..] <==> e in a && e != a[0]
  {
    hide Less;
    if i :| 1 <= i < |a| && a[i] == e {
      LessIsOneWay(a[0].0, a[i].0);
      assert a[1..][i - 1] == e;
    }
  }

  lemma {:induction false} LessIsTotal(a: seq<byte>, b: seq<byte>)
    ensures a == b || Less(a, b) || Less(b, a)
    decreases |a|
  {
    if a != [] && b != [] && a[0] == b[0] {
      LessIsTotal(a[1..], b[1..]);
      assert a == [a[0]] + a[1..] && b == [b[0]] + b[1..];
    }
  }

  lemma {:induction false} LessIsTransitive(a: seq<byte>, b: seq<byte>, c: seq<byte>)
    requires Less(a, b) && Less(b, c)
    ensures Less(a, c)
    decreases |a|
  {
    if a != [] && a[0] == b[0] == c[0] {
      LessIsTransitive(a[1..], b[1..], c[1..]);
    }
  }

  /** The greatest key of a map. */
  lemma {:induction false} GreatestKey(keys: set<seq<byte>>) returns (greatest: seq<byte>)
    requires keys != {}
    ensures greatest in keys && forall k :: k in keys && k != greatest ==> Less(k, greatest)
    decreases |keys|
  {
    hide Less;
    greatest :| greatest in keys;
    var rest := keys - {greatest};
    if rest != {} {
      var other := GreatestKey(rest);
      LessIsTotal(greatest, other);
      if Less(greatest, other) {
        greatest := other;
      } else {
        forall k | k in rest && k != other ensures Less(k, greatest) {
          LessIsTransitive(k, other, greatest);
        }
      }
    }
  }

  /** Every map has its iteration. */
  lemma {:induction false} EveryMapIterates(m: map<seq<byte>, seq<byte>>)
    ensures exists entries :: Iterates(m, entries)
    decreases |m.Keys|
  {
    hide Less;
    if m.Keys == {} {
      assert Iterates(m, []);
    } else {
      var last := GreatestKey(m.Keys);
      var rest := m - {last};
      assert rest.Keys == m.Keys - {last};
      EveryMapIterates(rest);
      var before :| Iterates(rest, before);
      IterationGrows(m, last, before);
    }
  }

  lemma IterationGrows(m: map<seq<byte>, seq<byte>>, last: seq<byte>, before: seq<Entry>)
    requires last in m && forall k :: k in m && k != last ==> Less(k, last)
    requires Iterates(m - {last}, before)
    ensures Iterates(m, before + [(last, m[last])])
  {
    hide Less;
    var entries := before + [(last, m[last])];
    forall i, j | 0 <= i < j < |entries| ensures Less(entries[i].0, entries[j].0) {
      assert before[i] in before;
    }
  }

  /** What iterating over a map visits, and so the JSON of the map. */
  ghost function EntriesOf(m: map<seq<byte>, seq<byte>>): (entries: seq<Entry>)
    ensures Iterates(m, entries)
  {
    EveryMapIterates(m);
    var entries :| Iterates(m, entries);
    entries
  }

  /** All maps have one JSON each, and no two the same. */
  lemma MapJsonIsInjective(a: map<seq<byte>, seq<byte>>, b: map<seq<byte>, seq<byte>>)
    ensures ObjectText(EntriesOf(a)) == ObjectText(EntriesOf(b)) <==> a == b
    ensures forall entries :: Iterates(a, entries) ==> entries == EntriesOf(a)
  {
    hide Less, ObjectText;
    IterationsAgree(a, b, EntriesOf(a), EntriesOf(b));
    IdentifierJsonIsInjective(EntriesOf(a), EntriesOf(b));
    forall entries | Iterates(a, entries) ensures entries == EntriesOf(a) {
      IterationsAgree(a, a, entries, EntriesOf(a));
    }
  }

  lemma IterationsAgree(
    a: map<seq<byte>, seq<byte>>, b: map<seq<byte>, seq<byte>>, entriesA: seq<Entry>, entriesB: seq<Entry>)
    requires Iterates(a, entriesA) && Iterates(b, entriesB)
    ensures entriesA == entriesB <==> a == b
  {
    hide Less;
    if a == b {
      OneOrderOnly(entriesA, entriesB);
    }
    if entriesA == entriesB {
      forall k ensures k in a <==> k in b {
        assert k in a ==> (k, a[k]) in entriesA;
        assert k in b ==> (k, b[k]) in entriesB;
      }
      forall k | k in a ensures a[k] == b[k] {
        assert (k, a[k]) in entriesA;
      }
    }
  }
}
