/**
 FIX tag=value syntax (FIX 4.4 Volume 1, "Tag=Value" Syntax): splitting a byte buffer
 into fields, and the round trip with the serialisation of any list of fields.
 */
module FixFields {
  import opened Machine
  import opened Decimal

  const SOH: byte := 1
  const EQUALS: byte := 61

  datatype Field = Field(tag: nat, value: seq<byte>)

  // ---------------------------------------------------------------- searching

  /** The first position of `b` in one 32-byte block: the compare, movemask and trailing-zeros step. */
  method FirstInBlock(block: seq<byte>, b: byte) returns (r: Option<nat>)
    requires |block| == 32
    ensures r == IndexOf(block, b)
  {
    for i := 0 to 32
      invariant b !in block[..i]
    {
      if block[i] == b {
        IndexUnique(block, b, i);
        return Some(i);
      }
    }
    assert block[..32] == block;
    r := None;
  }

  /** Scanning by blocks of 32 and then byte by byte finds the same position as a plain search. */
  method FindSoh(data: seq<byte>, avx2: bool) returns (r: Option<nat>)
    ensures r == IndexOf(data, SOH)
  {
    var i := 0;
    if avx2 {
      while i + 32 <= |data|
        invariant i <= |data| && SOH !in data[..i]
      {
        var block := FirstInBlock(data[i..i + 32], SOH);
        if block.Some? {
          var at := i + block.value;
          assert data[..at] == data[..i] + data[i..i + 32][..block.value];
          IndexUnique(data, SOH, at);
          return Some(at);
        }
        assert data[..i + 32] == data[..i] + data[i..i + 32];
        i := i + 32;
      }
    }
    while i < |data|
      invariant i <= |data| && SOH !in data[..i]
    {
      if data[i] == SOH {
        IndexUnique(data, SOH, i);
        return Some(i);
      }
      i := i + 1;
    }
    assert data[..i] == data;
    r := None;
  }

  // ---------------------------------------------------------------- one field

  /** A tag is all digits, and is kept modulo 2^16. */
  function TagOf(text: seq<byte>): Option<nat> {
    if AllDigits(text) then Some(Value(text) % 0x1_0000) else None
  }

  /** The field at the front of `rest`, and how many bytes it takes. */
  function Head(rest: seq<byte>): (r: Option<(Field, nat)>)
    ensures r.Some? ==> 0 < r.value.1 <= |rest|
  {
    match IndexOf(rest, EQUALS)
    case None => None
    case Some(eq) =>
      match TagOf(rest[..eq])
      case None => None
      case Some(tag) =>
        match IndexOf(rest[eq + 1..], SOH)
        case None => None
        case Some(soh) => Some((Field(tag, rest[eq + 1..][..soh]), eq + 1 + soh + 1))
  }

  /** `parse_field`: the field that starts at `start`, and the position after it. */
  function Parse(data: seq<byte>, start: nat): (r: Option<(Field, nat)>)
    ensures r.Some? ==> start < r.value.1 <= |data|
  {
    if start >= |data| then None
    else match Head(data[start..])
      case None => None
      case Some(hit) => Some((hit.0, start + hit.1))
  }

  /** What repeated `parse_field` calls return, from `pos` up to the first failure. */
  function FieldsFrom(data: seq<byte>, pos: nat): seq<Field>
    decreases |data| - pos
  {
    match Parse(data, pos)
    case None => []
    case Some(hit) => [hit.0] + FieldsFrom(data, hit.1)
  }

  function Fields(data: seq<byte>): seq<Field> {
    FieldsFrom(data, 0)
  }

  lemma WrapDigit(v: nat, d: nat, m: nat)
    requires m > 0
    ensures (((v % m) * 10) % m + d) % m == (v * 10 + d) % m
  {
    var r := v % m;
    ModShift(r * 10 + d, (v / m) * 10, m);
    assert v * 10 + d == r * 10 + d + ((v / m) * 10) * m;
    var s := (r * 10) % m;
    ModShift(s + d, (r * 10) / m, m);
    assert r * 10 + d == s + d + ((r * 10) / m) * m;
  }

  /** One more digit, with both the product and the sum wrapping at 16 bits. */
  lemma TagStep(text: seq<byte>, i: nat, tag: nat)
    requires i < |text| && AllDigits(text[..i]) && IsDigit(text[i])
    requires tag == Value(text[..i]) % 0x1_0000
    ensures AllDigits(text[..i + 1])
    ensures ((tag * 10) % 0x1_0000 + (text[i] - 48)) % 0x1_0000 == Value(text[..i + 1]) % 0x1_0000
  {
    assert text[..i + 1] == text[..i] + [text[i]];
    ValueSnoc(text[..i], text[i]);
    WrapDigit(Value(text[..i]), text[i] - 48, 0x1_0000);
  }

  method ParseTag(text: seq<byte>) returns (r: Option<nat>)
    ensures r == TagOf(text)
  {
    var tag: nat := 0;
    for i := 0 to |text|
      invariant AllDigits(text[..i]) && tag == Value(text[..i]) % 0x1_0000
    {
      var b := text[i];
      if b < 48 || b > 57 {
        return None;
      }
      TagStep(text, i, tag);
      tag := ((tag * 10) % 0x1_0000 + (b - 48)) % 0x1_0000;
    }
    assert text[..|text|] == text;
    r := Some(tag);
  }

  method ParseField(data: seq<byte>, start: nat, avx2: bool) returns (r: Option<(Field, nat)>)
    ensures r == Parse(data, start)
  {
    if start >= |data| {
      return None;
    }
    var remaining := data[start..];
    var eq := IndexOf(remaining, EQUALS);
    if eq.None? {
      return None;
    }
    var tag := ParseTag(remaining[..eq.value]);
    if tag.None? {
      return None;
    }
    var valueStart := eq.value + 1;
    if valueStart >= |remaining| {
      return None;
    }
    var tail := remaining[valueStart..];
    var soh := FindSoh(tail, avx2);
    if soh.None? {
      return None;
    }
    r := Some((Field(tag.value, tail[..soh.value]), start + valueStart + soh.value + 1));
  }

  // ---------------------------------------------------------------- the round trip

  function Encode(f: Field): seq<byte> {
    Print(f.tag) + ([EQUALS] + (f.value + [SOH]))
  }

  function Serialise(fields: seq<Field>): seq<byte> {
    if fields == [] then [] else Encode(fields[0]) + Serialise(fields[1..])
  }

  /** What the wire format can carry: a 16-bit tag and a value without the delimiter. */
  predicate Sendable(f: Field) {
    f.tag < 0x1_0000 && SOH !in f.value
  }

  /** The wire format: the tag in decimal, '=', the value, and the byte 1. */
  lemma WireFormat(tag: nat, value: seq<byte>)
    requires tag < 10
    ensures Encode(Field(tag, value)) == [48 + tag] + (['=' as int] + (value + [1]))
  {
  }

  /** Where the delimiters are decides what is read. */
  lemma HeadSplits(rest: seq<byte>, text: seq<byte>, value: seq<byte>, after: seq<byte>)
    requires rest == text + ([EQUALS] + (value + ([SOH] + after)))
    requires EQUALS !in text && SOH !in value && TagOf(text).Some?
    ensures Head(rest) == Some((Field(TagOf(text).value, value), |text| + 1 + |value| + 1))
  {
    assert rest[..|text|] == text;
    IndexUnique(rest, EQUALS, |text|);
    var tail := rest[|text| + 1..];
    assert tail == value + ([SOH] + after);
    assert tail[..|value|] == value;
    IndexUnique(tail, SOH, |value|);
  }

  lemma Reassociate<T>(a: seq<T>, b: seq<T>, c: seq<T>, d: seq<T>, e: seq<T>)
    ensures (a + (b + (c + d))) + e == a + (b + (c + (d + e)))
  {
  }

  lemma HeadOfEncoded(f: Field, rest: seq<byte>)
    requires Sendable(f)
    ensures Head(Encode(f) + rest) == Some((f, |Encode(f)|))
  {
    ValueOfPrint(f.tag);
    Reassociate(Print(f.tag), [EQUALS], f.value, [SOH], rest);
    HeadSplits(Encode(f) + rest, Print(f.tag), f.value, rest);
  }

  ghost predicate AllSendable(fields: seq<Field>) {
    forall i :: 0 <= i < |fields| ==> Sendable(fields[i])
  }

  lemma ParseEncoded(data: seq<byte>, pos: nat, f: Field, rest: seq<byte>)
    requires pos <= |data| && data[pos..] == Encode(f) + rest && Sendable(f)
    ensures Parse(data, pos) == Some((f, pos + |Encode(f)|)) && data[pos + |Encode(f)|..] == rest
  {
    HeadOfEncoded(f, rest);
    assert data[pos..][|Encode(f)|..] == rest;
  }

  lemma TailSendable(fields: seq<Field>)
    requires AllSendable(fields) && fields != []
    ensures Sendable(fields[0]) && AllSendable(fields[1..])
  {
  }

  lemma FirstField(data: seq<byte>, pos: nat, f: Field, next: nat)
    requires Parse(data, pos) == Some((f, next))
    ensures FieldsFrom(data, pos) == [f] + FieldsFrom(data, next)
  {
  }

  lemma WalkOne(data: seq<byte>, pos: nat, fields: seq<Field>) returns (next: nat)
    requires pos <= |data| && data[pos..] == Serialise(fields) && AllSendable(fields) && fields != []
    ensures Parse(data, pos) == Some((fields[0], next)) && data[next..] == Serialise(fields[1..])
    ensures AllSendable(fields[1..])
  {
    TailSendable(fields);
    ParseEncoded(data, pos, fields[0], Serialise(fields[1..]));
    next := pos + |Encode(fields[0])|;
  }

  lemma {:induction false} WalkSerialised(data: seq<byte>, pos: nat, fields: seq<Field>)
    requires pos <= |data| && data[pos..] == Serialise(fields) && AllSendable(fields)
    ensures FieldsFrom(data, pos) == fields
    decreases |fields|
  {
    if fields != [] {
      var next := WalkOne(data, pos, fields);
      WalkSerialised(data, next, fields[1..]);
      FirstField(data, pos, fields[0], next);
    }
  }

  /** Parsing the serialisation of any list of sendable fields returns exactly that list. */
  lemma ParseSerialised(fields: seq<Field>)
    requires AllSendable(fields)
    ensures Fields(Serialise(fields)) == fields
  {
    var data := Serialise(fields);
    assert data[0..] == data;
    WalkSerialised(data, 0, fields);
  }

  /** Whatever the bytes, a parsed field is one that the format can carry. */
  lemma ParsedIsSendable(rest: seq<byte>)
    ensures Head(rest).Some? ==> Sendable(Head(rest).value.0)
  {
  }

  /** The round trip of a field holds exactly when the format can carry it. */
  lemma RoundTripIff(f: Field)
    ensures Fields(Serialise([f])) == [f] <==> Sendable(f)
  {
    if Sendable(f) {
      ParseSerialised([f]);
    } else {
      var data := Serialise([f]);
      assert data[0..] == data;
      ParsedIsSendable(data);
    }
  }
}
