/**
 FIX message handling over the parsed fields: the fixed-point decimal reader, the message
 type, and the repeating groups of a market-data incremental refresh (35=X).
 */
module FixMarketData {
  import opened Machine
  import opened Decimal
  import opened FixFields

  const MSG_TYPE: nat := 35
  const SYMBOL: nat := 55
  const MD_ENTRY_TYPE: nat := 269
  const MD_ENTRY_PRICE: nat := 270
  const MD_ENTRY_SIZE: nat := 271
  const FRACTION_DIGITS: nat := 8
  const DOT: byte := 46
  const MINUS: byte := 45

  // ---------------------------------------------------------------- decimals

  /** The digits before the first point; every other byte is skipped. */
  function IntDigits(s: seq<byte>): (d: seq<byte>)
    ensures AllDigits(d)
  {
    if s == [] then []
    else
      var rest, b := s[..|s| - 1], s[|s| - 1];
      if DOT !in rest && IsDigit(b) then IntDigits(rest) + [b] else IntDigits(rest)
  }

  /** The digits after the first point. */
  function FracDigits(s: seq<byte>): (d: seq<byte>)
    ensures AllDigits(d)
  {
    if s == [] then []
    else
      var rest, b := s[..|s| - 1], s[|s| - 1];
      if DOT in rest && IsDigit(b) then FracDigits(rest) + [b] else FracDigits(rest)
  }

  /** At most eight fraction digits count. */
  function Kept(d: seq<byte>): (k: seq<byte>)
    requires AllDigits(d)
    ensures AllDigits(k) && |k| <= FRACTION_DIGITS
  {
    d[..Min(|d|, FRACTION_DIGITS)]
  }

  /** The number the text denotes, times 10^8, before the register wraps. */
  function Scaled(s: seq<byte>): nat {
    Value(IntDigits(s)) * SCALE + Value(Kept(FracDigits(s))) * Pow10(FRACTION_DIGITS - |Kept(FracDigits(s))|)
  }

  lemma {:induction false} Pow10Divides(k: nat)
    requires k <= FRACTION_DIGITS
    ensures SCALE / Pow10(k) == Pow10(FRACTION_DIGITS - k)
    ensures Pow10(k) < SCALE <==> k < FRACTION_DIGITS
  {
    assert Pow10(4) == 10_000;
    assert Pow10(8) == 100_000_000;
  }

  /** The loop's registers: i64 values that wrap, and the fraction flag. */
  datatype Registers = Registers(intPart: int, fracPart: int, fracDivisor: int, inFraction: bool)

  function Digest(r: Registers, b: byte): Registers {
    if b == DOT then r.(inFraction := true)
    else if !IsDigit(b) then r
    else if !r.inFraction then r.(intPart := WrapI64(WrapI64(r.intPart * 10) + (b - ZERO)))
    else if r.fracDivisor < SCALE then
      r.(fracPart := WrapI64(WrapI64(r.fracPart * 10) + (b - ZERO)), fracDivisor := WrapI64(r.fracDivisor * 10))
    else r
  }

  function DigestAll(s: seq<byte>): Registers {
    if s == [] then Registers(0, 0, 1, false) else Digest(DigestAll(s[..|s| - 1]), s[|s| - 1])
  }

  lemma WrapSmall(x: int)
    requires I64_MIN <= x <= I64_MAX
    ensures WrapI64(x) == x
  {
  }

  lemma WrapSum(x: int, c: int, y: int)
    ensures WrapI64(WrapI64(WrapI64(x) * c) + y) == WrapI64(x * c + y)
  {
    WrapAbsorbs(WrapI64(x) * c, 1, y);
    WrapAbsorbs(x, c, y);
  }

  lemma {:induction false} Pow10AtMost(a: nat, b: nat)
    requires a <= b
    ensures Pow10(a) <= Pow10(b)
    decreases b
  {
    if a < b {
      Pow10AtMost(a, b - 1);
    }
  }

  /** A short fraction stays far below the scale, so nothing wraps while it grows. */
  lemma ShortFraction(f: seq<byte>, b: byte)
    requires AllDigits(f) && IsDigit(b) && |f| < FRACTION_DIGITS
    ensures AllDigits(f + [b]) && Value(f + [b]) == Value(f) * 10 + (b - ZERO)
    ensures Value(f) * 10 < SCALE && Pow10(|f|) * 10 <= SCALE
  {
    ValueSnoc(f, b);
    ValueBelow(f);
    Pow10AtMost(|f|, FRACTION_DIGITS - 1);
    assert Pow10(7) == 10_000_000;
  }

  /** One more fraction digit: kept while fewer than eight have been, dropped after that. */
  lemma DigestFraction(r: Registers, f: seq<byte>, b: byte)
    requires AllDigits(f) && IsDigit(b) && r.inFraction
    requires r.fracPart == Value(Kept(f)) && r.fracDivisor == Pow10(|Kept(f)|)
    ensures AllDigits(f + [b])
    ensures Digest(r, b) == r.(fracPart := Value(Kept(f + [b])), fracDivisor := Pow10(|Kept(f + [b])|))
  {
    Pow10Divides(|Kept(f)|);
    if |f| < FRACTION_DIGITS {
      ShortFraction(f, b);
      assert Kept(f) == f && Kept(f + [b]) == f + [b];
      WrapSmall(Value(f) * 10);
      WrapSmall(Value(f) * 10 + (b - ZERO));
      WrapSmall(Pow10(|f|) * 10);
    } else {
      assert Kept(f + [b]) == Kept(f);
    }
  }

  /** The registers hold the digits read so far: whole ones modulo 2^64, kept ones exactly. */
  ghost predicate Means(r: Registers, s: seq<byte>) {
    var kept := Kept(FracDigits(s));
    && (r.inFraction <==> DOT in s)
    && r.intPart == WrapI64(Value(IntDigits(s)))
    && r.fracPart == Value(kept) && r.fracDivisor == Pow10(|kept|)
  }

  lemma DigitsSnoc(rest: seq<byte>, b: byte)
    ensures IntDigits(rest + [b]) == if DOT !in rest && IsDigit(b) then IntDigits(rest) + [b] else IntDigits(rest)
    ensures FracDigits(rest + [b]) == if DOT in rest && IsDigit(b) then FracDigits(rest) + [b] else FracDigits(rest)
  {
    assert (rest + [b])[..|rest|] == rest;
  }

  lemma WrappedDigit(d: seq<byte>, b: byte)
    requires AllDigits(d) && IsDigit(b)
    ensures AllDigits(d + [b])
    ensures WrapI64(WrapI64(WrapI64(Value(d)) * 10) + (b - ZERO)) == WrapI64(Value(d + [b]))
  {
    ValueSnoc(d, b);
    WrapSum(Value(d), 10, b - ZERO);
  }

  lemma WholeDigit(r: Registers, rest: seq<byte>, b: byte)
    requires Means(r, rest) && IsDigit(b) && DOT !in rest
    ensures Means(Digest(r, b), rest + [b])
  {
    DigitsSnoc(rest, b);
    WrappedDigit(IntDigits(rest), b);
  }

  lemma FractionDigit(r: Registers, rest: seq<byte>, b: byte)
    requires Means(r, rest) && IsDigit(b) && DOT in rest
    ensures Means(Digest(r, b), rest + [b])
  {
    DigitsSnoc(rest, b);
    DigestFraction(r, FracDigits(rest), b);
  }

  /** What the registers hold after any prefix of the text. */
  lemma {:induction false} DigestMeaning(s: seq<byte>)
    ensures Means(DigestAll(s), s)
  {
    if s != [] {
      var rest, b := s[..|s| - 1], s[|s| - 1];
      DigestMeaning(rest);
      assert s == rest + [b];
      if !IsDigit(b) {
        DigitsSnoc(rest, b);
      } else if DOT in rest {
        FractionDigit(DigestAll(rest), rest, b);
      } else {
        WholeDigit(DigestAll(rest), rest, b);
      }
    }
  }

  /** The byte loop with wrapping i64 registers computes `Scaled` reduced to an i64. */
  method ParseDecimalFixed(data: seq<byte>) returns (result: int)
    ensures result == WrapI64(Scaled(data))
  {
    var r := Registers(0, 0, 1, false);
    for i := 0 to |data|
      invariant r == DigestAll(data[..i])
    {
      assert data[..i + 1][..i] == data[..i];
      r := Digest(r, data[i]);
    }
    assert data[..|data|] == data;
    DigestMeaning(data);
    ghost var kept := Kept(FracDigits(data));
    Pow10Divides(|kept|);
    WrapFraction(Value(IntDigits(data)), r.fracPart * (SCALE / r.fracDivisor));
    result := WrapI64(WrapI64(r.intPart * SCALE) + WrapI64(r.fracPart * (SCALE / r.fracDivisor)));
  }

  lemma WrapFraction(x: int, y: int)
    ensures WrapI64(WrapI64(WrapI64(x) * SCALE) + WrapI64(y)) == WrapI64(x * SCALE + y)
  {
    WrapSum(x, SCALE, WrapI64(y));
    WrapAbsorbs(y, 1, x * SCALE);
  }

  /** The canonical text of a fixed-point value: integer part, point, eight digits. */
  function FormatFixed(v: nat): seq<byte> {
    Print(v / SCALE) + [DOT] + PrintPadded(v % SCALE, FRACTION_DIGITS)
  }

  lemma LastByte(p: seq<byte>, b: seq<byte>)
    requires b != []
    ensures p + b == (p + b[..|b| - 1]) + [b[|b| - 1]]
  {
  }

  lemma AfterPoint(a: seq<byte>, b: seq<byte>, last: byte)
    requires IsDigit(last)
    ensures IntDigits(a + [DOT] + b + [last]) == IntDigits(a + [DOT] + b)
    ensures FracDigits(a + [DOT] + b + [last]) == FracDigits(a + [DOT] + b) + [last]
  {
    assert (a + [DOT] + b)[|a|] == DOT;
    DigitsSnoc(a + [DOT] + b, last);
  }

  /** With one point between digit strings, the digits are split at the point. */
  lemma {:induction false} SplitAtPoint(a: seq<byte>, b: seq<byte>)
    requires AllDigits(a) && AllDigits(b)
    ensures IntDigits(a + [DOT] + b) == a && FracDigits(a + [DOT] + b) == b
    decreases |b|
  {
    if b == [] {
      NoPoint(a);
      DigitsSnoc(a, DOT);
      assert a + [DOT] + b == a + [DOT];
    } else {
      var shorter, last := b[..|b| - 1], b[|b| - 1];
      SplitAtPoint(a, shorter);
      AfterPoint(a, shorter, last);
      LastByte(a + [DOT], b);
    }
  }

  lemma {:induction false} NoPoint(a: seq<byte>)
    requires AllDigits(a)
    ensures IntDigits(a) == a && FracDigits(a) == [] && DOT !in a
  {
    if a != [] {
      NoPoint(a[..|a| - 1]);
    }
  }

  /** The canonical text denotes the value it was made from. */
  lemma ScaledOfFormat(v: nat)
    ensures Scaled(FormatFixed(v)) == v
  {
    var whole, fraction := v / SCALE, v % SCALE;
    var a, b := Print(whole), PrintPadded(fraction, FRACTION_DIGITS);
    SplitAtPoint(a, b);
    ValueOfPrint(whole);
    Pow10Divides(0);
    ValueOfPadded(fraction, FRACTION_DIGITS);
    FullFraction(b);
  }

  /** Every non-negative value an i64 can hold is read back exactly from its canonical text. */
  lemma DecimalRoundTrip(v: nat)
    requires v <= I64_MAX
    ensures WrapI64(Scaled(FormatFixed(v))) == v
  {
    ScaledOfFormat(v);
    WrapSmall(v);
  }

  lemma FullFraction(b: seq<byte>)
    requires AllDigits(b) && |b| == FRACTION_DIGITS
    ensures Kept(b) == b && Pow10(FRACTION_DIGITS - |Kept(b)|) == 1
  {
  }

  /** The text 12.5 reads as twelve and a half: '.' is the decimal point. */
  lemma PointIsDot()
    ensures '.' as int == DOT as int
    ensures Scaled(['1' as int, '2' as int, '.' as int, '5' as int]) == 1_250_000_000
  {
    SplitAtPoint([49, 50], [53]);
    assert [49, 50] + [DOT] + [53] == [49, 50, 46, 53];
    assert [49, 50][..1] == [49] && [49][..0] == [] && [53][..0] == [];
    assert Value([49, 50]) == 12 && Value([53]) == 5;
    assert Pow10(7) == 10_000_000;
  }

  /** A sign in front is not a digit, and neither does it start a fraction. */
  lemma {:induction false} SignNotDigit(s: seq<byte>)
    ensures IntDigits([MINUS] + s) == IntDigits(s) && FracDigits([MINUS] + s) == FracDigits(s)
  {
    if s != [] {
      var rest := s[..|s| - 1];
      SignNotDigit(rest);
      SignStep(rest, s[|s| - 1]);
      LastByte([MINUS], s);
      assert s == rest + [s[|s| - 1]];
    } else {
      DigitsSnoc([], MINUS);
      assert [] + [MINUS] == [MINUS] + s;
    }
  }

  lemma SignStep(rest: seq<byte>, b: byte)
    requires IntDigits([MINUS] + rest) == IntDigits(rest) && FracDigits([MINUS] + rest) == FracDigits(rest)
    ensures IntDigits([MINUS] + rest + [b]) == IntDigits(rest + [b])
    ensures FracDigits([MINUS] + rest + [b]) == FracDigits(rest + [b])
  {
    DigitsSnoc(rest, b);
    DigitsSnoc([MINUS] + rest, b);
    assert DOT in [MINUS] + rest <==> DOT in rest;
  }

  /** A sign is skipped like any other byte, so a negative amount reads as its magnitude. */
  lemma SignIsIgnored(s: seq<byte>)
    ensures Scaled([MINUS] + s) == Scaled(s)
  {
    SignNotDigit(s);
  }

  /** The canonical text of a signed value. */
  function FormatSigned(v: int): seq<byte> {
    if v < 0 then [MINUS] + FormatFixed(0 - v) else FormatFixed(v)
  }

  function Magnitude(v: int): nat {
    if v < 0 then 0 - v else v
  }

  /** The text of a signed value is read as its magnitude. */
  lemma ScaledOfSigned(v: int)
    ensures Scaled(FormatSigned(v)) == Magnitude(v)
  {
    ScaledOfFormat(Magnitude(v));
    SignIsIgnored(FormatFixed(Magnitude(v)));
  }

  lemma MagnitudeWraps(v: int)
    requires I64_MIN <= v <= I64_MAX
    ensures WrapI64(Magnitude(v)) == v <==> v >= 0 || v == I64_MIN
  {
  }

  /**
   A signed i64 is read back from its text if and only if it is not negative, or is the
   least i64, whose magnitude wraps round to it.
   */
  lemma SignedRoundTripIff(v: int)
    requires I64_MIN <= v <= I64_MAX
    ensures WrapI64(Scaled(FormatSigned(v))) == v <==> v >= 0 || v == I64_MIN
  {
    ScaledOfSigned(v);
    MagnitudeWraps(v);
  }

  // ---------------------------------------------------------------- message type

  datatype MsgType = Heartbeat | Logon | Logout | MarketDataSnapshot | MarketDataIncremental | Unknown

  function TypeOfValue(value: seq<byte>): MsgType {
    if value == [] then Unknown
    else match value[0]
      case 48 => Heartbeat
      case 65 => Logon
      case 53 => Logout
      case 87 => MarketDataSnapshot
      case 88 => MarketDataIncremental
      case _ => Unknown
  }

  /** The first field with tag 35 decides. */
  function MsgTypeOf(fields: seq<Field>): MsgType {
    if fields == [] then Unknown
    else if fields[0].tag == MSG_TYPE then TypeOfValue(fields[0].value)
    else MsgTypeOf(fields[1..])
  }

  method ParseMsgType(data: seq<byte>, avx2: bool) returns (t: MsgType)
    ensures t == MsgTypeOf(Fields(data))
  {
    var pos := 0;
    while true
      invariant pos <= |data| && MsgTypeOf(Fields(data)) == MsgTypeOf(FieldsFrom(data, pos))
      decreases |data| - pos
    {
      var hit := ParseField(data, pos, avx2);
      if hit.None? {
        return Unknown;
      }
      var (field, next) := hit.value;
      if field.tag == MSG_TYPE {
        return TypeOfValue(field.value);
      }
      pos := next;
    }
  }

  // ---------------------------------------------------------------- repeating groups

  datatype MarketEvent = MarketEvent(venueId: nat, symbolId: nat, eventType: nat, price: int, quantity: int)

  /** `((value[0] as u16) << 8) | value[1]`, with 0 for a missing second byte. */
  function SymbolCode(value: seq<byte>): nat
    requires value != []
  {
    var high: nat, low: nat := value[0], if |value| > 1 then value[1] else 0;
    high * 256 + low
  }

  /** `value[0] - b'0'` on u8, wrapping; 0 for an empty value. */
  function EntryType(value: seq<byte>): nat {
    if value == [] then 0 else (value[0] - ZERO) % 256
  }

  function Amount(value: seq<byte>): int {
    WrapI64(Scaled(value))
  }

  /** The last amount with tag `tag` in a group, `default` if there is none. */
  function LastAmount(group: seq<Field>, tag: nat, default: int): int {
    if group == [] then default
    else
      var f := group[|group| - 1];
      if f.tag == tag then Amount(f.value) else LastAmount(group[..|group| - 1], tag, default)
  }

  /** Where the next repeating group starts, or the end. */
  function NextEntry(fields: seq<Field>): (i: nat)
    ensures i <= |fields|
    ensures i < |fields| ==> fields[i].tag == MD_ENTRY_TYPE
    ensures forall j :: 0 <= j < i ==> fields[j].tag != MD_ENTRY_TYPE
  {
    if fields == [] || fields[0].tag == MD_ENTRY_TYPE then 0 else 1 + NextEntry(fields[1..])
  }

  /** The event of one group: its own type, price and size, under the symbol in force. */
  function GroupEvent(venueId: nat, symbolId: nat, entryType: seq<byte>, group: seq<Field>): MarketEvent {
    MarketEvent(venueId, symbolId, EntryType(entryType), LastAmount(group, MD_ENTRY_PRICE, 0), LastAmount(group, MD_ENTRY_SIZE, 0))
  }

  /** The events offered to the ring for the fields still to come. */
  function Emit(venueId: nat, symbolId: nat, fields: seq<Field>): seq<MarketEvent>
    decreases |fields|
  {
    if fields == [] then []
    else
      var f, rest := fields[0], fields[1..];
      if f.tag == SYMBOL && f.value != [] then Emit(venueId, SymbolCode(f.value), rest)
      else if f.tag == MD_ENTRY_TYPE then
        var n := NextEntry(rest);
        [GroupEvent(venueId, symbolId, f.value, rest[..n])] + Emit(venueId, symbolId, rest[n..])
      else Emit(venueId, symbolId, rest)
  }

  /** The events the ring accepts; `accepts(i)` answers the i-th push of this message. */
  function Accepted(events: seq<MarketEvent>, accepts: nat -> bool): seq<MarketEvent> {
    if events == [] then []
    else
      var n := |events| - 1;
      Accepted(events[..n], accepts) + (if accepts(n) then [events[n]] else [])
  }

  lemma EmitCons(venueId: nat, symbolId: nat, f: Field, rest: seq<Field>)
    ensures Emit(venueId, symbolId, [f] + rest) ==
      if f.tag == MD_ENTRY_TYPE then
        [GroupEvent(venueId, symbolId, f.value, rest[..NextEntry(rest)])] + Emit(venueId, symbolId, rest[NextEntry(rest)..])
      else Emit(venueId, if f.tag == SYMBOL && f.value != [] then SymbolCode(f.value) else symbolId, rest)
  {
    assert ([f] + rest)[1..] == rest;
  }

  lemma {:induction false} LastAmountCons(f: Field, group: seq<Field>, tag: nat, default: int)
    ensures LastAmount([f] + group, tag, default)
         == LastAmount(group, tag, if f.tag == tag then Amount(f.value) else default)
  {
    if group == [] {
      assert ([f] + group)[..0] == [];
    } else {
      var shorter := group[..|group| - 1];
      assert ([f] + group)[..|group|] == [f] + shorter;
      LastAmountCons(f, shorter, tag, default);
    }
  }

  /** The look-ahead loop on fields: price and size so far, and the fields it has not passed. */
  function Gather(fields: seq<Field>, price: int, size: int): (int, int, seq<Field>) {
    if fields == [] || fields[0].tag == MD_ENTRY_TYPE then (price, size, fields)
    else
      var f := fields[0];
      Gather(fields[1..],
             if f.tag == MD_ENTRY_PRICE then Amount(f.value) else price,
             if f.tag == MD_ENTRY_SIZE then Amount(f.value) else size)
  }

  /** The look-ahead stops at the next group with the last price and size before it. */
  lemma {:induction false} GatherIsLast(fields: seq<Field>, price: int, size: int)
    ensures var n := NextEntry(fields);
      Gather(fields, price, size) ==
      (LastAmount(fields[..n], MD_ENTRY_PRICE, price), LastAmount(fields[..n], MD_ENTRY_SIZE, size), fields[n..])
  {
    if fields != [] && fields[0].tag != MD_ENTRY_TYPE {
      var f, rest := fields[0], fields[1..];
      var n := NextEntry(rest);
      assert fields[..n + 1] == [f] + rest[..n] && fields[n + 1..] == rest[n..];
      LastAmountCons(f, rest[..n], MD_ENTRY_PRICE, price);
      LastAmountCons(f, rest[..n], MD_ENTRY_SIZE, size);
      GatherIsLast(rest,
                   if f.tag == MD_ENTRY_PRICE then Amount(f.value) else price,
                   if f.tag == MD_ENTRY_SIZE then Amount(f.value) else size);
    }
  }

  method ReadGroup(data: seq<byte>, start: nat, avx2: bool) returns (price: int, size: int, end: nat)
    requires start <= |data|
    ensures start <= end <= |data|
    ensures (price, size, FieldsFrom(data, end)) == Gather(FieldsFrom(data, start), 0, 0)
  {
    price, size, end := 0, 0, start;
    while true
      invariant start <= end <= |data|
      invariant Gather(FieldsFrom(data, end), price, size) == Gather(FieldsFrom(data, start), 0, 0)
      decreases |data| - end
    {
      var hit := ParseField(data, end, avx2);
      if hit.None? || hit.value.0.tag == MD_ENTRY_TYPE {
        break;
      }
      var (field, next) := hit.value;
      if field.tag == MD_ENTRY_PRICE {
        price := ParseDecimalFixed(field.value);
      } else if field.tag == MD_ENTRY_SIZE {
        size := ParseDecimalFixed(field.value);
      }
      end := next;
    }
  }

  lemma AppendOne<T>(a: seq<T>, x: T, c: seq<T>)
    ensures a + ([x] + c) == (a + [x]) + c && (a + [x])[..|a|] == a
  {
  }

  /** The tag-269 arm: look ahead, then build the group's event. */
  method NextEvent(data: seq<byte>, start: nat, venueId: nat, symbolId: nat, entryType: seq<byte>, avx2: bool)
    returns (event: MarketEvent, end: nat)
    requires start <= |data|
    ensures start <= end <= |data|
    ensures var rest := FieldsFrom(data, start);
      Emit(venueId, symbolId, [Field(MD_ENTRY_TYPE, entryType)] + rest) == [event] + Emit(venueId, symbolId, FieldsFrom(data, end))
  {
    var price, size;
    price, size, end := ReadGroup(data, start, avx2);
    GatherIsLast(FieldsFrom(data, start), 0, 0);
    EmitCons(venueId, symbolId, Field(MD_ENTRY_TYPE, entryType), FieldsFrom(data, start));
    event := MarketEvent(venueId, symbolId, EntryType(entryType), price, size);
  }

  /** `process_md_incremental` on any bytes: exactly the accepted events of the parsed fields. */
  method ProcessMdIncremental(data: seq<byte>, venueId: nat, hasBuffer: bool, accepts: nat -> bool, avx2: bool)
    returns (count: nat, pushed: seq<MarketEvent>)
    ensures count == |pushed|
    ensures pushed == if hasBuffer then Accepted(Emit(venueId, 0, Fields(data)), accepts) else []
  {
    count, pushed := 0, [];
    var pos, symbolId: nat, pushes: nat := 0, 0, 0;
    ghost var left, offered: seq<MarketEvent> := Fields(data), [];
    ghost var total := Emit(venueId, 0, left);
    assert total == offered + total;
    while true
      invariant pos <= |data| && count == |pushed| && left == FieldsFrom(data, pos)
      invariant total == offered + Emit(venueId, symbolId, left)
      invariant pushes == |offered| && pushed == if hasBuffer then Accepted(offered, accepts) else []
      decreases |data| - pos
    {
      var hit := ParseField(data, pos, avx2);
      if hit.None? {
        assert offered + Emit(venueId, symbolId, left) == offered;
        break;
      }
      var (field, next) := hit.value;
      ghost var rest := FieldsFrom(data, next);
      EmitCons(venueId, symbolId, field, rest);
      if field.tag == SYMBOL {
        if field.value != [] {
          symbolId := SymbolCode(field.value);
        }
        left, pos := rest, next;
      } else if field.tag == MD_ENTRY_TYPE {
        var event, end := NextEvent(data, next, venueId, symbolId, field.value, avx2);
        left, pos := FieldsFrom(data, end), end;
        if hasBuffer && accepts(pushes) {
          pushed, count := pushed + [event], count + 1;
        }
        AppendOne(offered, event, Emit(venueId, symbolId, left));
        offered, pushes := offered + [event], pushes + 1;
      } else {
        left, pos := rest, next;
      }
    }
  }

  // ---------------------------------------------------------------- what the groups mean

  /** The positions, from `p` on, of the fields that start a repeating group. */
  function Entries(fields: seq<Field>, p: nat): (e: seq<nat>)
    ensures forall k :: 0 <= k < |e| ==> p <= e[k] < |fields| && fields[e[k]].tag == MD_ENTRY_TYPE
    ensures forall j, k :: 0 <= j < k < |e| ==> e[j] < e[k]
    decreases |fields| - p
  {
    if p >= |fields| then []
    else (if fields[p].tag == MD_ENTRY_TYPE then [p] else []) + Entries(fields, p + 1)
  }

  /** The last non-empty symbol in `fields`, `default` if there is none. */
  function LastSymbol(fields: seq<Field>, default: nat): nat {
    if fields == [] then default
    else
      var f := fields[|fields| - 1];
      if f.tag == SYMBOL && f.value != [] then SymbolCode(f.value) else LastSymbol(fields[..|fields| - 1], default)
  }

  /** The event of the group that starts at position `i`. */
  function EventAt(venueId: nat, symbolId: nat, fields: seq<Field>, i: nat): MarketEvent
    requires i < |fields|
  {
    var rest := fields[i + 1..];
    GroupEvent(venueId, symbolId, fields[i].value, rest[..NextEntry(rest)])
  }

  lemma {:induction false} LastSymbolCons(f: Field, fields: seq<Field>, default: nat)
    ensures LastSymbol([f] + fields, default)
         == LastSymbol(fields, if f.tag == SYMBOL && f.value != [] then SymbolCode(f.value) else default)
  {
    if fields == [] {
      assert ([f] + fields)[..0] == [];
    } else {
      assert ([f] + fields)[..|fields|] == [f] + fields[..|fields| - 1];
      LastSymbolCons(f, fields[..|fields| - 1], default);
    }
  }

  lemma {:induction false} NoEntriesBetween(fields: seq<Field>, p: nat, q: nat)
    requires p <= q <= |fields|
    requires forall j :: p <= j < q ==> fields[j].tag != MD_ENTRY_TYPE
    ensures Entries(fields, p) == Entries(fields, q)
    decreases q - p
  {
    if p < q {
      NoEntriesBetween(fields, p + 1, q);
    }
  }

  /** The events for the fields from `p` on are those of the groups from `p` on. */
  ghost predicate EmitMatches(venueId: nat, symbolId: nat, fields: seq<Field>, p: nat)
    requires p <= |fields|
  {
    var tail, e := fields[p..], Entries(fields, p);
    EventsAre(Emit(venueId, symbolId, tail), venueId, LastSymbol(tail[..NextEntry(tail)], symbolId), fields, e)
  }

  /** One event per group in `e`, all under one symbol. */
  ghost predicate EventsAre(out: seq<MarketEvent>, venueId: nat, symbolId: nat, fields: seq<Field>, e: seq<nat>) {
    |out| == |e| && forall k :: 0 <= k < |e| ==> e[k] < |fields| && out[k] == EventAt(venueId, symbolId, fields, e[k])
  }

  lemma OneMoreEvent(out: seq<MarketEvent>, venueId: nat, symbolId: nat, fields: seq<Field>, e: seq<nat>, p: nat)
    requires p < |fields| && EventsAre(out, venueId, symbolId, fields, e)
    ensures EventsAre([EventAt(venueId, symbolId, fields, p)] + out, venueId, symbolId, fields, [p] + e)
  {
  }

  /** At a group start there is nothing before it to change the symbol. */
  lemma SymbolAtEntry(tail: seq<Field>, symbolId: nat)
    requires tail == [] || tail[0].tag == MD_ENTRY_TYPE
    ensures LastSymbol(tail[..NextEntry(tail)], symbolId) == symbolId
  {
  }

  lemma EntriesAfterEntry(fields: seq<Field>, p: nat, q: nat)
    requires p < |fields| && fields[p].tag == MD_ENTRY_TYPE && q == p + 1 + NextEntry(fields[p + 1..])
    ensures q <= |fields| && Entries(fields, p) == [p] + Entries(fields, q)
    ensures fields[q..] == [] || fields[q..][0].tag == MD_ENTRY_TYPE
  {
    var rest := fields[p + 1..];
    assert forall j :: p + 1 <= j < q ==> fields[j] == rest[j - p - 1];
    assert q < |fields| ==> fields[q] == rest[q - p - 1];
    NoEntriesBetween(fields, p + 1, q);
  }

  lemma EmitAtEntry(venueId: nat, symbolId: nat, fields: seq<Field>, p: nat, q: nat)
    requires p < |fields| && fields[p].tag == MD_ENTRY_TYPE && q == p + 1 + NextEntry(fields[p + 1..])
    ensures q <= |fields|
    ensures Emit(venueId, symbolId, fields[p..])
         == [EventAt(venueId, symbolId, fields, p)] + Emit(venueId, symbolId, fields[q..])
  {
    var rest := fields[p + 1..];
    assert rest[NextEntry(rest)..] == fields[q..];
    assert fields[p..] == [fields[p]] + rest;
    EmitCons(venueId, symbolId, fields[p], rest);
  }

  lemma MatchesAtEntry(venueId: nat, symbolId: nat, fields: seq<Field>, p: nat, q: nat)
    requires p < |fields| && fields[p].tag == MD_ENTRY_TYPE && q == p + 1 + NextEntry(fields[p + 1..])
    requires q <= |fields| && EmitMatches(venueId, symbolId, fields, q)
    ensures EmitMatches(venueId, symbolId, fields, p)
  {
    EntriesAfterEntry(fields, p, q);
    SymbolAtEntry(fields[p..], symbolId);
    SymbolAtEntry(fields[q..], symbolId);
    EmitAtEntry(venueId, symbolId, fields, p, q);
    OneMoreEvent(Emit(venueId, symbolId, fields[q..]), venueId, symbolId, fields, Entries(fields, q), p);
  }

  /** A field that starts no group only changes the symbol. */
  lemma SymbolAtOther(f: Field, rest: seq<Field>, symbolId: nat, next: nat)
    requires f.tag != MD_ENTRY_TYPE
    requires next == if f.tag == SYMBOL && f.value != [] then SymbolCode(f.value) else symbolId
    ensures var tail := [f] + rest;
      LastSymbol(tail[..NextEntry(tail)], symbolId) == LastSymbol(rest[..NextEntry(rest)], next)
  {
    var tail := [f] + rest;
    assert tail[1..] == rest;
    assert tail[..NextEntry(tail)] == [f] + rest[..NextEntry(rest)];
    LastSymbolCons(f, rest[..NextEntry(rest)], symbolId);
  }

  lemma MatchesAtOther(venueId: nat, symbolId: nat, fields: seq<Field>, p: nat, next: nat)
    requires p < |fields| && fields[p].tag != MD_ENTRY_TYPE
    requires next == if fields[p].tag == SYMBOL && fields[p].value != [] then SymbolCode(fields[p].value) else symbolId
    requires EmitMatches(venueId, next, fields, p + 1)
    ensures EmitMatches(venueId, symbolId, fields, p)
  {
    var f, rest := fields[p], fields[p + 1..];
    assert fields[p..] == [f] + rest;
    EmitCons(venueId, symbolId, f, rest);
    SymbolAtOther(f, rest, symbolId, next);
    assert Entries(fields, p) == Entries(fields, p + 1);
  }

  lemma {:induction false} EmitFrom(venueId: nat, symbolId: nat, fields: seq<Field>, p: nat)
    requires p <= |fields|
    ensures EmitMatches(venueId, symbolId, fields, p)
    decreases |fields| - p
  {
    if p < |fields| {
      var f := fields[p];
      if f.tag == MD_ENTRY_TYPE {
        var q := p + 1 + NextEntry(fields[p + 1..]);
        EmitFrom(venueId, symbolId, fields, q);
        MatchesAtEntry(venueId, symbolId, fields, p, q);
      } else {
        var next := if f.tag == SYMBOL && f.value != [] then SymbolCode(f.value) else symbolId;
        EmitFrom(venueId, next, fields, p + 1);
        MatchesAtOther(venueId, symbolId, fields, p, next);
      }
    }
  }

  /**
   Over the serialisation of any list of fields, the events offered are one per tag 269 in
   order, each with the last 270 and the last 271 before the next 269, and all with the
   last non-empty 55 that precedes the first 269.
   */
  lemma EventsOfSerialised(venueId: nat, fields: seq<Field>)
    requires AllSendable(fields)
    ensures var out, e := Emit(venueId, 0, Fields(Serialise(fields))), Entries(fields, 0);
      var symbol := LastSymbol(fields[..NextEntry(fields)], 0);
      |out| == |e| && forall k :: 0 <= k < |e| ==> out[k] == EventAt(venueId, symbol, fields, e[k])
  {
    ParseSerialised(fields);
    assert fields[0..] == fields;
    EmitFrom(venueId, 0, fields, 0);
  }

  // ---------------------------------------------------------------- events by position

  /** A repeating group: the 269 at position `i` and everything up to the next 269, or the end, at `j`. */
  predicate IsGroup(fields: seq<Field>, i: nat, j: nat) {
    && i < j <= |fields| && fields[i].tag == 269 && (j < |fields| ==> fields[j].tag == 269)
    && forall m :: i < m < j ==> fields[m].tag != 269
  }

  /** How many groups start before position `i`. */
  function GroupsBefore(fields: seq<Field>, i: nat): nat
    requires i <= |fields|
  {
    if i == 0 then 0 else GroupsBefore(fields, i - 1) + (if fields[i - 1].tag == 269 then 1 else 0)
  }

  /** `amount` is the decimal of the last field with tag `tag`, or 0 if there is none. */
  ghost predicate IsLastDecimal(group: seq<Field>, tag: nat, amount: int) {
    || (amount == 0 && forall p :: 0 <= p < |group| ==> group[p].tag != tag)
    || (exists p :: 0 <= p < |group| && group[p].tag == tag && amount == WrapI64(Scaled(group[p].value))
          && forall q :: p < q < |group| ==> group[q].tag != tag)
  }

  /** `code` is made of the first two bytes of the last non-empty field 55, or 0 if there is none. */
  ghost predicate IsLastSymbol(fields: seq<Field>, code: nat) {
    || (code == 0 && forall p :: 0 <= p < |fields| ==> !(fields[p].tag == 55 && fields[p].value != []))
    || (exists p :: 0 <= p < |fields| && fields[p].tag == 55 && fields[p].value != []
          && code / 256 == fields[p].value[0] && code % 256 == (if |fields[p].value| > 1 then fields[p].value[1] else 0)
          && forall q :: p < q < |fields| ==> !(fields[q].tag == 55 && fields[q].value != []))
  }

  lemma {:induction false} LastAmountIs(group: seq<Field>, tag: nat)
    ensures IsLastDecimal(group, tag, LastAmount(group, tag, 0))
  {
    if group != [] {
      var n := |group| - 1;
      LastAmountIs(group[..n], tag);
      LastDecimalSnoc(group[..n], group[n], tag, LastAmount(group[..n], tag, 0));
      assert group == group[..n] + [group[n]];
    }
  }

  lemma LastDecimalSnoc(group: seq<Field>, f: Field, tag: nat, amount: int)
    requires IsLastDecimal(group, tag, amount)
    ensures IsLastDecimal(group + [f], tag, if f.tag == tag then WrapI64(Scaled(f.value)) else amount)
  {
    var longer := group + [f];
    if f.tag == tag {
      assert longer[|group|] == f;
    } else if p :| 0 <= p < |group| && group[p].tag == tag && amount == WrapI64(Scaled(group[p].value))
                   && forall q :: p < q < |group| ==> group[q].tag != tag {
      assert longer[p] == group[p];
    }
  }

  lemma {:induction false} LastSymbolIs(fields: seq<Field>)
    ensures IsLastSymbol(fields, LastSymbol(fields, 0))
  {
    if fields != [] {
      var n := |fields| - 1;
      var f := fields[n];
      LastSymbolIs(fields[..n]);
      if f.tag == SYMBOL && f.value != [] {
        SymbolCodeIs(f.value);
      }
      LastSymbolSnoc(fields[..n], f, LastSymbol(fields[..n], 0));
      assert fields == fields[..n] + [f];
    }
  }

  lemma SymbolCodeIs(value: seq<byte>)
    requires value != []
    ensures SymbolCode(value) / 256 == value[0] && SymbolCode(value) % 256 == if |value| > 1 then value[1] else 0
  {
  }

  lemma LastSymbolSnoc(fields: seq<Field>, f: Field, code: nat)
    requires IsLastSymbol(fields, code)
    ensures !(f.tag == 55 && f.value != []) ==> IsLastSymbol(fields + [f], code)
    ensures f.tag == 55 && f.value != [] ==> IsLastSymbol(fields + [f], SymbolCode(f.value))
  {
    var longer := fields + [f];
    if f.tag == 55 && f.value != [] {
      assert longer[|fields|] == f;
      SymbolCodeIs(f.value);
    } else if p :| 0 <= p < |fields| && fields[p].tag == 55 && fields[p].value != []
                   && code / 256 == fields[p].value[0]
                   && code % 256 == (if |fields[p].value| > 1 then fields[p].value[1] else 0)
                   && forall q :: p < q < |fields| ==> !(fields[q].tag == 55 && fields[q].value != []) {
      assert longer[p] == fields[p];
    }
  }

  /** The groups are numbered in order of their 269. */
  lemma {:induction false} GroupNumber(fields: seq<Field>, p: nat, i: nat)
    requires p <= i < |fields| && fields[i].tag == 269
    ensures var k := GroupsBefore(fields, i) - GroupsBefore(fields, p);
      0 <= k < |Entries(fields, p)| && Entries(fields, p)[k] == i
    decreases i - p
  {
    EntriesCons(fields, p);
    if p < i {
      GroupNumber(fields, p + 1, i);
    }
  }

  lemma EntriesCons(fields: seq<Field>, p: nat)
    requires p < |fields|
    ensures Entries(fields, p) == (if fields[p].tag == 269 then [p] else []) + Entries(fields, p + 1)
    ensures GroupsBefore(fields, p + 1) == GroupsBefore(fields, p) + if fields[p].tag == 269 then 1 else 0
  {
  }

  lemma {:induction false} GroupCount(fields: seq<Field>, p: nat)
    requires p <= |fields|
    ensures |Entries(fields, p)| == GroupsBefore(fields, |fields|) - GroupsBefore(fields, p)
    decreases |fields| - p
  {
    if p < |fields| {
      GroupCount(fields, p + 1);
    }
  }

  /** The event that the group at `[i, j)` stands for, when `first` is where the first group starts. */
  ghost predicate IsEventOf(event: MarketEvent, venueId: nat, fields: seq<Field>, first: nat, i: nat, j: nat)
    requires first <= i < j <= |fields|
  {
    && event.venueId == venueId && IsEntryType(fields[i].value, event.eventType)
    && IsLastDecimal(fields[i + 1..j], 270, event.price) && IsLastDecimal(fields[i + 1..j], 271, event.quantity)
    && IsLastSymbol(fields[..first], event.symbolId)
  }

  lemma EventOfGroup(venueId: nat, fields: seq<Field>, first: nat, i: nat, j: nat)
    requires IsGroup(fields, i, j) && first <= i
    ensures IsEventOf(EventAt(venueId, LastSymbol(fields[..first], 0), fields, i), venueId, fields, first, i, j)
  {
    var rest := fields[i + 1..];
    assert forall m :: 0 <= m < |rest| ==> rest[m] == fields[i + 1 + m];
    assert NextEntry(rest) == j - i - 1;
    assert rest[..NextEntry(rest)] == fields[i + 1..j];
    LastAmountIs(fields[i + 1..j], 270);
    LastAmountIs(fields[i + 1..j], 271);
    LastSymbolIs(fields[..first]);
  }

  lemma FirstGroupAt(fields: seq<Field>, first: nat)
    requires first < |fields| && fields[first].tag == 269 && forall m :: 0 <= m < first ==> fields[m].tag != 269
    ensures NextEntry(fields) == first
  {
  }

  /** Among all groups, the one at `i` has the number of groups before it. */
  lemma GroupAt(fields: seq<Field>, i: nat)
    requires i < |fields| && fields[i].tag == 269
    ensures var e, k := Entries(fields, 0), GroupsBefore(fields, i);
      k < |e| == GroupsBefore(fields, |fields|) && e[k] == i
  {
    GroupNumber(fields, 0, i);
    GroupCount(fields, 0);
  }

  lemma EventNumber(out: seq<MarketEvent>, venueId: nat, symbolId: nat, fields: seq<Field>, e: seq<nat>, k: nat)
    requires EventsAre(out, venueId, symbolId, fields, e) && k < |e|
    ensures |out| == |e| && e[k] < |fields| && out[k] == EventAt(venueId, symbolId, fields, e[k])
  {
  }

  lemma SerialisedEvents(venueId: nat, fields: seq<Field>, first: nat)
    requires AllSendable(fields)
    requires first < |fields| && fields[first].tag == 269 && forall m :: 0 <= m < first ==> fields[m].tag != 269
    ensures EventsAre(Emit(venueId, 0, Fields(Serialise(fields))), venueId, LastSymbol(fields[..first], 0), fields, Entries(fields, 0))
  {
    FirstGroupAt(fields, first);
    EventsOfSerialised(venueId, fields);
  }

  /** The first byte less 48 as a u8; 0 for an empty value. */
  predicate IsEntryType(value: seq<byte>, t: nat) {
    if value == [] then t == 0 else if value[0] >= 48 then t + 48 == value[0] else t == value[0] + 208
  }

  /**
   What is pushed for the serialisation of any sendable fields, by position: the group of the
   269 at `i` up to the next one at `j` gives the event whose number is the count of earlier
   groups, with the venue of the handler, the first byte of the 269 as its type, the last 270
   between `i` and `j` as its price, the last 271 there as its quantity, and the last 55
   before the first group as its symbol.
   */
  lemma EventsByPosition(venueId: nat, fields: seq<Field>, first: nat, i: nat, j: nat)
    requires AllSendable(fields) && IsGroup(fields, i, j)
    requires first <= i && fields[first].tag == 269 && forall m :: 0 <= m < first ==> fields[m].tag != 269
    ensures var out, k := Emit(venueId, 0, Fields(Serialise(fields))), GroupsBefore(fields, i);
      k < |out| == GroupsBefore(fields, |fields|) && IsEventOf(out[k], venueId, fields, first, i, j)
  {
    SerialisedEvents(venueId, fields, first);
    GroupAt(fields, i);
    EventNumber(Emit(venueId, 0, Fields(Serialise(fields))), venueId, LastSymbol(fields[..first], 0), fields,
                Entries(fields, 0), GroupsBefore(fields, i));
    EventOfGroup(venueId, fields, first, i, j);
  }

  /** The type of a message by the first byte of its first field 35. */
  lemma {:induction false} MsgTypeByPosition(fields: seq<Field>, i: nat)
    requires i <= |fields| && forall m :: 0 <= m < i ==> fields[m].tag != 35
    ensures i == |fields| ==> MsgTypeOf(fields) == Unknown
    ensures i < |fields| && fields[i].tag == 35 ==>
      var t, v := MsgTypeOf(fields), fields[i].value;
      && (t == Heartbeat <==> v != [] && v[0] as char == '0')
      && (t == Logon <==> v != [] && v[0] as char == 'A')
      && (t == Logout <==> v != [] && v[0] as char == '5')
      && (t == MarketDataSnapshot <==> v != [] && v[0] as char == 'W')
      && (t == MarketDataIncremental <==> v != [] && v[0] as char == 'X')
    decreases i
  {
    if i > 0 {
      MsgTypeByPosition(fields[1..], i - 1);
    }
  }

  // ---------------------------------------------------------------- symbols inside groups

  lemma {:induction false} LastSymbolAppend(a: seq<Field>, b: seq<Field>, default: nat)
    ensures LastSymbol(a + b, default) == LastSymbol(b, LastSymbol(a, default))
  {
    if b == [] {
      assert a + b == a;
    } else {
      assert (a + b)[..|a + b| - 1] == a + b[..|b| - 1];
      LastSymbolAppend(a, b[..|b| - 1], default);
    }
  }

  lemma {:induction false} FirstEntry(fields: seq<Field>, p: nat)
    requires p <= |fields| && Entries(fields, p) != []
    ensures Entries(fields, p)[0] == p + NextEntry(fields[p..])
    decreases |fields| - p
  {
    if fields[p].tag != MD_ENTRY_TYPE {
      FirstEntry(fields, p + 1);
      assert fields[p..][1..] == fields[p + 1..];
    }
  }

  /** The last symbol given before the group that starts at `i`. */
  function OwnSymbol(fields: seq<Field>, i: nat): nat
    requires i <= |fields|
  {
    LastSymbol(fields[..i], 0)
  }

  ghost predicate CarriesOwnSymbols(venueId: nat, fields: seq<Field>) {
    var out, e := Emit(venueId, 0, fields), Entries(fields, 0);
    |out| == |e| && forall k :: 0 <= k < |e| ==> out[k].symbolId == OwnSymbol(fields, e[k])
  }

  /** The group before number `k` gives no symbol, or ends on the one the message began with. */
  ghost predicate SymbolKeptBefore(fields: seq<Field>, k: nat)
    requires 0 < k < |Entries(fields, 0)|
  {
    var e, symbol := Entries(fields, 0), OwnSymbol(fields, NextEntry(fields));
    LastSymbol(fields[e[k - 1]..e[k]], symbol) == symbol
  }

  ghost predicate GroupsKeepSymbol(fields: seq<Field>) {
    forall k :: 0 < k < |Entries(fields, 0)| ==> SymbolKeptBefore(fields, k)
  }

  /** Over one group the symbol in force changes by what the group gives. */
  lemma OwnSymbolStep(fields: seq<Field>, i: nat, j: nat)
    requires i <= j <= |fields|
    ensures OwnSymbol(fields, j) == LastSymbol(fields[i..j], OwnSymbol(fields, i))
  {
    assert fields[..j] == fields[..i] + fields[i..j];
    LastSymbolAppend(fields[..i], fields[i..j], 0);
  }

  lemma {:induction false} OwnSymbolStays(fields: seq<Field>, k: nat)
    requires k < |Entries(fields, 0)| && GroupsKeepSymbol(fields)
    ensures OwnSymbol(fields, Entries(fields, 0)[k]) == OwnSymbol(fields, NextEntry(fields))
  {
    var e := Entries(fields, 0);
    if k == 0 {
      assert fields[0..] == fields;
      FirstEntry(fields, 0);
    } else {
      OwnSymbolStays(fields, k - 1);
      assert SymbolKeptBefore(fields, k);
      OwnSymbolStep(fields, e[k - 1], e[k]);
    }
  }

  lemma {:induction false} EmittedSymbols(venueId: nat, fields: seq<Field>)
    ensures var out, e := Emit(venueId, 0, fields), Entries(fields, 0);
      |out| == |e| && forall k :: 0 <= k < |e| ==> out[k].symbolId == OwnSymbol(fields, NextEntry(fields))
  {
    assert fields[0..] == fields;
    EmitFrom(venueId, 0, fields, 0);
  }

  /**
   The look-ahead swallows a symbol inside a group: every event of a message carries the last
   symbol before its own 269 if and only if each group but the last gives no symbol or ends
   on the one the message began with.
   */
  lemma OwnSymbolsIff(venueId: nat, fields: seq<Field>)
    ensures CarriesOwnSymbols(venueId, fields) <==> GroupsKeepSymbol(fields)
  {
    var e, symbol := Entries(fields, 0), OwnSymbol(fields, NextEntry(fields));
    EmittedSymbols(venueId, fields);
    if GroupsKeepSymbol(fields) {
      forall k: nat | k < |e| ensures OwnSymbol(fields, e[k]) == symbol {
        OwnSymbolStays(fields, k);
      }
    }
    if CarriesOwnSymbols(venueId, fields) {
      forall k | 0 < k < |e| ensures SymbolKeptBefore(fields, k) {
        OwnSymbolStep(fields, e[k - 1], e[k]);
        assert OwnSymbol(fields, e[k - 1]) == symbol && OwnSymbol(fields, e[k]) == symbol;
      }
    }
  }

  /** Two groups, each after its own symbol. */
  function TwoGroups(first: seq<byte>, second: seq<byte>): seq<Field> {
    [Field(SYMBOL, first), Field(MD_ENTRY_TYPE, [ZERO]), Field(SYMBOL, second), Field(MD_ENTRY_TYPE, [ZERO])]
  }

  lemma TwoGroupsEntries(first: seq<byte>, second: seq<byte>)
    ensures var fields := TwoGroups(first, second);
      Entries(fields, 0) == [1, 3] && NextEntry(fields) == 1
  {
    var fields := TwoGroups(first, second);
    assert fields[1].tag == MD_ENTRY_TYPE;
    assert fields[2..][1].tag == MD_ENTRY_TYPE;
    NoEntriesBetween(fields, 0, 1);
    EntriesAfterEntry(fields, 1, 3);
    EntriesAfterEntry(fields, 3, 4);
    assert Entries(fields, 4) == [];
  }

  /** Both events carry the first symbol, although the second came before the second group. */
  lemma SecondSymbolSwallowed(venueId: nat, first: seq<byte>, second: seq<byte>)
    requires first != [] && second != []
    ensures var fields := TwoGroups(first, second);
      var out := Emit(venueId, 0, fields);
      |out| == 2 && out[0].symbolId == out[1].symbolId == SymbolCode(first)
      && OwnSymbol(fields, 3) == SymbolCode(second)
  {
    EmittedSymbols(venueId, TwoGroups(first, second));
    TwoGroupsEntries(first, second);
  }

  /** The ring receives exactly the events whose push it accepts, in order. */
  lemma {:induction false} AcceptedInOrder(events: seq<MarketEvent>, accepts: nat -> bool) returns (at: seq<nat>)
    ensures |at| == |Accepted(events, accepts)|
    ensures forall k :: 0 <= k < |at| ==> at[k] < |events| && Accepted(events, accepts)[k] == events[at[k]]
    ensures forall j, k :: 0 <= j < k < |at| ==> at[j] < at[k]
    ensures forall i: nat :: i < |events| ==> (i in at <==> accepts(i))
  {
    if events == [] {
      at := [];
    } else {
      var n := |events| - 1;
      at := AcceptedInOrder(events[..n], accepts);
      if accepts(n) {
        at := at + [n];
      }
    }
  }

  /** A ring that takes everything receives every event. */
  lemma {:induction false} AllAccepted(events: seq<MarketEvent>, accepts: nat -> bool)
    requires forall i: nat :: i < |events| ==> accepts(i)
    ensures Accepted(events, accepts) == events
  {
    if events != [] {
      AllAccepted(events[..|events| - 1], accepts);
    }
  }
}
