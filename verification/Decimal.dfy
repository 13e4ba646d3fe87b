/**
 Byte text: printing naturals in decimal, with and without leading zeros, reading strings
 of digits back, and searching for a delimiter. The FIX fields, the fixed-point decimals and
 the CPU lists are all written and read in these terms, and each round trip rests on the
 one proved here.
 */
module Decimal {
  import opened Machine

  const ZERO: byte := 48

  predicate IsDigit(b: byte) {
    48 <= b <= 57
  }

  predicate AllDigits(s: seq<byte>) {
    forall i :: 0 <= i < |s| ==> IsDigit(s[i])
  }

  function Value(s: seq<byte>): (v: nat)
    requires AllDigits(s)
  {
    if s == [] then 0 else Value(s[..|s| - 1]) * 10 + (s[|s| - 1] - ZERO)
  }

  function LastDigit(n: nat): (b: byte)
    ensures IsDigit(b) && n == (n / 10) * 10 + (b - ZERO)
  {
    ZERO + n % 10
  }

  function Print(n: nat): (s: seq<byte>)
    ensures s != [] && AllDigits(s)
  {
    if n < 10 then [LastDigit(n)] else Print(n / 10) + [LastDigit(n)]
  }

  /** Exactly `width` digits, zero-padded on the left. */
  function PrintPadded(n: nat, width: nat): (s: seq<byte>)
    ensures |s| == width && AllDigits(s)
  {
    if width == 0 then [] else PrintPadded(n / 10, width - 1) + [LastDigit(n)]
  }

  function Pow10(k: nat): (p: nat)
    ensures p > 0
  {
    if k == 0 then 1 else 10 * Pow10(k - 1)
  }

  lemma ValueSnoc(s: seq<byte>, b: byte)
    requires AllDigits(s) && IsDigit(b)
    ensures AllDigits(s + [b]) && Value(s + [b]) == Value(s) * 10 + (b - ZERO)
  {
    assert (s + [b])[..|s|] == s;
  }

  /** Reading back a printed number. */
  lemma {:induction false} ValueOfPrint(n: nat)
    ensures Value(Print(n)) == n
  {
    if n < 10 {
      ValueSnoc([], LastDigit(n));
      assert [] + [LastDigit(n)] == Print(n);
    } else {
      ValueOfPrint(n / 10);
      ValueSnoc(Print(n / 10), LastDigit(n));
    }
  }

  lemma {:induction false} ValueOfPadded(n: nat, width: nat)
    requires n < Pow10(width)
    ensures Value(PrintPadded(n, width)) == n
  {
    if width > 0 {
      ValueOfPadded(n / 10, width - 1);
      PaddedSnoc(n, width);
    }
  }

  lemma PaddedSnoc(n: nat, width: nat)
    requires width > 0 && Value(PrintPadded(n / 10, width - 1)) == n / 10
    ensures Value(PrintPadded(n, width)) == n
  {
    ValueSnoc(PrintPadded(n / 10, width - 1), LastDigit(n));
  }

  lemma {:induction false} ValueBelow(s: seq<byte>)
    requires AllDigits(s)
    ensures Value(s) < Pow10(|s|)
  {
    if s != [] {
      ValueBelow(s[..|s| - 1]);
    }
  }

  // ---------------------------------------------------------------- searching

  /** The first position of `b`. */
  function IndexOf(data: seq<byte>, b: byte): (r: Option<nat>)
    ensures r.Some? ==> r.value < |data| && data[r.value] == b && b !in data[.. r.value]
    ensures r.None? ==> b !in data
  {
    if data == [] then None
    else if data[0] == b then Some(0)
    else match IndexOf(data[1..], b)
      case None => None
      case Some(i) => assert data[..i + 1] == [data[0]] + data[1..][..i]; Some(i + 1)
  }

  lemma {:induction false} IndexUnique(data: seq<byte>, b: byte, i: nat)
    requires i < |data| && data[i] == b && b !in data[..i]
    ensures IndexOf(data, b) == Some(i)
  {
    if i > 0 {
      assert data[..i][0] == data[0];
      assert data[1..][..i - 1] == data[..i][1..];
      IndexUnique(data[1..], b, i - 1);
    }
  }
}
