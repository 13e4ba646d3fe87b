/**
 Machine-level arithmetic and the option type shared by the components: words that wrap,
 the truncating division and the saturating addition of i64, and the facts about quotients,
 remainders and products of unbounded integers that the proofs of the other modules use
 wherever an expression is not linear.
 */
module Machine {

  datatype Option<+T> = None | Some(value: T)

  type byte = b: nat | b < 256

  const U32: nat := 0x1_0000_0000
  const U64: nat := 0x1_0000_0000_0000_0000
  type u64 = n: nat | n < U64

  const I64_MAX: int := 0x7FFF_FFFF_FFFF_FFFF
  const I64_MIN: int := -0x8000_0000_0000_0000

  /** The decimal fixed-point scale of prices, weights and fee rates. */
  const SCALE: int := 100_000_000

  function Min(a: int, b: int): int {
    if a <= b then a else b
  }

  function Max(a: int, b: int): int {
    if a <= b then b else a
  }

  /** `wrapping_sub` on u64. */
  function WrapSub(a: nat, b: nat): nat {
    (a - b) % U64
  }

  /** The value an i64 register holds after `x` has been reduced modulo 2^64. */
  function WrapI64(x: int): int {
    var r := x % U64;
    if r <= I64_MAX then r else r - U64
  }

  /** Reducing an intermediate result early does not change the final register value. */
  lemma WrapAbsorbs(x: int, c: int, y: int)
    ensures WrapI64(WrapI64(x) * c + y) == WrapI64(x * c + y)
  {
    var k := (WrapI64(x) - x) / U64;
    assert WrapI64(x) == x + k * U64;
    assert WrapI64(x) * c + y == x * c + y + (k * c) * U64;
    ModShift(x * c + y, k * c, U64);
  }

  lemma ModShift(x: int, k: int, m: int)
    requires m > 0
    ensures (x + k * m) % m == x % m
  {
    assert x + k * m == (x / m + k) * m + x % m;
    DivUnique(x + k * m, m, x / m + k, x % m);
  }

  /** `saturating_add` and `saturating_sub` on i64 clamp to this range. */
  function Saturate(x: int): int {
    if x < I64_MIN then I64_MIN else if x > I64_MAX then I64_MAX else x
  }

  /** Rust's `/`: the quotient is truncated toward zero. */
  function TruncDiv(a: int, d: int): (q: int)
    requires d != 0
  {
    if a >= 0 then a / d else -((-a) / d)
  }

  /** A quotient is determined by its remainder being in range. */
  lemma DivUnique(a: int, d: int, q: int, r: int)
    requires d > 0 && 0 <= r < d && a == q * d + r
    ensures a / d == q && a % d == r
  {
    var k := a / d - q;
    assert k * d == r - a % d;
    if k >= 1 {
      MulMonotone(1, k, d);
    } else if k <= -1 {
      MulMonotone(k, -1, d);
    }
  }

  lemma MulMonotone(a: int, b: int, m: int)
    requires a <= b && 0 <= m
    ensures a * m <= b * m
  {
    assert (b - a) * m >= 0;
  }

  /** The same as one implication, for proofs by contradiction. */
  lemma MulOrder(a: int, b: int, m: int)
    ensures a <= b && 0 <= m ==> a * m <= b * m
  {
    if a <= b && 0 <= m {
      MulMonotone(a, b, m);
    }
  }

  /** A floor quotient stays in any range whose ends, scaled, enclose the dividend. */
  lemma QuotientWithin(a: int, n: nat, low: int, high: int)
    requires 0 < n && low * n <= a <= high * n
    ensures low <= a / n <= high
  {
    var q := a / n;
    DivBounds(a, n);
    MulOrder(q + 1, low, n);
    MulOrder(high + 1, q, n);
  }

  /** The defining inequalities of a floor quotient. */
  lemma DivBounds(a: int, d: int)
    requires d > 0
    ensures (a / d) * d <= a < (a / d) * d + d
  {
  }

  /** Two indices less than one lap apart never share a slot. */
  lemma ModDistinct(a: nat, b: nat, n: nat)
    requires n > 0 && a < b < a + n
    ensures a % n != b % n
  {
    if a % n == b % n {
      var qa, qb := a / n, b / n;
      assert b - a == (qb - qa) * n;
      if qb - qa >= 1 {
        MulMonotone(1, qb - qa, n);
      } else {
        MulMonotone(qb - qa, 0, n);
      }
    }
  }

  /** Floor division is monotone. */
  lemma DivMonotone(a: int, b: int, d: int)
    requires d > 0 && a <= b
    ensures a / d <= b / d
  {
    DivBounds(a, d);
    DivBounds(b, d);
    if a / d > b / d {
      MulMonotone(b / d + 1, a / d, d);
    }
  }
}
