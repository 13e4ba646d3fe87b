/**
 Bitwise operators on unsigned words, as recursion over the binary digits of a natural
 number, and the mask identities that the power-of-two tables and pools rely on: a mask of
 low ones is a remainder, its complement rounds down, and one bit set or cleared changes
 one member of a set.
 */
module BitOps {
  import opened Machine

  function Pow2(k: nat): (p: nat)
    ensures p > 0
  {
    if k == 0 then 1 else 2 * Pow2(k - 1)
  }

  function And(a: nat, b: nat): nat {
    if a == 0 || b == 0 then 0
    else 2 * And(a / 2, b / 2) + (if a % 2 == 1 && b % 2 == 1 then 1 else 0)
  }

  function Or(a: nat, b: nat): nat {
    if a == 0 then b
    else if b == 0 then a
    else 2 * Or(a / 2, b / 2) + (if a % 2 == 1 || b % 2 == 1 then 1 else 0)
  }

  function Xor(a: nat, b: nat): nat {
    if a == 0 then b
    else if b == 0 then a
    else 2 * Xor(a / 2, b / 2) + (if a % 2 != b % 2 then 1 else 0)
  }

  /** `!a` on a word of `w` bits. */
  function Not(w: nat, a: nat): nat
    requires a < Pow2(w)
  {
    Pow2(w) - 1 - a
  }

  /** The binary digit of `a` at position `k`. */
  predicate Bit(a: nat, k: nat) {
    if k == 0 then a % 2 == 1 else Bit(a / 2, k - 1)
  }

  lemma {:induction false} Pow2Monotone(j: nat, k: nat)
    requires j <= k
    ensures Pow2(j) <= Pow2(k)
    decreases k
  {
    if j < k {
      Pow2Monotone(j, k - 1);
    }
  }

  lemma ModDouble(x: nat, m: nat)
    requires m > 0
    ensures x % (2 * m) == 2 * ((x / 2) % m) + x % 2
  {
    var q, r := (x / 2) / m, (x / 2) % m;
    assert x / 2 == q * m + r;
    assert x == q * (2 * m) + (2 * r + x % 2);
    DivUnique(x, 2 * m, q, 2 * r + x % 2);
  }

  lemma AndOdd(x: nat, b: nat)
    ensures And(x, 2 * b + 1) == 2 * And(x / 2, b) + x % 2
  {
    assert (2 * b + 1) / 2 == b;
  }

  lemma AndEven(x: nat, b: nat)
    ensures And(x, 2 * b) == 2 * And(x / 2, b)
  {
    assert (2 * b) / 2 == b;
  }

  lemma MaskDoubles(x: nat, m: nat, mask: nat)
    requires m > 0 && mask == 2 * (m - 1) + 1 && And(x / 2, m - 1) == (x / 2) % m
    ensures And(x, mask) == x % (mask + 1)
  {
    AndOdd(x, m - 1);
    ModDouble(x, m);
    assert mask + 1 == 2 * m;
  }

  /** `x & (2^k - 1)` is `x mod 2^k`. */
  lemma {:induction false} MaskIsMod(x: nat, k: nat)
    ensures And(x, Pow2(k) - 1) == x % Pow2(k)
  {
    if k > 0 {
      MaskIsMod(x / 2, k - 1);
      MaskDoubles(x, Pow2(k - 1), Pow2(k) - 1);
    }
  }

  lemma AndHalves(a: nat, b: nat)
    ensures And(a, b) == 2 * And(a / 2, b / 2) + (if a % 2 == 1 && b % 2 == 1 then 1 else 0)
  {
  }

  lemma NotHalves(w: nat, a: nat)
    requires 0 < w && a < Pow2(w)
    ensures a / 2 < Pow2(w - 1)
    ensures Not(w, a) / 2 == Not(w - 1, a / 2) && Not(w, a) % 2 == 1 - a % 2
  {
  }

  /** A mask and its complement split a word in two. */
  lemma {:induction false} AndSplits(w: nat, x: nat, m: nat)
    requires x < Pow2(w) && m < Pow2(w)
    ensures And(x, m) + And(x, Not(w, m)) == x
    decreases w
  {
    if w > 0 {
      AndSplits(w - 1, x / 2, m / 2);
      NotHalves(w, m);
      AndHalves(x, m);
      AndHalves(x, Not(w, m));
    }
  }

  /** `x & !(2^k - 1)` clears the low `k` digits. */
  lemma MaskClearsLow(w: nat, k: nat, x: nat)
    requires k <= w && x < Pow2(w)
    ensures Pow2(k) - 1 < Pow2(w)
    ensures And(x, Not(w, Pow2(k) - 1)) == x - x % Pow2(k)
  {
    Pow2Monotone(k, w);
    AndSplits(w, x, Pow2(k) - 1);
    MaskIsMod(x, k);
  }

  lemma {:induction false} BitOfAnd(a: nat, b: nat, k: nat)
    ensures Bit(And(a, b), k) <==> Bit(a, k) && Bit(b, k)
    decreases k
  {
    if a == 0 || b == 0 {
      BitOfZero(k);
    } else if k > 0 {
      BitOfAnd(a / 2, b / 2, k - 1);
    }
  }

  lemma {:induction false} BitOfOr(a: nat, b: nat, k: nat)
    ensures Bit(Or(a, b), k) <==> Bit(a, k) || Bit(b, k)
    decreases k
  {
    if a == 0 || b == 0 {
      BitOfZero(k);
    } else if k > 0 {
      BitOfOr(a / 2, b / 2, k - 1);
    }
  }

  lemma {:induction false} BitOfZero(k: nat)
    ensures !Bit(0, k)
  {
    if k > 0 {
      BitOfZero(k - 1);
    }
  }

  lemma {:induction false} BitOfPow2(j: nat, k: nat)
    ensures Bit(Pow2(j), k) <==> j == k
  {
    if j == 0 {
      if k > 0 {
        BitOfZero(k - 1);
      }
    } else if k > 0 {
      BitOfPow2(j - 1, k - 1);
    }
  }

  /** Testing a digit with a one-bit mask. */
  lemma {:induction false} MaskTest(a: nat, k: nat)
    ensures And(a, Pow2(k)) != 0 <==> Bit(a, k)
  {
    if k == 0 {
      assert And(a, 1) == a % 2;
    } else {
      AndEven(a, Pow2(k - 1));
      MaskTest(a / 2, k - 1);
    }
  }

  lemma {:induction false} BitOfNot(w: nat, a: nat, k: nat)
    requires a < Pow2(w) && k < w
    ensures Bit(Not(w, a), k) <==> !Bit(a, k)
    decreases w
  {
    if k > 0 {
      BitOfNot(w - 1, a / 2, k - 1);
      assert Not(w, a) / 2 == Not(w - 1, a / 2);
    }
  }

  lemma {:induction false} OrFits(w: nat, a: nat, b: nat)
    requires a < Pow2(w) && b < Pow2(w)
    ensures Or(a, b) < Pow2(w)
    decreases w
  {
    if w > 0 {
      OrFits(w - 1, a / 2, b / 2);
    }
  }

  lemma {:induction false} XorSelf(a: nat)
    ensures Xor(a, a) == 0
  {
    if a > 0 {
      XorSelf(a / 2);
    }
  }

  lemma {:induction false} AndAtMost(a: nat, b: nat)
    ensures And(a, b) <= a
  {
    if a > 0 && b > 0 {
      AndAtMost(a / 2, b / 2);
    }
  }

  lemma {:induction false} Pow2Strict(j: nat, k: nat)
    requires j < k
    ensures Pow2(j) < Pow2(k)
  {
    Pow2Monotone(j, k - 1);
  }

  /** The least multiple of `m` that is at least `x`. */
  function RoundUp(x: nat, m: nat): (r: nat)
    requires m > 0
    ensures x <= r < x + m && r % m == 0
  {
    var up := x + m - 1;
    DivUnique(up - up % m, m, up / m, 0);
    up - up % m
  }

  /** Adding `2^k - 1` and clearing the low digits rounds up. */
  lemma MaskRoundsUp(w: nat, k: nat, x: nat)
    requires k <= w && x + Pow2(k) - 1 < Pow2(w)
    ensures Pow2(k) - 1 < Pow2(w)
    ensures And(x + (Pow2(k) - 1), Not(w, Pow2(k) - 1)) == RoundUp(x, Pow2(k))
  {
    MaskClearsLow(w, k, x + (Pow2(k) - 1));
  }
}
