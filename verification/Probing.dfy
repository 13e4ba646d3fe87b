/**
 Cyclic linear probing: positions along a probe path and how they cover a table of any size,
 the two ways in which the code moves to the next slot (a mask and a remainder), and the
 counting facts on sets and sequences of slots from which both tables prove that a probe
 meets a gap.
 */
module Probing {
  import opened BitOps
  import opened Machine

  /** The slot `d` places after `home`, wrapping once around a table of `size` slots. */
  function At(home: nat, d: nat, size: nat): (i: nat)
    requires home < size && d <= size
    ensures i < size
  {
    if home + d < size then home + d else home + d - size
  }

  /** How far slot `i` lies along the probe path that starts at `home`. */
  function Dist(home: nat, i: nat, size: nat): (d: nat)
    requires home < size && i < size
    ensures d < size && At(home, d, size) == i
  {
    if home <= i then i - home else i + size - home
  }

  /** `(i + 1) & (size - 1)` and `% size` move one place along the path. */
  lemma NextSlot(bits: nat, i: nat)
    requires i < Pow2(bits)
    ensures And(i + 1, Pow2(bits) - 1) == At(i, 1, Pow2(bits))
  {
    MaskIsMod(i + 1, bits);
    WrapOnce(i + 1, Pow2(bits));
  }

  lemma NextOnPath(bits: nat, home: nat, d: nat)
    requires home < Pow2(bits) && d < Pow2(bits)
    ensures And(At(home, d, Pow2(bits)) + 1, Pow2(bits) - 1) == At(home, d + 1, Pow2(bits))
  {
    NextSlot(bits, At(home, d, Pow2(bits)));
  }

  lemma ModIsAt(home: nat, d: nat, size: nat)
    requires home < size && d <= size
    ensures (home + d) % size == At(home, d, size)
  {
    WrapOnce(home + d, size);
  }

  lemma WrapOnce(x: nat, size: nat)
    requires x < 2 * size
    ensures x % size == if x < size then x else x - size
  {
    if x < size {
      DivUnique(x, size, 0, x);
    } else {
      DivUnique(x, size, 1, x - size);
    }
  }

  /** A sequence shorter than the table leaves some slot unnamed. */
  lemma {:induction false} SomeSlotUnnamed(named: seq<nat>, size: nat) returns (i: nat)
    requires |named| < size
    ensures i < size && i !in named
  {
    var all := UpTo(size);
    var taken := set j | j in named;
    ElementsAtMost(named);
    if all <= taken {
      SubsetSize(all, taken);
    }
    i :| i in all && i !in taken;
  }

  ghost function UpTo(n: nat): (s: set<nat>)
    ensures |s| == n && forall j: nat :: j in s <==> j < n
  {
    if n == 0 then {} else UpTo(n - 1) + {n - 1}
  }

  lemma {:induction false} ElementsAtMost<T>(s: seq<T>)
    ensures |set x | x in s| <= |s|
  {
    if s != [] {
      ElementsAtMost(s[1..]);
      assert (set x | x in s) == (set x | x in s[1..]) + {s[0]};
    }
  }

  lemma {:induction false} SubsetSize<T>(a: set<T>, b: set<T>)
    requires a <= b
    ensures |a| <= |b|
    decreases a
  {
    if a != {} {
      var x :| x in a;
      SubsetSize(a - {x}, b - {x});
    }
  }
}
