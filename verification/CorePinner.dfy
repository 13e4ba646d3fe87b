/**
 CPU sets as words of bits, and the kernel CPU-list text ("0-3,8") that is written for an
 interrupt's affinity.
 */
module CorePinner {
  import opened Machine
  import opened BitOps
  import opened Decimal

  // ---------------------------------------------------------------- words of bits

  predicate BitAt(words: seq<nat>, i: nat, b: nat) {
    i < |words| && Bit(words[i], b)
  }

  /** CPU `cpu` is bit `cpu % w` of word `cpu / w`. */
  function WordOf(cpu: nat, w: nat): nat
    requires w > 0
  {
    cpu / w
  }

  function BitIn(cpu: nat, w: nat): (b: nat)
    requires w > 0
    ensures b < w
  {
    cpu % w
  }

  predicate Member(words: seq<nat>, w: nat, cpu: nat)
    requires w > 0
  {
    BitAt(words, WordOf(cpu, w), BitIn(cpu, w))
  }

  lemma SamePlaceIff(a: nat, b: nat, w: nat)
    requires w > 0
    ensures WordOf(a, w) == WordOf(b, w) && BitIn(a, w) == BitIn(b, w) <==> a == b
  {
  }

  lemma WordIndex(cpu: nat, w: nat, words: nat)
    requires w > 0
    ensures cpu < words * w <==> WordOf(cpu, w) < words
  {
    DivBounds(cpu, w);
    if WordOf(cpu, w) < words {
      MulMonotone(WordOf(cpu, w) + 1, words, w);
    } else {
      MulMonotone(words, WordOf(cpu, w), w);
    }
  }

  lemma SetBit(words: seq<nat>, i: nat, b: nat, j: nat, c: nat)
    requires i < |words|
    ensures BitAt(words[i := Or(words[i], Pow2(b))], j, c) <==> (i == j && b == c) || BitAt(words, j, c)
  {
    BitOfOr(words[i], Pow2(b), c);
    BitOfPow2(b, c);
  }

  lemma ClearBit(words: seq<nat>, w: nat, i: nat, b: nat, j: nat, c: nat)
    requires i < |words| && b < w && c < w
    ensures Pow2(b) < Pow2(w)
    ensures BitAt(words[i := And(words[i], Not(w, Pow2(b)))], j, c) <==> !(i == j && b == c) && BitAt(words, j, c)
  {
    Pow2Strict(b, w);
    BitOfAnd(words[i], Not(w, Pow2(b)), c);
    BitOfNot(w, Pow2(b), c);
    BitOfPow2(b, c);
  }

  /** Or-ing in one bit inserts one CPU. */
  lemma SetInserts(words: seq<nat>, w: nat, cpu: nat, other: nat)
    requires w > 0 && WordOf(cpu, w) < |words|
    ensures Member(words[WordOf(cpu, w) := Or(words[WordOf(cpu, w)], Pow2(BitIn(cpu, w)))], w, other) <==> other == cpu || Member(words, w, other)
  {
    SetBit(words, WordOf(cpu, w), BitIn(cpu, w), WordOf(other, w), BitIn(other, w));
    SamePlaceIff(cpu, other, w);
  }

  /** And-ing with the complement of one bit removes one CPU. */
  lemma ClearRemoves(words: seq<nat>, w: nat, cpu: nat, other: nat)
    requires w > 0 && WordOf(cpu, w) < |words|
    ensures Pow2(BitIn(cpu, w)) < Pow2(w)
    ensures Member(words[WordOf(cpu, w) := And(words[WordOf(cpu, w)], Not(w, Pow2(BitIn(cpu, w))))], w, other)
      <==> other != cpu && Member(words, w, other)
  {
    ClearBit(words, w, WordOf(cpu, w), BitIn(cpu, w), WordOf(other, w), BitIn(other, w));
    SamePlaceIff(cpu, other, w);
  }

  lemma SetInsertsAll(was: seq<nat>, now: seq<nat>, w: nat, cpu: nat)
    requires w > 0 && WordOf(cpu, w) < |was| && now == was[WordOf(cpu, w) := Or(was[WordOf(cpu, w)], Pow2(BitIn(cpu, w)))]
    ensures forall other: nat :: Member(now, w, other) <==> other == cpu || Member(was, w, other)
  {
    forall other: nat ensures Member(now, w, other) <==> other == cpu || Member(was, w, other) {
      SetInserts(was, w, cpu, other);
    }
  }

  lemma ClearRemovesAll(was: seq<nat>, now: seq<nat>, w: nat, cpu: nat)
    requires w > 0 && WordOf(cpu, w) < |was| && Pow2(BitIn(cpu, w)) < Pow2(w)
    requires now == was[WordOf(cpu, w) := And(was[WordOf(cpu, w)], Not(w, Pow2(BitIn(cpu, w))))]
    ensures forall other: nat :: Member(now, w, other) <==> other != cpu && Member(was, w, other)
  {
    forall other: nat ensures Member(now, w, other) <==> other != cpu && Member(was, w, other) {
      ClearRemoves(was, w, cpu, other);
    }
  }

  class CpuSet {
    const w: nat
    const bits: array<nat>
    const maxCpus: nat

    ghost predicate Valid()
      reads this, bits
    {
      w > 0 && maxCpus == bits.Length * w && forall i :: 0 <= i < bits.Length ==> bits[i] < Pow2(w)
    }

    constructor (w: nat, words: nat)
      requires w > 0
      ensures Valid() && fresh(bits) && this.w == w && maxCpus == words * w
      ensures forall cpu: nat :: !Member(bits[..], w, cpu)
    {
      this.w := w;
      bits := new nat[words](_ => 0);
      maxCpus := words * w;
      new;
      forall cpu: nat ensures !Member(bits[..], w, cpu) {
        BitOfZero(BitIn(cpu, w));
      }
    }

    method Set(cpu: nat)
      requires Valid()
      modifies bits
      ensures Valid()
      ensures forall other: nat :: Member(bits[..], w, other) <==> (other == cpu < maxCpus) || Member(old(bits[..]), w, other)
    {
      WordIndex(cpu, w, bits.Length);
      if cpu < maxCpus {
        var idx, bit := WordOf(cpu, w), BitIn(cpu, w);
        ghost var was := bits[..];
        Pow2Strict(bit, w);
        OrFits(w, bits[idx], Pow2(bit));
        StoreWord(idx, Or(bits[idx], Pow2(bit)));
        SetInsertsAll(was, bits[..], w, cpu);
      }
    }

    method Clear(cpu: nat)
      requires Valid()
      modifies bits
      ensures Valid()
      ensures forall other: nat :: Member(bits[..], w, other) <==> (other != cpu || cpu >= maxCpus) && Member(old(bits[..]), w, other)
    {
      WordIndex(cpu, w, bits.Length);
      if cpu < maxCpus {
        var idx, bit := WordOf(cpu, w), BitIn(cpu, w);
        ghost var was := bits[..];
        Pow2Strict(bit, w);
        AndAtMost(bits[idx], Not(w, Pow2(bit)));
        StoreWord(idx, And(bits[idx], Not(w, Pow2(bit))));
        ClearRemovesAll(was, bits[..], w, cpu);
      }
    }

    method StoreWord(idx: nat, word: nat)
      requires idx < bits.Length
      modifies bits
      ensures bits[..] == old(bits[..])[idx := word]
    {
      bits[idx] := word;
    }

    method IsSet(cpu: nat) returns (r: bool)
      requires Valid()
      ensures r <==> Member(bits[..], w, cpu)
    {
      WordIndex(cpu, w, bits.Length);
      if cpu >= maxCpus {
        return false;
      }
      MaskTest(bits[WordOf(cpu, w)], BitIn(cpu, w));
      r := And(bits[WordOf(cpu, w)], Pow2(BitIn(cpu, w))) != 0;
    }
  }

  // ---------------------------------------------------------------- the range list

  datatype Range = Range(first: nat, last: nat)

  predicate InRanges(rs: seq<Range>, x: nat) {
    exists k :: 0 <= k < |rs| && rs[k].first <= x <= rs[k].last
  }

  /** Ascending, disjoint, and maximal: no two ranges touch. */
  ghost predicate Canonical(rs: seq<Range>) {
    && (forall k :: 0 <= k < |rs| ==> rs[k].first <= rs[k].last)
    && (forall k, l :: 0 <= k < l < |rs| ==> rs[k].last + 1 < rs[l].first)
  }

  /** The loop's state after some CPUs: closed ranges, and the one still growing. */
  datatype Scan = Scan(closed: seq<Range>, open: Option<Range>)

  function ScanOf(m: seq<bool>): Scan {
    if m == [] then Scan([], None)
    else
      var n := |m| - 1;
      Extended(ScanOf(m[..n]), n, m[n])
  }

  /** CPU `n` opens or stretches a range, or its absence closes one. */
  function Extended(s: Scan, n: nat, isSet: bool): Scan {
    if isSet then s.(open := Some(Range(if s.open.Some? then s.open.value.first else n, n)))
    else if s.open.Some? then Scan(s.closed + [s.open.value], None)
    else s
  }

  function AllRanges(s: Scan): seq<Range> {
    s.closed + (if s.open.Some? then [s.open.value] else [])
  }

  function RangesOf(m: seq<bool>): seq<Range> {
    AllRanges(ScanOf(m))
  }

  /** The state holds exactly the CPUs of `m`, in canonical form. */
  ghost predicate ScanSound(s: Scan, m: seq<bool>) {
    && Canonical(s.closed)
    && (s.open.None? ==> forall k :: 0 <= k < |s.closed| ==> s.closed[k].last + 1 < |m|)
    && (s.open.Some? ==> s.open.value.first <= s.open.value.last == |m| - 1)
    && (s.open.Some? ==> forall k :: 0 <= k < |s.closed| ==> s.closed[k].last + 1 < s.open.value.first)
    && (forall x: nat :: x < |m| ==>
          (m[x] <==> InRanges(s.closed, x) || (s.open.Some? && s.open.value.first <= x <= s.open.value.last)))
  }

  lemma InRangesSnoc(rs: seq<Range>, r: Range, x: nat)
    ensures InRanges(rs + [r], x) <==> InRanges(rs, x) || r.first <= x <= r.last
  {
    assert (rs + [r])[|rs|] == r;
    if InRanges(rs, x) {
      var k :| 0 <= k < |rs| && rs[k].first <= x <= rs[k].last;
      assert (rs + [r])[k] == rs[k];
    }
  }

  lemma ExtendedHolds(s: Scan, m: seq<bool>, isSet: bool, x: nat)
    requires ScanSound(s, m) && x <= |m|
    ensures var t := Extended(s, |m|, isSet);
      (m + [isSet])[x] <==> InRanges(t.closed, x) || (t.open.Some? && t.open.value.first <= x <= t.open.value.last)
  {
    if !isSet && s.open.Some? {
      InRangesSnoc(s.closed, s.open.value, x);
    }
  }

  lemma ExtendedIsSound(s: Scan, m: seq<bool>, isSet: bool)
    requires ScanSound(s, m)
    ensures ScanSound(Extended(s, |m|, isSet), m + [isSet])
  {
    forall x: nat | x < |m| + 1
      ensures var t := Extended(s, |m|, isSet);
        (m + [isSet])[x] <==> InRanges(t.closed, x) || (t.open.Some? && t.open.value.first <= x <= t.open.value.last)
    {
      ExtendedHolds(s, m, isSet, x);
    }
  }

  lemma {:induction false} ScanIsSound(m: seq<bool>)
    ensures ScanSound(ScanOf(m), m)
  {
    if m != [] {
      var n := |m| - 1;
      ScanIsSound(m[..n]);
      ExtendedIsSound(ScanOf(m[..n]), m[..n], m[n]);
      assert m[..n] + [m[n]] == m;
    }
  }

  /** The list built from any CPU set is canonical and covers exactly that set. */
  lemma RangesAreExact(m: seq<bool>)
    ensures Canonical(RangesOf(m))
    ensures forall x: nat :: InRanges(RangesOf(m), x) <==> x < |m| && m[x]
  {
    var s := ScanOf(m);
    ScanIsSound(m);
    forall x: nat ensures InRanges(RangesOf(m), x) <==> x < |m| && m[x] {
      if s.open.Some? {
        InRangesSnoc(s.closed, s.open.value, x);
      } else {
        assert RangesOf(m) == s.closed;
      }
    }
  }

  /** A set of CPUs has only one canonical range list. */
  lemma {:induction false} CanonicalIsUnique(a: seq<Range>, b: seq<Range>)
    requires Canonical(a) && Canonical(b)
    requires forall x: nat :: InRanges(a, x) <==> InRanges(b, x)
    ensures a == b
    decreases |a|
  {
    if a != [] && b != [] {
      HeadsAgree(a, b);
      HeadsAgree(b, a);
      forall x: nat ensures InRanges(a[1..], x) <==> InRanges(b[1..], x) {
        TailRanges(a, x);
        TailRanges(b, x);
      }
      CanonicalIsUnique(a[1..], b[1..]);
    } else if a != [] {
      assert a[0].first <= a[0].first <= a[0].last;
      assert InRanges(a, a[0].first);
    } else if b != [] {
      assert InRanges(b, b[0].first);
    }
  }

  lemma TailRanges(a: seq<Range>, x: nat)
    requires Canonical(a) && a != []
    ensures InRanges(a[1..], x) <==> InRanges(a, x) && a[0].last < x
    ensures Canonical(a[1..])
  {
    if InRanges(a[1..], x) {
      var k :| 0 <= k < |a[1..]| && a[1..][k].first <= x <= a[1..][k].last;
      assert a[k + 1].first <= x <= a[k + 1].last;
    }
    if InRanges(a, x) && a[0].last < x {
      var k :| 0 <= k < |a| && a[k].first <= x <= a[k].last;
      assert a[1..][k - 1].first <= x <= a[1..][k - 1].last;
    }
  }

  lemma HeadHolds(a: seq<Range>, x: nat)
    requires a != []
    ensures a[0].first <= x <= a[0].last ==> InRanges(a, x)
  {
  }

  /** Right after the first range comes a gap. */
  lemma GapAfterHead(b: seq<Range>)
    requires Canonical(b) && b != []
    ensures !InRanges(b, b[0].last + 1)
  {
  }

  lemma HeadsAgree(a: seq<Range>, b: seq<Range>)
    requires Canonical(a) && Canonical(b) && a != [] && b != []
    requires forall x: nat :: InRanges(a, x) <==> InRanges(b, x)
    ensures a[0].first >= b[0].first && a[0].last <= b[0].last
  {
    HeadHolds(a, a[0].first);
    HeadHolds(b, b[0].first);
    var k :| 0 <= k < |b| && b[k].first <= a[0].first <= b[k].last;
    var l :| 0 <= l < |a| && a[l].first <= b[0].first <= a[l].last;
    GapAfterHead(b);
    HeadHolds(a, b[0].last + 1);
  }

  // ---------------------------------------------------------------- the text

  const COMMA: byte := 44
  const DASH: byte := 45

  function Item(r: Range): (t: seq<byte>)
    ensures t != []
  {
    if r.first == r.last then Print(r.first) else Print(r.first) + [DASH] + Print(r.last)
  }

  /** Append one item, with a comma unless the text is still empty. */
  function Append(text: seq<byte>, r: Range): (t: seq<byte>)
    ensures t != []
  {
    (if text != [] then text + [COMMA] else text) + Item(r)
  }

  function Render(rs: seq<Range>): seq<byte> {
    if rs == [] then [] else Append(Render(rs[..|rs| - 1]), rs[|rs| - 1])
  }

  /** Reading one item back: a number, or two joined by a dash. */
  function ParseItem(t: seq<byte>): Option<Range> {
    match IndexOf(t, DASH)
    case None => if t != [] && AllDigits(t) then Some(Range(Value(t), Value(t))) else None
    case Some(i) =>
      var a, b := t[..i], t[i + 1..];
      if a != [] && b != [] && AllDigits(a) && AllDigits(b) then Some(Range(Value(a), Value(b))) else None
  }

  /** Reading a CPU list: items separated by commas; None when some item is malformed. */
  function ParseList(t: seq<byte>): Option<seq<Range>>
    decreases |t|
  {
    if t == [] then Some([])
    else match IndexOf(t, COMMA)
      case None =>
        (match ParseItem(t) case None => None case Some(r) => Some([r]))
      case Some(i) =>
        match ParseItem(t[..i])
        case None => None
        case Some(r) =>
          match ParseList(t[i + 1..])
          case None => None
          case Some(rest) => if rest == [] then None else Some([r] + rest)
  }

  lemma NotInDigits(t: seq<byte>, b: byte)
    requires AllDigits(t) && !IsDigit(b)
    ensures b !in t
  {
  }

  lemma ItemRoundTrip(r: Range)
    ensures ParseItem(Item(r)) == Some(r) && COMMA !in Item(r)
  {
    var a, b := Print(r.first), Print(r.last);
    ValueOfPrint(r.first);
    ValueOfPrint(r.last);
    NotInDigits(a, DASH);
    NotInDigits(a, COMMA);
    NotInDigits(b, COMMA);
    if r.first != r.last {
      var t := a + [DASH] + b;
      assert t[..|a|] == a && t[|a| + 1..] == b;
      IndexUnique(t, DASH, |a|);
    }
  }

  lemma RenderOneMore(rs: seq<Range>, r: Range)
    ensures Render(rs + [r]) == if rs == [] then Item(r) else Render(rs) + [COMMA] + Item(r)
  {
    assert (rs + [r])[..|rs|] == rs;
  }

  lemma Regroup(a: seq<byte>, b: seq<byte>, c: seq<byte>)
    ensures (a + [COMMA] + b) + [COMMA] + c == a + [COMMA] + (b + [COMMA] + c)
  {
  }

  /** The list as text, seen from its first range. */
  lemma {:induction false} RenderCons(r: Range, rest: seq<Range>)
    ensures Render([r] + rest) == if rest == [] then Item(r) else Item(r) + [COMMA] + Render(rest)
    decreases |rest|
  {
    if rest == [] {
      RenderOneMore([], r);
      assert [r] + rest == [] + [r];
    } else {
      var shorter, last := rest[..|rest| - 1], rest[|rest| - 1];
      assert [r] + rest == ([r] + shorter) + [last] && rest == shorter + [last];
      RenderCons(r, shorter);
      RenderOneMore([r] + shorter, last);
      RenderOneMore(shorter, last);
      Regroup(Item(r), Render(shorter), Item(last));
    }
  }

  lemma ParseLast(r: Range)
    ensures ParseList(Item(r)) == Some([r])
  {
    ItemRoundTrip(r);
  }

  lemma ParseFirst(r: Range, tail: seq<byte>, rest: seq<Range>)
    requires ParseList(tail) == Some(rest) && rest != []
    ensures ParseList(Item(r) + [COMMA] + tail) == Some([r] + rest)
  {
    ItemRoundTrip(r);
    var item := Item(r);
    var t := item + [COMMA] + tail;
    assert t[..|item|] == item && t[|item| + 1..] == tail;
    IndexUnique(t, COMMA, |item|);
  }

  /** Reading the text of any range list gives back that list. */
  lemma {:induction false} RenderRoundTrip(rs: seq<Range>)
    ensures ParseList(Render(rs)) == Some(rs)
    decreases |rs|
  {
    if rs != [] {
      var r, rest := rs[0], rs[1..];
      assert rs == [r] + rest;
      RenderCons(r, rest);
      if rest == [] {
        assert rs == [r];
        ParseLast(r);
      } else {
        RenderRoundTrip(rest);
        ParseFirst(r, Render(rest), rest);
      }
    }
  }

  /** The kernel's notation: "0-3,8" names CPUs 0 to 3 and 8. */
  lemma KernelNotation()
    ensures Render([Range(0, 3), Range(8, 8)]) == ['0' as int, '-' as int, '3' as int, ',' as int, '8' as int]
  {
    RenderOneMore([Range(0, 3)], Range(8, 8));
    RenderOneMore([], Range(0, 3));
    assert [Range(0, 3)] + [Range(8, 8)] == [Range(0, 3), Range(8, 8)] && [] + [Range(0, 3)] == [Range(0, 3)];
    assert Print(0) == [48] && Print(3) == [51] && Print(8) == [56];
  }

  /** The affinity text of a CPU set reads back as exactly that set. */
  lemma TextDecodesToSet(m: seq<bool>)
    ensures ParseList(Render(RangesOf(m))).Some?
    ensures var rs := ParseList(Render(RangesOf(m))).value;
      Canonical(rs) && forall x: nat :: InRanges(rs, x) <==> x < |m| && m[x]
  {
    RenderRoundTrip(RangesOf(m));
    RangesAreExact(m);
  }

  /** The membership of CPUs `0..n` as a sequence. */
  ghost function Membership(words: seq<nat>, w: nat, n: nat): (m: seq<bool>)
    requires w > 0
    ensures |m| == n && forall x :: 0 <= x < n ==> (m[x] <==> Member(words, w, x))
  {
    if n == 0 then [] else Membership(words, w, n - 1) + [Member(words, w, n - 1)]
  }

  /** The range loop of `set_irq_affinity`: one pass with an open range, then the last one. */
  method BuildCpuList(mask: CpuSet) returns (text: seq<byte>)
    requires mask.Valid()
    ensures text == Render(RangesOf(Membership(mask.bits[..], mask.w, mask.maxCpus)))
  {
    ghost var words := mask.bits[..];
    text := [];
    var start: Option<nat>, end: Option<nat> := None, None;
    for cpu := 0 to mask.maxCpus
      invariant start.Some? <==> end.Some?
      invariant var s := ScanOf(Membership(words, mask.w, cpu));
        text == Render(s.closed) && s.open == if start.Some? then Some(Range(start.value, end.value)) else None
    {
      assert Membership(words, mask.w, cpu + 1)[..cpu] == Membership(words, mask.w, cpu);
      ghost var s := ScanOf(Membership(words, mask.w, cpu));
      var isSet := mask.IsSet(cpu);
      if isSet {
        if start.None? {
          start := Some(cpu);
        }
        end := Some(cpu);
      } else if start.Some? {
        text := AppendRange(text, start.value, end.value);
        assert (s.closed + [s.open.value])[..|s.closed|] == s.closed;
        start, end := None, None;
      }
    }
    ghost var s := ScanOf(Membership(words, mask.w, mask.maxCpus));
    if start.Some? {
      text := AppendRange(text, start.value, end.value);
      assert (s.closed + [s.open.value])[..|s.closed|] == s.closed;
    } else {
      assert s.closed + [] == s.closed;
    }
  }

  method AppendRange(text: seq<byte>, first: nat, last: nat) returns (t: seq<byte>)
    ensures t == Append(text, Range(first, last))
  {
    t := text;
    if t != [] {
      t := t + [COMMA];
    }
    if first == last {
      t := t + Print(first);
    } else {
      t := t + (Print(first) + [DASH] + Print(last));
    }
  }
}
