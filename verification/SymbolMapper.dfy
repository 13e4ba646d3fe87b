/** The symbol table: linear probing in place, refining a plain list of keys. */
module SymbolMapper {
  import opened Machine
  import opened BitOps
  import opened Probing

  // The list of (symbol, venue) keys is append-only, and the id of a key is its position plus one.

  const EMPTY_BUCKET: nat := 0xFFFF_FFFF
  const TOMBSTONE: nat := 0xFFFF_FFFE
  const FNV_OFFSET_BASIS: nat := 2166136261
  const FNV_PRIME: nat := 16777619

  datatype Key = Key(symbol: seq<byte>, venue: nat)

  datatype Entry = Entry(id: nat, hash: nat, symbolBytes: seq<byte>, len: nat, venueId: nat)

  type Bucket = e: Entry | e.len <= |e.symbolBytes| == 32 witness Entry(0, 0, seq(32, _ => 0), 0, 0)

  const EMPTY_ENTRY: Bucket := Entry(EMPTY_BUCKET, 0, seq(32, _ => 0), 0, 0)

  // ---------------------------------------------------------------- hashing and comparing

  function Fnv(h: nat, data: seq<byte>): nat {
    if data == [] then h
    else
      var last := |data| - 1;
      (Xor(Fnv(h, data[..last]), data[last]) * FNV_PRIME) % U32
  }

  lemma XorWithA()
    ensures Xor(0x811C_9DC5, 97) == 0x811C_9DA4
  {
    assert Xor(33845879, 1) == 33845878;
    assert Xor(67691758, 3) == 67691757;
    assert Xor(135383516, 6) == 135383514;
    assert Xor(270767032, 12) == 270767028;
    assert Xor(541534065, 24) == 541534057;
    assert Xor(1083068130, 48) == 1083068114;
    assert Xor(2166136261, 97) == 2166136228;
  }

  lemma FnvOfOne(h: nat, b: byte, x: nat)
    requires x == Xor(h, b)
    ensures Fnv(h, [b]) == (x * FNV_PRIME) % U32
  {
    assert [b][..0] == [];
  }

  lemma FirstProduct()
    ensures (0x811C_9DA4 * FNV_PRIME) % U32 == 0xE40C_292C
  {
    DivUnique(0x811C_9DA4 * FNV_PRIME, U32, 8461672, 0xE40C_292C);
  }

  /** The published FNV-1a test vectors: the empty string and "a". */
  lemma FnvVectors(h: nat, a: byte)
    requires h == 0x811C_9DC5 && a as char == 'a'
    ensures FNV_OFFSET_BASIS == h && Fnv(h, []) == h && Fnv(h, [a]) == 0xE40C_292C
  {
    XorWithA();
    FnvOfOne(h, a, 0x811C_9DA4);
    FirstProduct();
  }

  method ComputeHash(data: seq<byte>) returns (hash: nat)
    ensures hash == Fnv(FNV_OFFSET_BASIS, data)
  {
    hash := FNV_OFFSET_BASIS;
    for i := 0 to |data|
      invariant hash == Fnv(FNV_OFFSET_BASIS, data[..i])
    {
      assert data[..i + 1][..i] == data[..i];
      hash := Xor(hash, data[i]);
      hash := (hash * FNV_PRIME) % U32;
    }
    assert data[..|data|] == data;
  }

  /** The 32-byte blocks, the remaining bytes, and the plain comparison agree. */
  method StringsEqual(a: seq<byte>, b: seq<byte>, avx2: bool) returns (equal: bool)
    ensures equal <==> a == b
  {
    if |a| != |b| {
      return false;
    }
    if avx2 && |a| >= 32 {
      var i := 0;
      while i + 32 <= |a|
        invariant 0 <= i <= |a| && a[..i] == b[..i]
      {
        if a[i..i + 32] != b[i..i + 32] {
          return false;
        }
        assert a[..i + 32] == a[..i] + a[i..i + 32];
        assert b[..i + 32] == b[..i] + b[i..i + 32];
        i := i + 32;
      }
      while i < |a|
        invariant 0 <= i <= |a| && a[..i] == b[..i]
      {
        if a[i] != b[i] {
          return false;
        }
        i := i + 1;
      }
      assert a[..i] == a && b[..i] == b;
      return true;
    }
    equal := a == b;
  }

  // ---------------------------------------------------------------- the abstract table

  ghost predicate NoDuplicates(keys: seq<Key>) {
    forall i, j :: 0 <= i < j < |keys| ==> keys[i] != keys[j]
  }

  /** The id of `key`: one more than its position, counting from the front. */
  function IdOf(keys: seq<Key>, key: Key): (id: Option<nat>)
    ensures id.Some? ==> 1 <= id.value <= |keys| && keys[id.value - 1] == key
    ensures id.None? <==> key !in keys
  {
    if keys == [] then None
    else if keys[0] == key then Some(1)
    else match IdOf(keys[1..], key)
      case None => None
      case Some(id) => Some(id + 1)
  }

  predicate Acceptable(symbol: seq<byte>) {
    0 < |symbol| <= 32
  }

  /** What `get_or_insert` does to the list of keys. */
  function Insert(keys: seq<Key>, key: Key, maxSymbols: nat): (seq<Key>, Option<nat>) {
    if !Acceptable(key.symbol) then (keys, None)
    else if key in keys then (keys, IdOf(keys, key))
    else if |keys| + 1 >= maxSymbols then (keys, None)
    else (keys + [key], Some(|keys| + 1))
  }

  function Lookup(keys: seq<Key>, key: Key): Option<nat> {
    if !Acceptable(key.symbol) then None else IdOf(keys, key)
  }

  lemma {:induction false} UniqueId(keys: seq<Key>, key: Key, id: nat)
    requires NoDuplicates(keys) && 1 <= id <= |keys| && keys[id - 1] == key
    ensures IdOf(keys, key) == Some(id)
  {
    var found := IdOf(keys, key).value;
    assert keys[found - 1] == keys[id - 1];
  }

  // ---------------------------------------------------------------- whole runs

  /** The keys after a run of `get_or_insert` calls on an empty table. */
  function After(requests: seq<Key>, maxSymbols: nat): seq<Key> {
    if requests == [] then []
    else Insert(After(requests[..|requests| - 1], maxSymbols), requests[|requests| - 1], maxSymbols).0
  }

  /** What call number `i` of the run returned. */
  function Answer(requests: seq<Key>, i: nat, maxSymbols: nat): Option<nat>
    requires i < |requests|
  {
    Insert(After(requests[..i], maxSymbols), requests[i], maxSymbols).1
  }

  ghost predicate WellFormedKeys(keys: seq<Key>, maxSymbols: nat) {
    && NoDuplicates(keys) && |keys| < maxSymbols
    && forall i :: 0 <= i < |keys| ==> Acceptable(keys[i].symbol)
  }

  lemma {:induction false} AfterIsWellFormed(requests: seq<Key>, maxSymbols: nat)
    requires 0 < maxSymbols
    ensures WellFormedKeys(After(requests, maxSymbols), maxSymbols)
  {
    if requests != [] {
      AfterIsWellFormed(requests[..|requests| - 1], maxSymbols);
    }
  }

  /** Keys are only ever appended. */
  lemma {:induction false} AfterGrows(requests: seq<Key>, i: nat, maxSymbols: nat)
    requires i <= |requests|
    ensures After(requests[..i], maxSymbols) <= After(requests, maxSymbols)
  {
    if i < |requests| {
      var shorter := requests[..|requests| - 1];
      assert shorter[..i] == requests[..i];
      AfterGrows(shorter, i, maxSymbols);
    } else {
      assert requests[..i] == requests;
    }
  }

  /** An id, once returned for a key, is what every later lookup of that key returns. */
  lemma IdsNeverChange(requests: seq<Key>, i: nat, maxSymbols: nat)
    requires 0 < maxSymbols && i < |requests| && Answer(requests, i, maxSymbols).Some?
    ensures Lookup(After(requests, maxSymbols), requests[i]) == Answer(requests, i, maxSymbols)
  {
    var id := Answer(requests, i, maxSymbols).value;
    var before := After(requests[..i], maxSymbols);
    assert requests[..i + 1][..i] == requests[..i];
    AfterGrows(requests, i + 1, maxSymbols);
    AfterIsWellFormed(requests, maxSymbols);
    UniqueId(After(requests, maxSymbols), requests[i], id);
  }

  /** A key is found exactly when some call of the run was given an id for it. */
  lemma {:induction false} FoundIffInserted(requests: seq<Key>, key: Key, maxSymbols: nat)
    requires 0 < maxSymbols
    ensures Lookup(After(requests, maxSymbols), key).Some? <==>
      exists i :: 0 <= i < |requests| && requests[i] == key && Answer(requests, i, maxSymbols).Some?
  {
    forall i | 0 <= i < |requests| && requests[i] == key && Answer(requests, i, maxSymbols).Some?
      ensures Lookup(After(requests, maxSymbols), key).Some?
    {
      IdsNeverChange(requests, i, maxSymbols);
    }
    if requests != [] && Lookup(After(requests, maxSymbols), key).Some? {
      var last := |requests| - 1;
      var shorter := requests[..last];
      FoundIffInserted(shorter, key, maxSymbols);
      if Lookup(After(shorter, maxSymbols), key).Some? {
        var i :| 0 <= i < |shorter| && shorter[i] == key && Answer(shorter, i, maxSymbols).Some?;
        assert shorter[..i] == requests[..i];
        assert Answer(requests, i, maxSymbols).Some?;
      } else {
        assert Answer(requests, last, maxSymbols).Some?;
      }
    }
  }

  /** The ids in use are exactly 1..count, one for each key. */
  lemma IdsAreOneToCount(requests: seq<Key>, id: nat, maxSymbols: nat)
    requires 0 < maxSymbols
    ensures var keys := After(requests, maxSymbols);
      1 <= id <= |keys| <==> exists key :: Lookup(keys, key) == Some(id)
  {
    var keys := After(requests, maxSymbols);
    AfterIsWellFormed(requests, maxSymbols);
    if 1 <= id <= |keys| {
      UniqueId(keys, keys[id - 1], id);
      assert Lookup(keys, keys[id - 1]) == Some(id);
    }
  }

  /** What one call answers and leaves: a length outside 1..32 is refused, a known key keeps its id, a new one gets the next while ids remain. */
  lemma InsertIs(keys: seq<Key>, key: Key, maxSymbols: nat)
    ensures var (after, id) := Insert(keys, key, maxSymbols);
      && (id.Some? <==> key.symbol != [] && |key.symbol| <= 32 && (key in keys || |keys| < maxSymbols - 1))
      && (id.Some? ==> after == (if key in keys then keys else keys + [key]) && 1 <= id.value <= |after| && after[id.value - 1] == key)
      && (id.None? ==> after == keys)
      && (id.Some? && key !in keys ==> id == Some(|keys| + 1))
  {
  }

  /** The different keys of a run whose symbols have 1 to 32 bytes. */
  ghost function Presented(requests: seq<Key>): set<Key> {
    set key | key in requests && 1 <= |key.symbol| <= 32
  }

  lemma PresentedSnoc(requests: seq<Key>, key: Key)
    ensures Presented(requests + [key]) == Presented(requests) + (if 1 <= |key.symbol| <= 32 then {key} else {})
  {
  }

  lemma {:induction false} SizeOfDistinct(keys: seq<Key>)
    requires NoDuplicates(keys)
    ensures |set key | key in keys| == |keys|
  {
    if keys != [] {
      var shorter, last := keys[..|keys| - 1], keys[|keys| - 1];
      SizeOfDistinct(shorter);
      assert (set key | key in keys) == (set key | key in shorter) + {last};
    }
  }

  /** After a run the table holds only presented keys, and all of them unless the ids have run out. */
  lemma {:induction false} HoldsPresented(requests: seq<Key>, maxSymbols: nat)
    requires 0 < maxSymbols
    ensures forall key :: key in After(requests, maxSymbols) ==> key in Presented(requests)
    ensures |After(requests, maxSymbols)| < maxSymbols - 1 ==>
      forall key :: key in Presented(requests) ==> key in After(requests, maxSymbols)
  {
    if requests != [] {
      var shorter, last := requests[..|requests| - 1], requests[|requests| - 1];
      HoldsPresented(shorter, maxSymbols);
      assert requests == shorter + [last];
      PresentedSnoc(shorter, last);
      InsertIs(After(shorter, maxSymbols), last, maxSymbols);
    }
  }

  /** The number of ids given out is the number of different keys presented, as far as ids go. */
  lemma CountIsPresented(requests: seq<Key>, maxSymbols: nat)
    requires 0 < maxSymbols
    ensures |After(requests, maxSymbols)| == Min(|Presented(requests)|, maxSymbols - 1)
  {
    var keys := After(requests, maxSymbols);
    var held := set key | key in keys;
    AfterIsWellFormed(requests, maxSymbols);
    HoldsPresented(requests, maxSymbols);
    SizeOfDistinct(keys);
    SubsetSize(held, Presented(requests));
    if |keys| < maxSymbols - 1 {
      SubsetSize(Presented(requests), held);
    }
  }

  // ---------------------------------------------------------------- the bucket invariant

  predicate Live(e: Bucket) {
    e.id != EMPTY_BUCKET
  }

  function KeyOf(e: Bucket): Key {
    Key(e.symbolBytes[..e.len], e.venueId)
  }

  function Home(key: Key, size: nat): (h: nat)
    requires size > 0
    ensures h < size
  {
    Fnv(FNV_OFFSET_BASIS, key.symbol) % size
  }

  /**
   `slots[j]` is where key `j` is stored. Every live bucket is some key's slot, and the
   probe path from a key's home to its slot has no empty bucket.
   */
  ghost predicate Represents(t: seq<Bucket>, keys: seq<Key>, slots: seq<nat>) {
    0 < |t| && Stored(t, keys, slots) && Reachable(t, keys, slots)
  }

  ghost predicate Stored(t: seq<Bucket>, keys: seq<Key>, slots: seq<nat>) {
    && |slots| == |keys| < TOMBSTONE && NoDuplicates(keys)
    && (forall i :: 0 <= i < |t| && Live(t[i]) ==>
          && 1 <= t[i].id <= |keys| && slots[t[i].id - 1] == i && keys[t[i].id - 1] == KeyOf(t[i])
          && t[i].hash == Fnv(FNV_OFFSET_BASIS, KeyOf(t[i]).symbol))
    && (forall j :: 0 <= j < |keys| ==> slots[j] < |t| && t[slots[j]].id == j + 1)
  }

  ghost predicate Reachable(t: seq<Bucket>, keys: seq<Key>, slots: seq<nat>)
    requires 0 < |t| && Stored(t, keys, slots)
  {
    forall j, d: nat :: 0 <= j < |keys| && d < Dist(Home(keys[j], |t|), slots[j], |t|) ==>
      Live(t[At(Home(keys[j], |t|), d, |t|)])
  }

  /** Fewer keys than buckets: every probe path meets an empty bucket within one lap. */
  lemma EmptyBucketAhead(t: seq<Bucket>, keys: seq<Key>, slots: seq<nat>, home: nat) returns (d: nat)
    requires Represents(t, keys, slots) && |keys| < |t| && home < |t|
    ensures d < |t| && !Live(t[At(home, d, |t|)])
  {
    assert forall i: nat :: i < |t| && Live(t[i]) ==> slots[t[i].id - 1] in slots && slots[t[i].id - 1] == i;
    var i := SomeSlotUnnamed(slots, |t|);
    d := Dist(home, i, |t|);
  }

  /** How a probe loop ends, and at what distance from the key's home. */
  datatype Outcome = Hit(d: nat) | Vacant(d: nat) | Exhausted

  /** The probe loop from distance `d` on, with its `probe_dist > TABLE_SIZE` guard. */
  function Scan(t: seq<Bucket>, key: Key, d: nat): (r: Outcome)
    requires 0 < |t|
    decreases |t| + 1 - d
  {
    if d > |t| then Exhausted
    else
      var e := t[At(Home(key, |t|), d, |t|)];
      if !Live(e) then Vacant(d)
      else if KeyOf(e) == key then Hit(d)
      else Scan(t, key, d + 1)
  }

  /** A live bucket holding the key carries the key's id. */
  lemma MatchIsId(t: seq<Bucket>, keys: seq<Key>, slots: seq<nat>, key: Key, i: nat)
    requires Represents(t, keys, slots) && i < |t| && Live(t[i]) && KeyOf(t[i]) == key
    ensures key in keys && IdOf(keys, key) == Some(t[i].id)
  {
    assert keys[t[i].id - 1] == key;
    UniqueId(keys, key, t[i].id);
  }

  lemma ScanPasses(t: seq<Bucket>, key: Key, d: nat)
    requires 0 < |t| && d <= |t|
    requires Live(t[At(Home(key, |t|), d, |t|)]) && KeyOf(t[At(Home(key, |t|), d, |t|)]) != key
    ensures Scan(t, key, d) == Scan(t, key, d + 1)
  {
  }

  /** The first `d` buckets on the path of `key` hold other keys. */
  ghost predicate PassedOthers(t: seq<Bucket>, key: Key, d: nat)
    requires d <= |t| && 0 < |t|
  {
    forall p: nat :: p < d ==> Live(t[At(Home(key, |t|), p, |t|)]) && KeyOf(t[At(Home(key, |t|), p, |t|)]) != key
  }

  lemma PassedOneMore(t: seq<Bucket>, key: Key, d: nat)
    requires 0 < |t| && d < |t| && PassedOthers(t, key, d)
    requires Live(t[At(Home(key, |t|), d, |t|)]) && KeyOf(t[At(Home(key, |t|), d, |t|)]) != key
    ensures PassedOthers(t, key, d + 1)
  {
  }

  /** The outcome `r` of a probe is right for `keys`: the key's id, or absence and a gap to claim. */
  ghost predicate AnswersFor(t: seq<Bucket>, keys: seq<Key>, key: Key, r: Outcome)
    requires 0 < |t|
  {
    match r
    case Exhausted => false
    case Hit(at) =>
      at < |t| && key in keys && IdOf(keys, key) == Some(t[At(Home(key, |t|), at, |t|)].id)
      && Live(t[At(Home(key, |t|), at, |t|)])
    case Vacant(at) =>
      && at < |t| && key !in keys && !Live(t[At(Home(key, |t|), at, |t|)])
      && forall p: nat :: p < at ==> Live(t[At(Home(key, |t|), p, |t|)])
  }

  /** A gap on the path, with only other keys before it, shows that the key was never stored. */
  lemma GapMeansAbsent(t: seq<Bucket>, keys: seq<Key>, slots: seq<nat>, key: Key, d: nat)
    requires Represents(t, keys, slots) && d < |t|
    requires !Live(t[At(Home(key, |t|), d, |t|)])
    requires PassedOthers(t, key, d)
    ensures key !in keys
  {
    forall j | 0 <= j < |keys|
      ensures keys[j] != key
    {
      var far := Dist(Home(keys[j], |t|), slots[j], |t|);
      assert Live(t[slots[j]]) && KeyOf(t[slots[j]]) == keys[j];
      assert far <= d ==> At(Home(keys[j], |t|), far, |t|) == slots[j];
      assert far > d ==> Live(t[At(Home(keys[j], |t|), d, |t|)]);
    }
  }

  lemma GapAnswers(t: seq<Bucket>, keys: seq<Key>, slots: seq<nat>, key: Key, d: nat)
    requires Represents(t, keys, slots) && d < |t| && PassedOthers(t, key, d)
    requires !Live(t[At(Home(key, |t|), d, |t|)])
    ensures AnswersFor(t, keys, key, Vacant(d))
  {
    GapMeansAbsent(t, keys, slots, key, d);
  }

  lemma MatchAnswers(t: seq<Bucket>, keys: seq<Key>, slots: seq<nat>, key: Key, d: nat)
    requires Represents(t, keys, slots) && d < |t|
    requires Live(t[At(Home(key, |t|), d, |t|)]) && KeyOf(t[At(Home(key, |t|), d, |t|)]) == key
    ensures AnswersFor(t, keys, key, Hit(d))
  {
    MatchIsId(t, keys, slots, key, At(Home(key, |t|), d, |t|));
  }

  /**
   The scan never exhausts the table: it ends at the key's bucket if the key is present
   and otherwise at an empty bucket with only other live keys before it.
   */
  lemma ScanFinds(t: seq<Bucket>, keys: seq<Key>, slots: seq<nat>, key: Key, d: nat, free: nat)
    requires Represents(t, keys, slots) && d <= free < |t|
    requires !Live(t[At(Home(key, |t|), free, |t|)])
    requires PassedOthers(t, key, d)
    ensures AnswersFor(t, keys, key, Scan(t, key, d))
  {
    OutcomeAnswers(t, keys, slots, key, d, free, Scan(t, key, d));
  }

  lemma {:induction false} OutcomeAnswers(t: seq<Bucket>, keys: seq<Key>, slots: seq<nat>, key: Key, d: nat, free: nat,
                                          r: Outcome)
    requires Represents(t, keys, slots) && d <= free < |t|
    requires !Live(t[At(Home(key, |t|), free, |t|)])
    requires PassedOthers(t, key, d) && r == Scan(t, key, d)
    ensures AnswersFor(t, keys, key, r)
    decreases free - d
  {
    var i := At(Home(key, |t|), d, |t|);
    if !Live(t[i]) {
      GapAnswers(t, keys, slots, key, d);
    } else if KeyOf(t[i]) == key {
      MatchAnswers(t, keys, slots, key, d);
    } else {
      ScanPasses(t, key, d);
      PassedOneMore(t, key, d);
      OutcomeAnswers(t, keys, slots, key, d + 1, free, r);
    }
  }

  lemma ClaimKeepsStored(t: seq<Bucket>, keys: seq<Key>, slots: seq<nat>, key: Key, i: nat, e: Bucket)
    requires Stored(t, keys, slots) && key !in keys && |keys| + 1 < TOMBSTONE
    requires i < |t| && !Live(t[i]) && e.id == |keys| + 1 && KeyOf(e) == key
    requires e.hash == Fnv(FNV_OFFSET_BASIS, key.symbol)
    ensures Stored(t[i := e], keys + [key], slots + [i])
  {
    assert forall j :: 0 <= j < |keys| ==> slots[j] != i;
  }

  /** Claiming the first empty bucket on the path keeps the representation. */
  lemma ClaimKeepsRepresentation(t: seq<Bucket>, keys: seq<Key>, slots: seq<nat>, key: Key, d: nat, e: Bucket)
    requires Represents(t, keys, slots) && key !in keys && |keys| + 1 < TOMBSTONE
    requires d < |t| && !Live(t[At(Home(key, |t|), d, |t|)])
    requires forall p: nat :: p < d ==> Live(t[At(Home(key, |t|), p, |t|)])
    requires e.id == |keys| + 1 && KeyOf(e) == key
    requires e.hash == Fnv(FNV_OFFSET_BASIS, key.symbol)
    ensures Represents(t[At(Home(key, |t|), d, |t|) := e], keys + [key], slots + [At(Home(key, |t|), d, |t|)])
  {
    var size, home := |t|, Home(key, |t|);
    var i := At(home, d, size);
    var t', keys', slots' := t[i := e], keys + [key], slots + [i];
    ClaimKeepsStored(t, keys, slots, key, i, e);
    forall j, p: nat | 0 <= j < |keys'| && p < Dist(Home(keys'[j], size), slots'[j], size)
      ensures Live(t'[At(Home(keys'[j], size), p, size)])
    {
    }
  }

  // ---------------------------------------------------------------- the table in place

  class Mapper {
    const tableBits: nat
    const maxSymbols: nat
    const buckets: array<Bucket>
    var count: nat
    var nextId: nat
    ghost var keys: seq<Key>
    ghost var slots: seq<nat>

    ghost predicate Valid()
      reads this, buckets
    {
      && buckets.Length == Pow2(tableBits)
      && 0 < maxSymbols <= buckets.Length && maxSymbols < TOMBSTONE
      && Represents(buckets[..], keys, slots)
      && count == |keys| < maxSymbols && nextId == |keys| + 1
    }

    constructor (tableBits: nat, maxSymbols: nat)
      requires 0 < maxSymbols <= Pow2(tableBits) && maxSymbols < TOMBSTONE
      ensures Valid() && fresh(buckets) && keys == []
      ensures this.tableBits == tableBits && this.maxSymbols == maxSymbols
    {
      this.tableBits, this.maxSymbols := tableBits, maxSymbols;
      buckets := new Bucket[Pow2(tableBits)](_ => EMPTY_ENTRY);
      count, nextId := 0, 1;
      keys, slots := [], [];
    }

    lemma HomeIsMasked(key: Key)
      requires Valid()
      ensures And(Fnv(FNV_OFFSET_BASIS, key.symbol), buckets.Length - 1) == Home(key, buckets.Length)
    {
      MaskIsMod(Fnv(FNV_OFFSET_BASIS, key.symbol), tableBits);
    }

    /** The table is never full, so the probe for `key` ends at its bucket or at a gap. */
    lemma ProbeFinds(key: Key)
      requires Valid()
      ensures var t := buckets[..];
        match Scan(t, key, 0)
        case Exhausted => false
        case Hit(at) =>
          && at < |t| && IdOf(keys, key) == Some(t[At(Home(key, |t|), at, |t|)].id)
        case Vacant(at) =>
          && at < |t| && key !in keys && !Live(t[At(Home(key, |t|), at, |t|)])
          && forall p: nat :: p < at ==> Live(t[At(Home(key, |t|), p, |t|)])
    {
      var free := EmptyBucketAhead(buckets[..], keys, slots, Home(key, buckets.Length));
      ScanFinds(buckets[..], keys, slots, key, 0, free);
    }

    /** The live bucket at `idx` is compared by hash, bytes and venue, in that order. */
    method Matches(idx: nat, hash: nat, symbol: seq<byte>, venueId: nat, avx2: bool) returns (same: bool)
      requires Valid() && idx < buckets.Length && Live(buckets[idx])
      requires hash == Fnv(FNV_OFFSET_BASIS, symbol)
      ensures same <==> KeyOf(buckets[idx]) == Key(symbol, venueId)
    {
      same := false;
      var bucket := buckets[idx];
      assert bucket == buckets[..][idx];
      if bucket.id != TOMBSTONE && bucket.hash == hash {
        var equal := StringsEqual(symbol, bucket.symbolBytes[..bucket.len], avx2);
        same := equal && bucket.venueId == venueId;
      }
    }

    /** The empty-bucket branch: take the next id, or give it back when ids have run out. */
    method Claim(idx: nat, hash: nat, symbol: seq<byte>, venueId: nat, ghost d: nat) returns (result: Option<nat>)
      requires Valid() && Acceptable(symbol) && hash == Fnv(FNV_OFFSET_BASIS, symbol)
      requires Scan(buckets[..], Key(symbol, venueId), 0) == Vacant(d)
      requires d <= buckets.Length && idx == At(Home(Key(symbol, venueId), buckets.Length), d, buckets.Length)
      modifies this`count, this`nextId, this`keys, this`slots, buckets
      ensures Valid()
      ensures (keys, result) == Insert(old(keys), Key(symbol, venueId), maxSymbols)
    {
      ghost var key := Key(symbol, venueId);
      ghost var t := buckets[..];
      ProbeFinds(key);
      var newId := nextId;
      nextId := nextId + 1;
      if newId >= maxSymbols {
        nextId := nextId - 1;
        return None;
      }
      var bytes := symbol + buckets[idx].symbolBytes[|symbol|..];
      assert bytes[..|symbol|] == symbol;
      var entry := Entry(newId, hash, bytes, |symbol|, venueId);
      ClaimKeepsRepresentation(t, keys, slots, key, d, entry);
      StoreBucket(idx, entry);
      count := count + 1;
      keys, slots := keys + [key], slots + [idx];
      result := Some(newId);
    }

    method StoreBucket(idx: nat, entry: Bucket)
      requires idx < buckets.Length
      modifies buckets
      ensures buckets[..] == old(buckets[..])[idx := entry]
    {
      buckets[idx] := entry;
    }

    /** The masked increment moves one place along the path. */
    lemma PassOn(home: nat, d: nat)
      requires Valid() && home < buckets.Length && d <= buckets.Length
      ensures d < buckets.Length ==>
        And(At(home, d, buckets.Length) + 1, buckets.Length - 1) == At(home, d + 1, buckets.Length)
    {
      if d < buckets.Length {
        NextOnPath(tableBits, home, d);
      }
    }

    /** The probe loop that insertion and lookup share. */
    method Probe(symbol: seq<byte>, venueId: nat, hash: nat, avx2: bool) returns (outcome: Outcome, idx: nat)
      requires Valid() && hash == Fnv(FNV_OFFSET_BASIS, symbol)
      ensures outcome == Scan(buckets[..], Key(symbol, venueId), 0)
      ensures !outcome.Exhausted? ==>
        outcome.d <= buckets.Length && idx == At(Home(Key(symbol, venueId), buckets.Length), outcome.d, buckets.Length)
    {
      var size := buckets.Length;
      ghost var key, t := Key(symbol, venueId), buckets[..];
      var probeDist := 0;
      idx := And(hash, size - 1);
      HomeIsMasked(key);
      ghost var home := Home(key, |t|);
      while true
        invariant probeDist <= size && idx == At(home, probeDist, size)
        invariant Scan(t, key, 0) == Scan(t, key, probeDist)
        decreases size - probeDist
      {
        assert buckets[idx] == t[At(Home(key, |t|), probeDist, |t|)];
        if buckets[idx].id == EMPTY_BUCKET {
          return Vacant(probeDist), idx;
        }
        var same := Matches(idx, hash, symbol, venueId, avx2);
        if same {
          return Hit(probeDist), idx;
        }
        PassOn(home, probeDist);
        ScanPasses(t, key, probeDist);
        probeDist := probeDist + 1;
        idx := And(idx + 1, size - 1);
        if probeDist > size {
          return Exhausted, idx;
        }
      }
    }

    method GetOrInsert(symbol: seq<byte>, venueId: nat, avx2: bool) returns (result: Option<nat>)
      requires Valid()
      modifies this`count, this`nextId, this`keys, this`slots, buckets
      ensures Valid()
      ensures (keys, result) == Insert(old(keys), Key(symbol, venueId), maxSymbols)
    {
      if |symbol| == 0 || |symbol| > 32 {
        return None;
      }
      var hash := ComputeHash(symbol);
      var outcome, idx := Probe(symbol, venueId, hash, avx2);
      ProbeFinds(Key(symbol, venueId));
      match outcome
      case Vacant(d) => result := Claim(idx, hash, symbol, venueId, d);
      case Hit(_) => result := Some(buckets[idx].id);
      case Exhausted => result := None;
    }

    method Find(symbol: seq<byte>, venueId: nat, avx2: bool) returns (result: Option<nat>)
      requires Valid()
      ensures result == Lookup(keys, Key(symbol, venueId))
    {
      if |symbol| == 0 || |symbol| > 32 {
        return None;
      }
      var hash := ComputeHash(symbol);
      var outcome, idx := Probe(symbol, venueId, hash, avx2);
      ProbeFinds(Key(symbol, venueId));
      match outcome
      case Vacant(_) => result := None;
      case Hit(_) => result := Some(buckets[idx].id);
      case Exhausted => result := None;
    }
  }
}
