/**
 Duplicate detection for client order keys: a bounded linear probe over a table that
 stores only the low word of each key and is updated in place.
 */
module IdempotencyKey {
  import opened Machine
  import opened BitOps
  import opened Probing

  const PROBE_LIMIT: nat := 16
  const HASH_MULTIPLIER: nat := 0x9e37_79b9_7f4a_7c15

  datatype OrderKey = OrderKey(high: nat, low: nat)

  datatype KeyEntry = KeyEntry(key: nat, timestamp: nat, strategyId: nat, used: nat)

  const EMPTY_SLOT := KeyEntry(0, 0, 0, 0)

  function HashKey(key: OrderKey): nat {
    (Xor(key.high, key.low) * HASH_MULTIPLIER) % U64
  }

  function Home(key: OrderKey, size: nat): (h: nat)
    requires size > 0
    ensures h < size
  {
    HashKey(key) % size
  }

  /** The hash multiplies the exclusive or of the two words, in a word: both words count alike, and equal ones cancel. */
  lemma HashOfWords(high: nat, low: nat)
    ensures HashKey(OrderKey(high, 0)) == HashKey(OrderKey(0, high)) == (high * 0x9e37_79b9_7f4a_7c15) % 0x1_0000_0000_0000_0000
    ensures HashKey(OrderKey(high, high)) == 0
    ensures HashKey(OrderKey(high, low)) == HashKey(OrderKey(Xor(high, low), 0))
  {
    XorSelf(high);
  }

  /** How the bounded probe ends. */
  datatype Outcome = Found(i: nat) | Free(i: nat) | Full

  function Scan(t: seq<KeyEntry>, home: nat, low: nat, i: nat): (r: Outcome)
    requires PROBE_LIMIT <= |t| && home < |t|
    ensures !r.Full? ==> r.i < PROBE_LIMIT
    decreases PROBE_LIMIT - i
  {
    if i >= PROBE_LIMIT then Full
    else
      var stored := t[At(home, i, |t|)].key;
      if stored == 0 then Free(i)
      else if stored == low then Found(i)
      else Scan(t, home, low, i + 1)
  }

  /** `check_and_mark_used`: the new table and the answer "already used". */
  function Check(t: seq<KeyEntry>, key: OrderKey, strategyId: nat, now: nat): (r: (seq<KeyEntry>, bool))
    requires PROBE_LIMIT <= |t|
    ensures |r.0| == |t|
  {
    match Scan(t, Home(key, |t|), key.low, 0)
    case Free(i) => (t[At(Home(key, |t|), i, |t|) := KeyEntry(key.low, now, strategyId, 1)], false)
    case Found(i) =>
      var at := At(Home(key, |t|), i, |t|);
      if t[at].used != 0 then (t, true) else (t[at := t[at].(used := 1)], false)
    case Full => (t, false)
  }

  class KeyTable {
    const entries: array<KeyEntry>

    constructor (size: nat)
      requires PROBE_LIMIT <= size
      ensures fresh(entries) && entries[..] == seq(size, _ => EMPTY_SLOT)
    {
      entries := new KeyEntry[size](_ => EMPTY_SLOT);
    }

    method CheckAndMarkUsed(key: OrderKey, strategyId: nat, now: nat) returns (duplicate: bool)
      requires PROBE_LIMIT <= entries.Length
      modifies entries
      ensures (entries[..], duplicate) == Check(old(entries[..]), key, strategyId, now)
    {
      ghost var t := entries[..];
      var size := entries.Length;
      var bucket := Home(key, size);
      for i := 0 to PROBE_LIMIT
        invariant entries[..] == t && Scan(t, bucket, key.low, 0) == Scan(t, bucket, key.low, i)
      {
        ModIsAt(bucket, i, size);
        var idx := (bucket + i) % size;
        var entry := entries[idx];
        assert entry == t[idx];
        if entry.key == 0 {
          Mark(idx, KeyEntry(key.low, now, strategyId, 1));
          return false;
        } else if entry.key == key.low {
          if entry.used != 0 {
            return true;
          }
          Mark(idx, entry.(used := 1));
          return false;
        }
      }
      duplicate := false;
    }

    method Mark(idx: nat, entry: KeyEntry)
      requires idx < entries.Length
      modifies entries
      ensures entries[..] == old(entries[..])[idx := entry]
    {
      entries[idx] := entry;
    }

    method CountTrackedKeys() returns (count: nat)
      ensures count == CountUsed(entries[..])
    {
      count := 0;
      for i := 0 to entries.Length
        invariant count == CountUsed(entries[..i])
      {
        assert entries[..i + 1][..i] == entries[..i];
        if entries[i].used != 0 {
          count := count + 1;
        }
      }
      assert entries[..entries.Length] == entries[..];
    }
  }

  // ---------------------------------------------------------------- one check

  function CountUsed(t: seq<KeyEntry>): nat {
    if t == [] then 0
    else CountUsed(t[..|t| - 1]) + (if t[|t| - 1].used != 0 then 1 else 0)
  }

  /** Every stored low word is marked used. */
  ghost predicate UsedWhenStored(t: seq<KeyEntry>) {
    forall i :: 0 <= i < |t| && t[i].key != 0 ==> t[i].used != 0
  }

  /** Stored words are never overwritten. */
  ghost predicate Keeps(t: seq<KeyEntry>, u: seq<KeyEntry>) {
    |t| == |u| && forall j :: 0 <= j < |t| && t[j].key != 0 ==> u[j].key == t[j].key
  }

  /** A scan sees only stored words, so it ends alike in any table that keeps them. */
  lemma {:induction false} ScanStable(t: seq<KeyEntry>, u: seq<KeyEntry>, home: nat, low: nat, i: nat)
    requires PROBE_LIMIT <= |t| && home < |t| && Keeps(t, u)
    requires !Scan(t, home, low, i).Free?
    ensures Scan(u, home, low, i) == Scan(t, home, low, i)
    decreases PROBE_LIMIT - i
  {
    if i < PROBE_LIMIT {
      var stored := t[At(home, i, |t|)].key;
      assert u[At(home, i, |t|)].key == stored;
      if stored != low {
        ScanStable(t, u, home, low, i + 1);
      }
    }
  }

  /** Once a low word fills the gap that ended a scan for it, the scan finds it there. */
  lemma {:induction false} ScanStopsAtClaim(t: seq<KeyEntry>, u: seq<KeyEntry>, home: nat, low: nat, i: nat, at: nat)
    requires PROBE_LIMIT <= |t| && home < |t| && low != 0 && at < PROBE_LIMIT && Keeps(t, u)
    requires Scan(t, home, low, i) == Free(at) && u[At(home, at, |t|)].key == low
    ensures Scan(u, home, low, i) == Found(at)
    decreases PROBE_LIMIT - i
  {
    var stored := t[At(home, i, |t|)].key;
    if stored != 0 {
      assert u[At(home, i, |t|)].key == stored;
      ScanStopsAtClaim(t, u, home, low, i + 1, at);
    }
  }

  lemma {:induction false} ScanMatchesLow(t: seq<KeyEntry>, home: nat, low: nat, i: nat)
    requires PROBE_LIMIT <= |t| && home < |t|
    ensures var r := Scan(t, home, low, i);
      && (r.Found? ==> low != 0 && t[At(home, r.i, |t|)].key == low)
      && (r.Free? ==> t[At(home, r.i, |t|)].key == 0)
    decreases PROBE_LIMIT - i
  {
    if i < PROBE_LIMIT {
      ScanMatchesLow(t, home, low, i + 1);
    }
  }

  /** The window of `key` holds its low word / holds only other low words. */
  predicate Recorded(t: seq<KeyEntry>, key: OrderKey)
    requires PROBE_LIMIT <= |t|
  {
    Scan(t, Home(key, |t|), key.low, 0).Found?
  }

  predicate Crowded(t: seq<KeyEntry>, key: OrderKey)
    requires PROBE_LIMIT <= |t|
  {
    Scan(t, Home(key, |t|), key.low, 0).Full?
  }

  /**
   One check keeps every stored word, answers "duplicate" exactly for recorded keys, and
   leaves its key recorded unless the window was crowded.
   */
  lemma CheckRecords(t: seq<KeyEntry>, key: OrderKey, strategyId: nat, now: nat)
    requires PROBE_LIMIT <= |t| && UsedWhenStored(t)
    ensures var (u, duplicate) := Check(t, key, strategyId, now);
      && UsedWhenStored(u) && Keeps(t, u)
      && (duplicate <==> Recorded(t, key))
      && (key.low == 0 ==> !duplicate)
      && (key.low != 0 ==> if Crowded(t, key) then Crowded(u, key) else Recorded(u, key))
  {
    var home := Home(key, |t|);
    ScanMatchesLow(t, home, key.low, 0);
    var (u, duplicate) := Check(t, key, strategyId, now);
    match Scan(t, home, key.low, 0)
    case Free(i) =>
      if key.low != 0 {
        ScanStopsAtClaim(t, u, home, key.low, 0, i);
      }
    case _ => ScanStable(t, u, home, key.low, 0);
  }

  /** A stored key whose used mark is not set yet counts as new and gets the mark. */
  lemma UnmarkedIsFirstUse(t: seq<KeyEntry>, key: OrderKey, strategyId: nat, now: nat)
    requires PROBE_LIMIT <= |t| && Recorded(t, key)
    ensures var at := At(Home(key, |t|), Scan(t, Home(key, |t|), key.low, 0).i, |t|);
      var (u, duplicate) := Check(t, key, strategyId, now);
      && t[at].key == key.low && u[at].used != 0
      && (duplicate <==> t[at].used != 0) && (duplicate ==> u == t) && (!duplicate ==> u == t[at := t[at].(used := 1)])
  {
    ScanMatchesLow(t, Home(key, |t|), key.low, 0);
  }

  /** A first use stores the low word, the time, the strategy and the mark in one free slot. */
  lemma FirstUseStores(t: seq<KeyEntry>, key: OrderKey, strategyId: nat, now: nat)
    requires PROBE_LIMIT <= |t| && !Recorded(t, key) && !Crowded(t, key)
    ensures var at := At(Home(key, |t|), Scan(t, Home(key, |t|), key.low, 0).i, |t|);
      var (u, duplicate) := Check(t, key, strategyId, now);
      && !duplicate && t[at].key == 0 && u == t[at := u[at]]
      && u[at].key == key.low && u[at].timestamp == now && u[at].strategyId == strategyId && u[at].used == 1
  {
    ScanMatchesLow(t, Home(key, |t|), key.low, 0);
  }

  // ---------------------------------------------------------------- whole runs

  datatype Request = Request(key: OrderKey, strategyId: nat, now: nat)

  /** The table after a run of checks on an empty table of `size` slots. */
  function After(requests: seq<Request>, size: nat): (t: seq<KeyEntry>)
    requires PROBE_LIMIT <= size
    ensures |t| == size
  {
    if requests == [] then seq(size, _ => EMPTY_SLOT)
    else
      var r := requests[|requests| - 1];
      Check(After(requests[..|requests| - 1], size), r.key, r.strategyId, r.now).0
  }

  /** What check number `i` of the run answered. */
  function Answer(requests: seq<Request>, i: nat, size: nat): bool
    requires PROBE_LIMIT <= size && i < |requests|
  {
    Check(After(requests[..i], size), requests[i].key, requests[i].strategyId, requests[i].now).1
  }

  lemma {:induction false} AfterUsed(requests: seq<Request>, size: nat)
    requires PROBE_LIMIT <= size
    ensures UsedWhenStored(After(requests, size))
  {
    if requests != [] {
      var shorter, r := requests[..|requests| - 1], requests[|requests| - 1];
      AfterUsed(shorter, size);
      CheckRecords(After(shorter, size), r.key, r.strategyId, r.now);
    }
  }

  lemma {:induction false} AfterKeeps(requests: seq<Request>, i: nat, size: nat)
    requires PROBE_LIMIT <= size && i <= |requests|
    ensures Keeps(After(requests[..i], size), After(requests, size))
  {
    if i == |requests| {
      assert requests[..i] == requests;
    } else {
      var shorter, r := requests[..|requests| - 1], requests[|requests| - 1];
      assert shorter[..i] == requests[..i];
      AfterKeeps(shorter, i, size);
      AfterUsed(shorter, size);
      CheckRecords(After(shorter, size), r.key, r.strategyId, r.now);
    }
  }

  /**
   A key presented again is reported as a duplicate exactly when its window had room for
   it (or already held it) the first time: an earlier check that found the window crowded
   is forgotten, and so is every later one.
   */
  lemma DuplicateCaughtIff(requests: seq<Request>, i: nat, j: nat, size: nat)
    requires PROBE_LIMIT <= size && i < j < |requests|
    requires requests[i].key == requests[j].key && requests[i].key.low != 0
    ensures Answer(requests, j, size) <==> !Crowded(After(requests[..i], size), requests[i].key)
  {
    var key := requests[i].key;
    var before, after, later := After(requests[..i], size), After(requests[..i + 1], size), After(requests[..j], size);
    AfterUsed(requests[..i], size);
    AfterUsed(requests[..j], size);
    CheckRecords(before, key, requests[i].strategyId, requests[i].now);
    assert requests[..i + 1][..i] == requests[..i];
    assert requests[..j][..i + 1] == requests[..i + 1];
    AfterKeeps(requests[..j], i + 1, size);
    ScanStable(after, later, Home(key, size), key.low, 0);
    CheckRecords(later, key, requests[j].strategyId, requests[j].now);
  }

  lemma {:induction false} StoredWasPresented(requests: seq<Request>, size: nat, s: nat) returns (i: nat)
    requires PROBE_LIMIT <= size && s < size && After(requests, size)[s].key != 0
    ensures i < |requests| && requests[i].key.low == After(requests, size)[s].key
  {
    assert requests != [];
    var last := |requests| - 1;
    var shorter := requests[..last];
    if After(shorter, size)[s].key == After(requests, size)[s].key {
      i := StoredWasPresented(shorter, size, s);
    } else {
      i := last;
    }
  }

  /** A duplicate is reported only if the same low word was presented before. */
  lemma DuplicateWasPresented(requests: seq<Request>, j: nat, size: nat)
    requires PROBE_LIMIT <= size && j < |requests| && Answer(requests, j, size)
    ensures exists i :: 0 <= i < j && requests[i].key.low == requests[j].key.low
  {
    var t, key := After(requests[..j], size), requests[j].key;
    ScanMatchesLow(t, Home(key, size), key.low, 0);
    var i := StoredWasPresented(requests[..j], size, At(Home(key, size), Scan(t, Home(key, size), key.low, 0).i, size));
    assert requests[..j][i] == requests[i];
  }

  /** A key whose low word is 0 is never reported, however often it is presented. */
  lemma ZeroLowNeverCaught(requests: seq<Request>, j: nat, size: nat)
    requires PROBE_LIMIT <= size && j < |requests| && requests[j].key.low == 0
    ensures !Answer(requests, j, size)
  {
    AfterUsed(requests[..j], size);
    CheckRecords(After(requests[..j], size), requests[j].key, requests[j].strategyId, requests[j].now);
  }

  // ---------------------------------------------------------------- a crowded window

  /** Keys whose two words are equal all have their home in slot 0. */
  function Twin(n: nat): Request {
    Request(OrderKey(n, n), 0, 0)
  }

  function Twins(n: nat): (r: seq<Request>)
    ensures |r| == n
  {
    if n == 0 then [] else Twins(n - 1) + [Twin(n)]
  }

  lemma TwinHome(n: nat, size: nat)
    requires size > 0
    ensures Home(OrderKey(n, n), size) == 0
  {
    XorSelf(n);
    DivUnique(0, size, 0, 0);
  }

  lemma {:induction false} ScanSkips(t: seq<KeyEntry>, low: nat, i: nat, n: nat)
    requires PROBE_LIMIT <= |t| && i <= n <= PROBE_LIMIT
    requires forall j :: i <= j < n ==> t[j].key != 0 && t[j].key != low
    ensures Scan(t, 0, low, i) == Scan(t, 0, low, n)
    decreases n - i
  {
    if i < n {
      ScanSkips(t, low, i + 1, n);
    }
  }

  /** The first `n` slots hold the words 1 to `n`, the rest are empty. */
  ghost predicate FilledTo(t: seq<KeyEntry>, n: nat) {
    && (forall j :: 0 <= j < |t| && j < n ==> t[j].key == j + 1)
    && (forall j :: 0 <= j < |t| && n <= j ==> t[j].key == 0)
  }

  lemma CheckFills(t: seq<KeyEntry>, n: nat)
    requires n < PROBE_LIMIT <= |t| && FilledTo(t, n)
    ensures FilledTo(Check(t, Twin(n + 1).key, 0, 0).0, n + 1)
  {
    TwinHome(n + 1, |t|);
    ScanSkips(t, n + 1, 0, n);
  }

  lemma TwinsSnoc(n: nat, size: nat)
    requires 0 < n && PROBE_LIMIT <= size
    ensures After(Twins(n), size) == Check(After(Twins(n - 1), size), Twin(n).key, 0, 0).0
  {
    assert Twins(n)[..n - 1] == Twins(n - 1);
  }

  /** The first sixteen of them fill the window in order. */
  lemma {:induction false} TwinsFill(n: nat, size: nat)
    requires n <= PROBE_LIMIT <= size
    ensures FilledTo(After(Twins(n), size), n)
  {
    if n > 0 {
      TwinsFill(n - 1, size);
      TwinsSnoc(n, size);
      CheckFills(After(Twins(n - 1), size), n - 1);
    }
  }

  lemma FullOfTwins(t: seq<KeyEntry>)
    requires PROBE_LIMIT <= |t| && FilledTo(t, PROBE_LIMIT)
    ensures Crowded(t, Twin(17).key)
  {
    TwinHome(17, |t|);
    ScanSkips(t, 17, 0, PROBE_LIMIT);
  }

  /** For every table size there is a run in which a key presented twice is not reported. */
  lemma CrowdedWindowForgets(size: nat) returns (requests: seq<Request>)
    requires PROBE_LIMIT <= size
    ensures |requests| == 18 && requests[16].key == requests[17].key == OrderKey(17, 17)
    ensures !Answer(requests, 17, size)
  {
    requests := Twins(16) + [Twin(17), Twin(17)];
    assert requests[..16] == Twins(16);
    TwinsFill(16, size);
    FullOfTwins(After(Twins(16), size));
    DuplicateCaughtIff(requests, 16, 17, size);
  }

  // ---------------------------------------------------------------- how many keys are safe

  /** The distinct keys of a run that can be recorded at all. */
  ghost function TrackableKeys(requests: seq<Request>): set<OrderKey> {
    set r | r in requests && r.key.low != 0 :: r.key
  }

  ghost function RecordedKeys(requests: seq<Request>, t: seq<KeyEntry>): set<OrderKey>
    requires PROBE_LIMIT <= |t|
  {
    set k | k in TrackableKeys(requests) && Recorded(t, k)
  }

  ghost function StoredSlots(t: seq<KeyEntry>): set<nat> {
    set s: nat | s < |t| && t[s].key != 0
  }

  lemma RecordedStays(t: seq<KeyEntry>, u: seq<KeyEntry>, k: OrderKey)
    requires PROBE_LIMIT <= |t| && Keeps(t, u) && Recorded(t, k)
    ensures Recorded(u, k)
  {
    ScanStable(t, u, Home(k, |t|), k.low, 0);
  }

  /** Only a check that records a new key stores a word in a new slot. */
  lemma CheckStores(t: seq<KeyEntry>, r: Request)
    requires PROBE_LIMIT <= |t| && UsedWhenStored(t)
    ensures var u := Check(t, r.key, r.strategyId, r.now).0;
      StoredSlots(u) == StoredSlots(t)
      || (r.key.low != 0 && !Recorded(t, r.key) && Recorded(u, r.key)
          && exists s :: s !in StoredSlots(t) && StoredSlots(u) == StoredSlots(t) + {s})
  {
    var home, u := Home(r.key, |t|), Check(t, r.key, r.strategyId, r.now).0;
    CheckRecords(t, r.key, r.strategyId, r.now);
    ScanMatchesLow(t, home, r.key.low, 0);
    match Scan(t, home, r.key.low, 0)
    case Free(i) =>
      if r.key.low != 0 {
        assert StoredSlots(u) == StoredSlots(t) + {At(home, i, |t|)};
      } else {
        assert StoredSlots(u) == StoredSlots(t);
      }
    case _ => assert StoredSlots(u) == StoredSlots(t);
  }

  /** One check keeps: no more slots are filled than keys are recorded. */
  lemma StoredStep(requests: seq<Request>, t: seq<KeyEntry>, r: Request)
    requires PROBE_LIMIT <= |t| && UsedWhenStored(t) && |StoredSlots(t)| <= |RecordedKeys(requests, t)|
    ensures var u := Check(t, r.key, r.strategyId, r.now).0;
      |StoredSlots(u)| <= |RecordedKeys(requests + [r], u)|
  {
    var u := Check(t, r.key, r.strategyId, r.now).0;
    var before, after := RecordedKeys(requests, t), RecordedKeys(requests + [r], u);
    CheckRecords(t, r.key, r.strategyId, r.now);
    CheckStores(t, r);
    forall k | k in before ensures k in after {
      RecordedStays(t, u, k);
    }
    if StoredSlots(u) == StoredSlots(t) {
      SubsetSize(before, after);
    } else {
      assert r in requests + [r] && r.key !in before;
      SubsetSize(before + {r.key}, after);
    }
  }

  /** No run fills more slots than it has recorded keys. */
  lemma {:induction false} StoredAtMostRecorded(requests: seq<Request>, size: nat)
    requires PROBE_LIMIT <= size
    ensures |StoredSlots(After(requests, size))| <= |RecordedKeys(requests, After(requests, size))|
  {
    if requests == [] {
      assert StoredSlots(After(requests, size)) == {};
    } else {
      var shorter, r := requests[..|requests| - 1], requests[|requests| - 1];
      StoredAtMostRecorded(shorter, size);
      AfterUsed(shorter, size);
      StoredStep(shorter, After(shorter, size), r);
      assert requests == shorter + [r];
    }
  }

  lemma {:induction false} FullMeansStored(t: seq<KeyEntry>, home: nat, low: nat, i: nat, d: nat)
    requires PROBE_LIMIT <= |t| && home < |t| && Scan(t, home, low, i).Full? && i <= d < PROBE_LIMIT
    ensures t[At(home, d, |t|)].key != 0
    decreases d - i
  {
    if i < d {
      FullMeansStored(t, home, low, i + 1, d);
    }
  }

  /** The first `n` slots of a probe path are different slots. */
  ghost function PathSlots(home: nat, n: nat, size: nat): (s: set<nat>)
    requires home < size && n <= size
    ensures |s| == n && forall i :: i in s ==> i < size && Dist(home, i, size) < n
  {
    if n == 0 then {} else PathSlots(home, n - 1, size) + {At(home, n - 1, size)}
  }

  /** A crowded window takes sixteen recorded keys besides the one that finds no room. */
  lemma CrowdedNeedsSeventeen(requests: seq<Request>, i: nat, size: nat)
    requires PROBE_LIMIT <= size && i < |requests| && requests[i].key.low != 0
    requires Crowded(After(requests[..i], size), requests[i].key)
    ensures |TrackableKeys(requests)| > PROBE_LIMIT
  {
    var key, t := requests[i].key, After(requests[..i], size);
    var home := Home(key, size);
    var window, recorded := PathSlots(home, PROBE_LIMIT, size), RecordedKeys(requests[..i], t);
    forall s | s in window ensures s in StoredSlots(t) {
      FullMeansStored(t, home, key.low, 0, Dist(home, s, size));
    }
    SubsetSize(window, StoredSlots(t));
    StoredAtMostRecorded(requests[..i], size);
    assert requests[i] in requests && key !in recorded;
    SubsetSize(recorded + {key}, TrackableKeys(requests));
  }

  /** Every repeat of a key with non-zero low word is reported. */
  ghost predicate NothingMissed(requests: seq<Request>, size: nat)
    requires PROBE_LIMIT <= size
  {
    forall i: nat, j: nat :: i < j < |requests| && requests[i].key == requests[j].key && requests[i].key.low != 0
      ==> Answer(requests, j, size)
  }

  ghost predicate SafeFor(distinct: nat, size: nat)
    requires PROBE_LIMIT <= size
  {
    forall requests: seq<Request> :: |TrackableKeys(requests)| <= distinct ==> NothingMissed(requests, size)
  }

  lemma {:induction false} TrackableAtMost(requests: seq<Request>)
    ensures |TrackableKeys(requests)| <= |requests|
  {
    if requests != [] {
      var shorter, r := requests[..|requests| - 1], requests[|requests| - 1];
      TrackableAtMost(shorter);
      SubsetSize(TrackableKeys(requests), TrackableKeys(shorter) + {r.key});
    }
  }

  lemma SeventeenKeysMissOne(size: nat) returns (requests: seq<Request>)
    requires PROBE_LIMIT <= size
    ensures |TrackableKeys(requests)| <= 17 && !NothingMissed(requests, size)
  {
    requests := CrowdedWindowForgets(size);
    TrackableAtMost(requests[..17]);
    assert requests[16] in requests[..17];
    assert TrackableKeys(requests) == TrackableKeys(requests[..17]);
  }

  /**
   Whatever the table size, runs with at most `distinct` different keys of non-zero low word
   never miss a repeat if and only if `distinct` is at most the probe limit of 16.
   */
  lemma SafeForIff(distinct: nat, size: nat)
    requires PROBE_LIMIT <= size
    ensures SafeFor(distinct, size) <==> distinct <= PROBE_LIMIT
  {
    if distinct <= PROBE_LIMIT {
      forall requests: seq<Request> | |TrackableKeys(requests)| <= distinct ensures NothingMissed(requests, size) {
        NeverMissed(requests, size);
      }
    } else {
      var requests := SeventeenKeysMissOne(size);
    }
  }

  lemma NeverMissed(requests: seq<Request>, size: nat)
    requires PROBE_LIMIT <= size && |TrackableKeys(requests)| <= PROBE_LIMIT
    ensures NothingMissed(requests, size)
  {
    forall i: nat, j: nat | i < j < |requests| && requests[i].key == requests[j].key && requests[i].key.low != 0
      ensures Answer(requests, j, size)
    {
      if Crowded(After(requests[..i], size), requests[i].key) {
        CrowdedNeedsSeventeen(requests, i, size);
      }
      DuplicateCaughtIff(requests, i, j, size);
    }
  }

  // ---------------------------------------------------------------- bookkeeping

  /** How many checks of the run answered "first use". */
  function FirstUses(requests: seq<Request>, size: nat): nat
    requires PROBE_LIMIT <= size
  {
    if requests == [] then 0
    else
      var n := |requests| - 1;
      FirstUses(requests[..n], size) + (if Answer(requests, n, size) then 0 else 1)
  }

  /** How many checks of the run met a crowded window. */
  function Forgotten(requests: seq<Request>, size: nat): nat
    requires PROBE_LIMIT <= size
  {
    if requests == [] then 0
    else
      var n := |requests| - 1;
      Forgotten(requests[..n], size) + (if Crowded(After(requests[..n], size), requests[n].key) then 1 else 0)
  }

  lemma {:induction false} CountUpdate(t: seq<KeyEntry>, at: nat, e: KeyEntry)
    requires at < |t| && t[at].used == 0 && e.used != 0
    ensures CountUsed(t[at := e]) == CountUsed(t) + 1
  {
    var n := |t| - 1;
    if at < n {
      assert t[at := e][..n] == t[..n][at := e];
      CountUpdate(t[..n], at, e);
    } else {
      assert t[at := e][..n] == t[..n];
    }
  }

  lemma {:induction false} CountEmpty(size: nat)
    ensures CountUsed(seq(size, _ => EMPTY_SLOT)) == 0
  {
    if size > 0 {
      assert seq(size, _ => EMPTY_SLOT)[..size - 1] == seq(size - 1, _ => EMPTY_SLOT);
      CountEmpty(size - 1);
    }
  }

  ghost predicate UsedIffStored(t: seq<KeyEntry>) {
    forall s :: 0 <= s < |t| ==> (t[s].used != 0 <==> t[s].key != 0)
  }

  /** One check tracks one more key exactly when it answers "first use" and the window was not crowded. */
  lemma CheckCounts(t: seq<KeyEntry>, r: Request)
    requires PROBE_LIMIT <= |t| && UsedIffStored(t) && r.key.low != 0
    ensures var (u, duplicate) := Check(t, r.key, r.strategyId, r.now);
      && UsedIffStored(u)
      && CountUsed(u) + (if Crowded(t, r.key) then 1 else 0) == CountUsed(t) + (if duplicate then 0 else 1)
  {
    var home := Home(r.key, |t|);
    ScanMatchesLow(t, home, r.key.low, 0);
    match Scan(t, home, r.key.low, 0)
    case Free(i) => CountUpdate(t, At(home, i, |t|), KeyEntry(r.key.low, r.now, r.strategyId, 1));
    case _ =>
  }

  /** Every check that answered "first use" either tracks a key or was forgotten. */
  lemma {:induction false} TrackedPlusForgotten(requests: seq<Request>, size: nat)
    requires PROBE_LIMIT <= size
    requires forall i :: 0 <= i < |requests| ==> requests[i].key.low != 0
    ensures CountUsed(After(requests, size)) + Forgotten(requests, size) == FirstUses(requests, size)
    ensures UsedIffStored(After(requests, size))
  {
    if requests == [] {
      CountEmpty(size);
    } else {
      var n := |requests| - 1;
      TrackedPlusForgotten(requests[..n], size);
      CheckCounts(After(requests[..n], size), requests[n]);
    }
  }
}
