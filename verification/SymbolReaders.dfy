/** Lookups in the symbol table that overlap an insertion, field by field. */
module SymbolReaders {
  import opened Machine
  import opened Probing
  import opened SymbolMapper

  // One inserting thread writes the fields of a bucket one after the other and then publishes its
  // id, while any number of threads probe, reading id, hash, bytes and venue in separate steps.

  /** The writer has written the first `stage` of hash, length, venue and bytes. */
  datatype Writer = Idle | Filling(key: Key, d: nat, stage: nat)

  /** What a lookup reads next of the bucket at distance `d`. */
  datatype Reader =
    | Resting
    | AtId(key: Key, d: nat)
    | AtHash(key: Key, d: nat, id: nat)
    | AtBytes(key: Key, d: nat, id: nat)
    | AtVenue(key: Key, d: nat, id: nat)
    | Answered(key: Key, result: Option<nat>)

  predicate UnderWay(r: Reader) {
    r.AtId? || r.AtHash? || r.AtBytes? || r.AtVenue?
  }

  datatype State = State(
    buckets: seq<Bucket>,
    maxSymbols: nat,
    writer: Writer,
    readers: seq<Reader>,
    keys: seq<Key>,     // history: the keys published so far, in id order
    slots: seq<nat>)    // history: where each of them is stored

  datatype Step =
    | Choose(key: Key)
    | WriteField
    | Publish
    | BeginLookup(reader: nat, key: Key)
    | Read(reader: nat)

  function Init(size: nat, maxSymbols: nat, readerCount: nat): State {
    State(seq(size, _ => EMPTY_ENTRY), maxSymbols, Idle, seq(readerCount, _ => Resting), [], [])
  }

  function Place(s: State, key: Key, d: nat): (i: nat)
    requires 0 < |s.buckets| && d <= |s.buckets|
    ensures i < |s.buckets|
  {
    At(Home(key, |s.buckets|), d, |s.buckets|)
  }

  predicate Bounded(s: State) {
    && 0 < |s.buckets|
    && (s.writer.Filling? ==> s.writer.d <= |s.buckets| && Acceptable(s.writer.key.symbol))
    && (forall r :: 0 <= r < |s.readers| && UnderWay(s.readers[r]) ==> s.readers[r].d <= |s.buckets|)
  }

  /** The writer takes the first empty bucket on the path of a new key while ids remain. */
  predicate Enabled(s: State, step: Step)
    requires Bounded(s)
  {
    match step
    case Choose(key) =>
      && s.writer.Idle? && Acceptable(key.symbol) && key !in s.keys && |s.keys| + 1 < s.maxSymbols
      && Scan(s.buckets, key, 0).Vacant? && Scan(s.buckets, key, 0).d <= |s.buckets|
    case WriteField => s.writer.Filling? && s.writer.stage < 4
    case Publish => s.writer.Filling? && s.writer.stage == 4
    case BeginLookup(r, key) =>
      r < |s.readers| && (s.readers[r].Resting? || s.readers[r].Answered?) && Acceptable(key.symbol)
    case Read(r) => r < |s.readers| && UnderWay(s.readers[r])
  }

  /** The next field of the entry, in the order of the source. */
  function Written(e: Bucket, key: Key, stage: nat): (f: Bucket)
    requires Acceptable(key.symbol)
    ensures f.id == e.id
  {
    if stage == 0 then e.(hash := Fnv(FNV_OFFSET_BASIS, key.symbol))
    else if stage == 1 then e.(len := |key.symbol|)
    else if stage == 2 then e.(venueId := key.venue)
    else e.(symbolBytes := key.symbol + e.symbolBytes[|key.symbol|..])
  }

  /** The first `stage` fields are those of the key. */
  ghost predicate HasFields(e: Bucket, key: Key, stage: nat)
    requires Acceptable(key.symbol)
  {
    && (stage >= 1 ==> e.hash == Fnv(FNV_OFFSET_BASIS, key.symbol))
    && (stage >= 2 ==> e.len == |key.symbol|)
    && (stage >= 3 ==> e.venueId == key.venue)
    && (stage >= 4 ==> e.symbolBytes[..|key.symbol|] == key.symbol)
  }

  lemma WrittenHas(e: Bucket, key: Key, stage: nat)
    requires Acceptable(key.symbol) && stage < 4 && HasFields(e, key, stage)
    ensures HasFields(Written(e, key, stage), key, stage + 1)
  {
  }

  lemma AllFields(e: Bucket, key: Key)
    requires Acceptable(key.symbol) && HasFields(e, key, 4)
    ensures KeyOf(e) == key
  {
  }

  /** On to the next bucket, unless the distance guard fires. */
  function Onward(key: Key, d: nat, size: nat): Reader {
    if d + 1 > size then Answered(key, None) else AtId(key, d + 1)
  }

  /** What one read of the lookup's current bucket leads to. */
  function AfterRead(s: State, r: Reader): Reader
    requires 0 < |s.buckets| && UnderWay(r) && r.d <= |s.buckets|
  {
    var e, size := s.buckets[Place(s, r.key, r.d)], |s.buckets|;
    match r
    case AtId(key, d) =>
      if !Live(e) then Answered(key, None)
      else if e.id == TOMBSTONE then Onward(key, d, size)
      else AtHash(key, d, e.id)
    case AtHash(key, d, id) =>
      if e.hash == Fnv(FNV_OFFSET_BASIS, key.symbol) then AtBytes(key, d, id) else Onward(key, d, size)
    case AtBytes(key, d, id) =>
      if e.symbolBytes[..e.len] == key.symbol then AtVenue(key, d, id) else Onward(key, d, size)
    case AtVenue(key, d, id) =>
      if e.venueId == key.venue then Answered(key, Some(id)) else Onward(key, d, size)
    case _ => r
  }

  function Apply(s: State, step: Step): (t: State)
    requires Bounded(s) && Enabled(s, step)
    ensures Bounded(t) && |t.buckets| == |s.buckets| && |t.readers| == |s.readers|
  {
    match step
    case Choose(key) => s.(writer := Filling(key, Scan(s.buckets, key, 0).d, 0))
    case WriteField =>
      var Filling(key, d, stage) := s.writer;
      var i := Place(s, key, d);
      s.(buckets := s.buckets[i := Written(s.buckets[i], key, stage)], writer := Filling(key, d, stage + 1))
    case Publish =>
      var i := Place(s, s.writer.key, s.writer.d);
      s.(buckets := s.buckets[i := s.buckets[i].(id := |s.keys| + 1)], writer := Idle,
         keys := s.keys + [s.writer.key], slots := s.slots + [i])
    case BeginLookup(r, key) => s.(readers := s.readers[r := AtId(key, 0)])
    case Read(r) => s.(readers := s.readers[r := AfterRead(s, s.readers[r])])
  }

  function Run(s: State, steps: seq<Step>): Option<State>
    requires Bounded(s)
    decreases |steps|
  {
    if steps == [] then Some(s)
    else if !Enabled(s, steps[0]) then None
    else Run(Apply(s, steps[0]), steps[1..])
  }

  // ---------------------------------------------------------------- the invariant

  ghost predicate TableInv(s: State) {
    && 0 < s.maxSymbols <= |s.buckets| && s.maxSymbols < TOMBSTONE && |s.keys| < s.maxSymbols
    && Represents(s.buckets, s.keys, s.slots)
  }

  ghost predicate PathLive(t: seq<Bucket>, key: Key, d: nat)
    requires 0 < |t| && d <= |t|
  {
    forall p: nat :: p < d ==> Live(t[At(Home(key, |t|), p, |t|)])
  }

  ghost predicate WriterInv(s: State)
    requires Bounded(s)
  {
    s.writer.Filling? ==>
      var Filling(key, d, stage) := s.writer;
      && key !in s.keys && |s.keys| + 1 < s.maxSymbols && d < |s.buckets|
      && PathLive(s.buckets, key, d) && !Live(s.buckets[Place(s, key, d)])
      && HasFields(s.buckets[Place(s, key, d)], key, stage)
  }

  /** A lookup has passed only published buckets of other keys. */
  ghost predicate Passed(t: seq<Bucket>, key: Key, d: nat)
    requires 0 < |t| && d <= |t|
  {
    forall p: nat :: p < d ==> Live(t[At(Home(key, |t|), p, |t|)]) && KeyOf(t[At(Home(key, |t|), p, |t|)]) != key
  }

  /** The lookup's bucket is published with the id it read. */
  ghost predicate Reading(t: seq<Bucket>, key: Key, d: nat, id: nat)
    requires 0 < |t|
  {
    && d <= |t| && Passed(t, key, d)
    && Live(t[At(Home(key, |t|), d, |t|)]) && t[At(Home(key, |t|), d, |t|)].id == id
  }

  ghost predicate ReaderInv(t: seq<Bucket>, r: Reader)
    requires 0 < |t|
  {
    match r
    case AtId(key, d) => d <= |t| && Passed(t, key, d)
    case AtHash(key, d, id) => Reading(t, key, d, id)
    case AtBytes(key, d, id) => Reading(t, key, d, id)
    case AtVenue(key, d, id) => Reading(t, key, d, id) && KeyOf(t[At(Home(key, |t|), d, |t|)]).symbol == key.symbol
    case _ => true
  }

  ghost predicate Inv(s: State) {
    && Bounded(s) && TableInv(s) && WriterInv(s)
    && forall r :: 0 <= r < |s.readers| ==> ReaderInv(s.buckets, s.readers[r])
  }

  /** Published buckets are never written again. */
  ghost predicate KeepsLive(t: seq<Bucket>, u: seq<Bucket>) {
    |t| == |u| && forall i :: 0 <= i < |t| && Live(t[i]) ==> u[i] == t[i]
  }

  lemma ReaderInvStable(t: seq<Bucket>, u: seq<Bucket>, r: Reader)
    requires 0 < |t| && KeepsLive(t, u) && ReaderInv(t, r)
    ensures ReaderInv(u, r)
  {
  }

  /** Filling an empty bucket leaves what the table represents alone. */
  lemma FillKeepsRepresentation(t: seq<Bucket>, keys: seq<Key>, slots: seq<nat>, i: nat, e: Bucket)
    requires Represents(t, keys, slots) && i < |t| && !Live(t[i]) && !Live(e)
    ensures Represents(t[i := e], keys, slots)
  {
    assert forall j :: 0 <= j < |keys| ==> slots[j] != i;
  }

  lemma ChooseKeepsInv(s: State, key: Key)
    requires Inv(s) && Enabled(s, Choose(key))
    ensures Inv(Apply(s, Choose(key)))
  {
    var free := EmptyBucketAhead(s.buckets, s.keys, s.slots, Home(key, |s.buckets|));
    ScanFinds(s.buckets, s.keys, s.slots, key, 0, free);
  }

  lemma WriteKeepsInv(s: State)
    requires Inv(s) && Enabled(s, WriteField)
    ensures Inv(Apply(s, WriteField))
  {
    var t := Apply(s, WriteField);
    var Filling(key, d, stage) := s.writer;
    var i := Place(s, key, d);
    WrittenHas(s.buckets[i], key, stage);
    FillKeepsRepresentation(s.buckets, s.keys, s.slots, i, t.buckets[i]);
    assert KeepsLive(s.buckets, t.buckets);
    forall r | 0 <= r < |t.readers| ensures ReaderInv(t.buckets, t.readers[r]) {
      ReaderInvStable(s.buckets, t.buckets, s.readers[r]);
    }
  }

  lemma PublishKeepsInv(s: State)
    requires Inv(s) && Enabled(s, Publish)
    ensures Inv(Apply(s, Publish))
  {
    var t := Apply(s, Publish);
    var Filling(key, d, _) := s.writer;
    var i := Place(s, key, d);
    AllFields(s.buckets[i], key);
    ClaimKeepsRepresentation(s.buckets, s.keys, s.slots, key, d, t.buckets[i]);
    assert KeepsLive(s.buckets, t.buckets);
    forall r | 0 <= r < |t.readers| ensures ReaderInv(t.buckets, t.readers[r]) {
      ReaderInvStable(s.buckets, t.buckets, s.readers[r]);
    }
  }

  lemma ReadKeepsReaderInv(s: State, r: Reader)
    requires Bounded(s) && TableInv(s) && UnderWay(r) && ReaderInv(s.buckets, r)
    ensures ReaderInv(s.buckets, AfterRead(s, r))
  {
  }

  lemma StepKeepsInv(s: State, step: Step)
    requires Inv(s) && Enabled(s, step)
    ensures Inv(Apply(s, step)) && s.keys <= Apply(s, step).keys
  {
    match step
    case Choose(key) => ChooseKeepsInv(s, key);
    case WriteField => WriteKeepsInv(s);
    case Publish => PublishKeepsInv(s);
    case BeginLookup(_, _) =>
    case Read(r) => ReadKeepsReaderInv(s, s.readers[r]);
  }

  lemma InitInv(size: nat, maxSymbols: nat, readerCount: nat)
    requires 0 < maxSymbols <= size && maxSymbols < TOMBSTONE
    ensures Inv(Init(size, maxSymbols, readerCount))
  {
  }

  /** Every interleaving keeps the table representing its keys, and only appends to them. */
  lemma {:induction false} RunKeepsInv(s: State, steps: seq<Step>, t: State)
    requires Inv(s) && Run(s, steps) == Some(t)
    ensures Inv(t) && s.keys <= t.keys
    decreases |steps|
  {
    if steps != [] {
      StepKeepsInv(s, steps[0]);
      RunKeepsInv(Apply(s, steps[0]), steps[1..], t);
    }
  }

  // ---------------------------------------------------------------- main results

  /** A lookup meets an empty bucket before it has gone once round the table. */
  lemma LookupEndsInTime(s: State, r: Reader)
    requires Inv(s) && UnderWay(r) && ReaderInv(s.buckets, r)
    ensures r.d < |s.buckets| && (!r.AtId? ==> r.d + 1 < |s.buckets|)
  {
    var home := Home(r.key, |s.buckets|);
    var free := EmptyBucketAhead(s.buckets, s.keys, s.slots, home);
    assert !Live(s.buckets[At(home, free, |s.buckets|)]);
  }

  lemma AnswerIsCurrent(s: State, r: nat)
    requires Inv(s) && Enabled(s, Read(r)) && AfterRead(s, s.readers[r]).Answered?
    ensures AfterRead(s, s.readers[r]).result == IdOf(s.keys, s.readers[r].key)
  {
    var reader := s.readers[r];
    var i := Place(s, reader.key, reader.d);
    LookupEndsInTime(s, reader);
    if reader.AtId? {
      GapMeansAbsent(s.buckets, s.keys, s.slots, reader.key, reader.d);
    } else {
      MatchIsId(s.buckets, s.keys, s.slots, reader.key, i);
    }
  }

  /**
   In every interleaving of one inserting thread and any number of lookups, each lookup
   answers what a plain lookup in the list of published keys gives at the moment of its
   last read: it never sees a half-written entry and never misses a key published before
   it began.
   */
  lemma LookupsAreAtomic(size: nat, maxSymbols: nat, readerCount: nat, first: seq<Step>, s: State, r: nat)
    requires 0 < maxSymbols <= size && maxSymbols < TOMBSTONE
    requires Run(Init(size, maxSymbols, readerCount), first) == Some(s) && Bounded(s) && Enabled(s, Read(r))
    ensures var t := Apply(s, Read(r));
      t.readers[r].Answered? ==> t.readers[r].result == IdOf(t.keys, s.readers[r].key)
  {
    InitInv(size, maxSymbols, readerCount);
    RunKeepsInv(Init(size, maxSymbols, readerCount), first, s);
    if AfterRead(s, s.readers[r]).Answered? {
      AnswerIsCurrent(s, r);
    }
  }

  /** How far a lookup has come, counting four reads a bucket. */
  function Progress(r: Reader): nat
    requires UnderWay(r)
  {
    4 * r.d + if r.AtId? then 0 else if r.AtHash? then 1 else if r.AtBytes? then 2 else 3
  }

  /** Each read answers or advances, and progress stays below four times the table size: lookups are wait-free. */
  lemma LookupsAreWaitFree(s: State, r: nat)
    requires Inv(s) && Enabled(s, Read(r))
    ensures var before, after := s.readers[r], Apply(s, Read(r)).readers[r];
      && Progress(before) < 4 * |s.buckets|
      && (after.Answered? || (UnderWay(after) && Progress(before) < Progress(after)))
  {
    LookupEndsInTime(s, s.readers[r]);
  }

  // ---------------------------------------------------------------- progress

  lemma RunCons(s: State, step: Step, rest: seq<Step>)
    requires Bounded(s) && Enabled(s, step)
    ensures Run(s, [step] + rest) == Run(Apply(s, step), rest)
  {
    assert ([step] + rest)[1..] == rest;
  }

  /** With ids left, an idle writer can always choose a bucket for a new key. */
  lemma NewKeyCanBeChosen(s: State, key: Key)
    requires Inv(s) && s.writer.Idle? && 1 <= |key.symbol| <= 32 && key !in s.keys && |s.keys| + 1 < s.maxSymbols
    ensures Enabled(s, Choose(key))
  {
    var free := EmptyBucketAhead(s.buckets, s.keys, s.slots, Home(key, |s.buckets|));
    ScanFinds(s.buckets, s.keys, s.slots, key, 0, free);
  }

  /** The writes that are left of an entry, and its publication. */
  function WritesFrom(stage: nat): seq<Step>
    requires stage <= 4
    decreases 4 - stage
  {
    if stage == 4 then [Publish] else [WriteField] + WritesFrom(stage + 1)
  }

  lemma {:induction false} WriterFinishes(s: State) returns (t: State)
    requires Inv(s) && s.writer.Filling? && s.writer.stage <= 4
    ensures Run(s, WritesFrom(s.writer.stage)) == Some(t) && Inv(t)
    ensures t.writer.Idle? && t.readers == s.readers && t.maxSymbols == s.maxSymbols && t.keys == s.keys + [s.writer.key]
    decreases 4 - s.writer.stage
  {
    var step := if s.writer.stage < 4 then WriteField else Publish;
    var a := Apply(s, step);
    StepKeepsInv(s, step);
    if s.writer.stage < 4 {
      t := WriterFinishes(a);
      RunCons(s, WriteField, WritesFrom(s.writer.stage + 1));
    } else {
      t := a;
      RunCons(s, Publish, []);
    }
  }

  /** The insertion of a new key, by six steps of the writer, publishes it under the next id. */
  lemma InsertionCompletes(s: State, key: Key) returns (t: State)
    requires Inv(s) && s.writer.Idle? && 1 <= |key.symbol| <= 32 && key !in s.keys && |s.keys| + 1 < s.maxSymbols
    ensures Bounded(s) && Run(s, [Choose(key), WriteField, WriteField, WriteField, WriteField, Publish]) == Some(t) && Inv(t)
    ensures t.writer.Idle? && t.readers == s.readers && t.keys == s.keys + [key]
    ensures IdOf(t.keys, key) == Some(|s.keys| + 1)
  {
    NewKeyCanBeChosen(s, key);
    var a := Apply(s, Choose(key));
    StepKeepsInv(s, Choose(key));
    t := WriterFinishes(a);
    RunCons(s, Choose(key), WritesFrom(0));
    assert WritesFrom(0) == [WriteField, WriteField, WriteField, WriteField, Publish];
    assert [Choose(key)] + WritesFrom(0) == [Choose(key), WriteField, WriteField, WriteField, WriteField, Publish];
    UniqueId(t.keys, key, |s.keys| + 1);
  }

  /** From any state a lookup's own reads, fewer than four a bucket, bring the answer of the list of published keys. */
  lemma {:induction false} LookupCompletes(s: State, r: nat) returns (steps: seq<Step>, t: State)
    requires Inv(s) && r < |s.readers| && UnderWay(s.readers[r])
    ensures Run(s, steps) == Some(t) && |steps| <= 4 * |s.buckets| - Progress(s.readers[r])
    ensures forall step <- steps :: step == Read(r)
    ensures t == s.(readers := s.readers[r := Answered(s.readers[r].key, IdOf(s.keys, s.readers[r].key))])
    decreases 4 * |s.buckets| - Progress(s.readers[r])
  {
    LookupsAreWaitFree(s, r);
    StepKeepsInv(s, Read(r));
    var a := Apply(s, Read(r));
    var rest;
    if a.readers[r].Answered? {
      AnswerIsCurrent(s, r);
      rest, t := [], a;
    } else {
      rest, t := LookupCompletes(a, r);
    }
    RunCons(s, Read(r), rest);
    steps := [Read(r)] + rest;
  }
}
