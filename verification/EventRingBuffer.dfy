/**
 The ring buffer object itself, for calls that do not overlap: slots written in place,
 masked indices, and a batch loop. `Contents` is the queue of unconsumed events; what
 overlapping calls do to each other is the subject of `EventLoop`.
 */
module EventRingBuffer {
  import opened Machine
  import opened BitOps
  import opened EventLoop

  class RingBuffer {
    const bits: nat
    const slots: array<Slot>
    const mask: nat
    var producerSeq: nat
    var consumerSeq: nat
    var totalPublished: nat
    var totalConsumed: nat
    ghost var log: seq<Event>   // every event ever published

    /** The slot of sequence number `k`. */
    ghost function At(k: nat): (i: nat)
      requires slots.Length > 0
      ensures i < slots.Length
    {
      k % slots.Length
    }

    ghost predicate Valid()
      reads this, slots
    {
      && slots.Length == Pow2(bits) < U64 - 1
      && mask == slots.Length - 1
      && producerSeq == totalPublished == |log|
      && consumerSeq == totalConsumed
      && consumerSeq <= |log| <= consumerSeq + slots.Length
      && (forall k: nat :: consumerSeq <= k < |log| ==> slots[At(k)] == Slot(log[k], k + 1))
    }

    ghost function Contents(): (q: seq<Event>)
      reads this, slots
      requires Valid()
      ensures |q| <= slots.Length
    {
      log[consumerSeq..]
    }

    lemma SlotIndex(k: nat)
      requires Valid()
      ensures And(k, mask) == At(k)
    {
      MaskIsMod(k, bits);
    }

    lemma NextSlotIsFree()
      requires Valid() && |log| < consumerSeq + slots.Length
      ensures forall k: nat :: consumerSeq <= k < |log| ==> At(k) != At(|log|)
    {
      forall k: nat | consumerSeq <= k < |log| ensures At(k) != At(|log|) {
        ModDistinct(k, |log|, slots.Length);
      }
    }

    constructor (bits: nat)
      requires Pow2(bits) < U64 - 1
      ensures Valid() && fresh(slots) && this.bits == bits && Contents() == []
    {
      this.bits := bits;
      slots := new Slot[Pow2(bits)](_ => Slot(EMPTY_EVENT, 0));
      mask := Pow2(bits) - 1;
      producerSeq, consumerSeq, totalPublished, totalConsumed := 0, 0, 0, 0;
      log := [];
    }

    /** `wrapping_sub` of a counter that has not been overtaken. */
    method Distance(ahead: nat, behind: nat) returns (d: nat)
      requires behind <= ahead < behind + U64
      ensures d == ahead - behind
    {
      d := WrapSub(ahead, behind);
    }

    /** The two writes of `publish`: the event, then the number that marks it ready. */
    method Store(idx: nat, event: Event, seqNo: nat)
      requires idx < slots.Length
      modifies slots
      ensures slots[..] == old(slots[..])[idx := Slot(event, seqNo + 1)]
    {
      slots[idx] := slots[idx].(event := event);
      slots[idx] := slots[idx].(sequence := seqNo + 1);
    }

    /** Reading an unreleased slot; the spin on its number ends at once. */
    method Load(seqNo: nat) returns (event: Event)
      requires Valid() && consumerSeq <= seqNo < |log|
      ensures event == log[seqNo]
    {
      SlotIndex(seqNo);
      var idx := And(seqNo, mask);
      assert slots[idx].sequence >= seqNo + 1;
      event := slots[idx].event;
    }

    method Publish(event: Event) returns (result: Option<nat>)
      requires Valid()
      modifies this`producerSeq, this`totalPublished, this`log, slots
      ensures Valid()
      ensures result == if |old(Contents())| == slots.Length then None else Some(|old(log)|)
      ensures log == if result.None? then old(log) else old(log) + [event]
      ensures Contents() == if result.None? then old(Contents()) else old(Contents()) + [event]
    {
      SlotIndex(producerSeq);
      if |log| < consumerSeq + slots.Length {
        NextSlotIsFree();
      }
      var seqNo := producerSeq;
      producerSeq := producerSeq + 1;
      var used := Distance(seqNo, consumerSeq);
      if used >= slots.Length {
        producerSeq := producerSeq - 1;
        return None;
      }
      Store(And(seqNo, mask), event, seqNo);
      totalPublished := totalPublished + 1;
      log := log + [event];
      result := Some(seqNo);
    }

    method Consume() returns (result: Option<Event>)
      requires Valid()
      modifies this`consumerSeq, this`totalConsumed
      ensures Valid()
      ensures old(Contents()) == [] ==> result.None? && Contents() == []
      ensures old(Contents()) != [] ==> result == Some(old(Contents())[0]) && Contents() == old(Contents())[1..]
    {
      var consumer, producer := consumerSeq, producerSeq;
      if consumer >= producer {
        return None;
      }
      var event := Load(consumer);
      consumerSeq := consumerSeq + 1;
      totalConsumed := totalConsumed + 1;
      result := Some(event);
    }

    /** `handled` lists the events passed to the handler, in call order. */
    method ConsumeBatch(maxCount: nat) returns (count: nat, handled: seq<Event>)
      requires Valid()
      modifies this`consumerSeq, this`totalConsumed
      ensures Valid()
      ensures count == |handled| == Min(|old(Contents())|, maxCount)
      ensures handled + Contents() == old(Contents())
    {
      count, handled := 0, [];
      var consumer, producer := consumerSeq, producerSeq;
      var available := Distance(producer, consumer);
      var batchSize := Min(available, maxCount);
      for i := 0 to batchSize
        modifies {}
        invariant count == i == |handled|
        invariant handled == old(Contents())[..i]
      {
        var event := Load(consumer + i);
        handled := handled + [event];
        count := count + 1;
      }
      if count > 0 {
        consumerSeq := consumerSeq + count;
        totalConsumed := totalConsumed + count;
      }
    }

    method Depth() returns (depth: nat)
      requires Valid()
      ensures depth == |Contents()|
    {
      depth := Distance(producerSeq, consumerSeq);
    }
  }
}
