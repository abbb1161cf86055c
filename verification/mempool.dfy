/**
 * The FIFO allocator: fixed-size items behind descriptors, handed out by a head
 * that wraps and taken back in the same order by a tail. Positions count
 * descriptors (8 bytes) from the start of the malloc'ed block.
 */
module MemPool {
  import opened Wrappers

  const DESCRIPTOR_SIZE: nat := 8
  const GUARD_LENGTH: nat := 65536

  /** Bytes of an item and its descriptor, rounded up to whole descriptors. */
  function AlignedLength(length: nat): nat {
    DESCRIPTOR_SIZE + length + (if length % DESCRIPTOR_SIZE != 0 then DESCRIPTOR_SIZE - length % DESCRIPTOR_SIZE else 0)
  }

  function Unit(length: nat): (u: nat)
    ensures u >= 1
  {
    AlignedLength(length) / DESCRIPTOR_SIZE
  }

  const START: nat := GUARD_LENGTH / DESCRIPTOR_SIZE

  /** The position of descriptor `k`. */
  function Position(k: nat, unit: nat): nat {
    START + k * unit
  }

  /** The first byte of the item of descriptor `k`. */
  function ItemOffset(k: nat, unit: nat): nat {
    (Position(k, unit) + 1) * DESCRIPTOR_SIZE
  }

  lemma UnitHoldsItem(length: nat)
    ensures Unit(length) * DESCRIPTOR_SIZE == AlignedLength(length) >= DESCRIPTOR_SIZE + length
  {}

  lemma {:induction false} PositionsApart(j: nat, k: nat, unit: nat)
    requires j < k
    ensures Position(j, unit) + unit <= Position(k, unit)
    decreases k
  {
    assert k * unit == (k - 1) * unit + unit;
    if j + 1 < k {
      PositionsApart(j, k - 1, unit);
    }
  }

  /** Items are disjoint, lie inside the allocation and touch neither the guard nor a descriptor. */
  lemma ItemsAreDisjoint(length: nat, count: nat, j: nat, k: nat)
    requires j < k < count
    ensures var unit := Unit(length);
            && GUARD_LENGTH + DESCRIPTOR_SIZE <= ItemOffset(j, unit)
            && ItemOffset(j, unit) + length <= Position(k, unit) * DESCRIPTOR_SIZE
            && Position(k, unit) * DESCRIPTOR_SIZE + DESCRIPTOR_SIZE == ItemOffset(k, unit)
            && ItemOffset(k, unit) + length <= AlignedLength(length) * count + GUARD_LENGTH
  {
    var unit := Unit(length);
    UnitHoldsItem(length);
    PositionsApart(j, k, unit);
    PositionsApart(k, count, unit);
    assert 0 <= j * unit;
    assert count * unit * DESCRIPTOR_SIZE == AlignedLength(length) * count;
  }

  function Wrap(k: nat, count: nat): nat {
    if k < count then k else k - count
  }

  class Mempool {
    const unit: nat
    const count: nat
    const end: nat
    var head: nat
    var tail: nat
    /** The descriptors that point back to this pool. */
    var descriptors: set<nat>

    ghost var tailSlot: nat
    /** Items handed out and not yet taken back, oldest first. */
    ghost var outstanding: seq<nat>

    ghost predicate Valid()
      reads this
    {
      && unit >= 1 && count >= 1 && end == Position(count, unit)
      && tailSlot < count && |outstanding| < count
      && tail == Position(tailSlot, unit)
      && head == Position(Wrap(tailSlot + |outstanding|, count), unit)
      && (forall i :: 0 <= i < |outstanding| ==> outstanding[i] == Position(Wrap(tailSlot + 1 + i, count), unit) + 1)
      && forall k :: 0 <= k < count ==> Position(k, unit) in descriptors
    }

    /** The descriptor of the item handed out last, or the first one. */
    ghost function Slot(): (slot: nat)
      reads this
      requires Valid()
      ensures slot < count
    {
      Wrap(tailSlot + |outstanding|, count)
    }

    ghost function ItemAt(slot: nat): nat {
      Position(slot, unit) + 1
    }

    lemma ItemsDiffer(j: nat, k: nat)
      requires Valid()
      ensures ItemAt(j) == ItemAt(k) <==> j == k
    {
      SamePosition(j, k);
    }

    constructor (length: nat, count: nat)
      requires count >= 1
      ensures Valid() && outstanding == [] && this.count == count && unit == Unit(length) && Slot() == 0
    {
      unit, this.count := Unit(length), count;
      end := Position(count, Unit(length));
      head, tail := START, START;
      descriptors := {};
      tailSlot, outstanding := 0, [];
      new;
      assert Position(0, unit) == START;
      WriteDescriptors();
    }

    /** The loop of util_mempool_setup: every descriptor learns its pool. */
    method WriteDescriptors()
      requires unit >= 1 && end == Position(count, unit)
      modifies `descriptors
      ensures forall k :: 0 <= k < count ==> Position(k, unit) in descriptors
      ensures forall d :: d in descriptors ==> exists k: nat :: k < count && d == Position(k, unit)
    {
      descriptors := {};
      var descriptor := START;
      ghost var k := 0;
      while descriptor < end
        invariant k <= count && descriptor == Position(k, unit)
        invariant forall j :: 0 <= j < k ==> Position(j, unit) in descriptors
        invariant forall d :: d in descriptors ==> exists j: nat :: j < k && d == Position(j, unit)
        decreases count - k
      {
        assert k < count;
        assert (k + 1) * unit == k * unit + unit;
        descriptors := descriptors + {descriptor};
        descriptor := descriptor + unit;
        k := k + 1;
      }
      if k < count { PositionsApart(k, count, unit); }
    }

    lemma SamePosition(j: nat, k: nat)
      requires unit >= 1
      ensures Position(j, unit) == Position(k, unit) <==> j == k
    {
      if j < k { PositionsApart(j, k, unit); }
      if k < j { PositionsApart(k, j, unit); }
    }

    /** The next slot's position, as the code computes it. */
    lemma NextPosition(k: nat)
      requires unit >= 1 && k < count && end == Position(count, unit)
      ensures var next := Position(k, unit) + unit;
              Position(Wrap(k + 1, count), unit) == if next == end then START else next
    {
      assert Position(k, unit) + unit == Position(k + 1, unit) by { assert (k + 1) * unit == k * unit + unit; }
      SamePosition(k + 1, count);
      assert Position(0, unit) == START;
    }

    /**
     * Fails exactly if all items but one are outstanding, and never repeats an
     * outstanding item; otherwise it goes on to the next item, round and round.
     */
    method Get() returns (item: Option<nat>)
      requires Valid()
      modifies `head, `outstanding
      ensures Valid()
      ensures item.None? <==> |old(outstanding)| == count - 1
      ensures item.None? ==> outstanding == old(outstanding) && Slot() == old(Slot())
      ensures item.Some? ==> item.value !in old(outstanding) && outstanding == old(outstanding) + [item.value]
      ensures item.Some? ==> Slot() == Wrap(old(Slot()) + 1, count) && item.value == ItemAt(Slot())
    {
      ghost var slot := Wrap(tailSlot + |outstanding|, count);
      ghost var next := Wrap(slot + 1, count);
      NextPosition(slot);
      SamePosition(next, tailSlot);
      assert next == Wrap(tailSlot + 1 + |outstanding|, count);
      var descriptor := head + unit;
      if descriptor == end {
        descriptor := START;
      }
      if descriptor == tail { return None; }
      forall i | 0 <= i < |outstanding|
        ensures outstanding[i] != descriptor + 1
      {
        SamePosition(Wrap(tailSlot + 1 + i, count), next);
      }
      head := descriptor;
      outstanding := outstanding + [descriptor + 1];
      item := Some(descriptor + 1);
    }

    /**
     * Takes the item back; the program exits unless it is the one that the tail
     * reaches next, which is the oldest outstanding item if there is one.
     */
    method Put(item: nat) returns (exits: bool)
      requires Valid() && item >= 1 && item - 1 in descriptors
      modifies `tail, `tailSlot, `outstanding
      ensures tail == Position(Wrap(old(tailSlot) + 1, count), unit)
      ensures exits <==> item != tail + 1
      ensures old(outstanding) != [] ==> (exits <==> item != old(outstanding)[0])
      ensures old(outstanding) != [] && !exits ==>
                Valid() && outstanding == old(outstanding)[1..] && Slot() == old(Slot())
    {
      NextPosition(tailSlot);
      tail := tail + unit;
      if tail == end {
        tail := START;
      }
      if tail != item - 1 { return true; }
      if outstanding != [] {
        tailSlot := Wrap(tailSlot + 1, count);
        outstanding := outstanding[1..];
      }
      exits := false;
    }
  }

  lemma OutstandingIsItem(pool: Mempool, i: nat)
    requires pool.Valid() && i < |pool.outstanding|
    ensures pool.outstanding[i] >= 1 && pool.outstanding[i] - 1 in pool.descriptors
  {}

  /** Outstanding items are items of the pool and pairwise different. */
  lemma OutstandingAreItems(pool: Mempool, i: nat, j: nat)
    requires pool.Valid() && i < j < |pool.outstanding|
    ensures pool.outstanding[i] != pool.outstanding[j]
    ensures pool.outstanding[i] - 1 in pool.descriptors && pool.outstanding[j] - 1 in pool.descriptors
  {
    var a, b := Wrap(pool.tailSlot + 1 + i, pool.count), Wrap(pool.tailSlot + 1 + j, pool.count);
    pool.SamePosition(a, b);
  }
}
