/** The ring as one thread uses it, each call as a whole. */
module Ring {
  import opened Wrappers

  lemma WrapIsModulo(i: nat, n: nat)
    requires i < n
    ensures (i + 1) % n == if i + 1 == n then 0 else i + 1
  {}

  class ItemRing {
    const buffer: array<nat>
    const length: nat
    var head: nat
    var tail: nat

    ghost predicate Valid()
      reads this
    {
      buffer.Length == length > 0 && head < length && tail < length
    }

    /** The queued items, oldest first. */
    ghost function Contents(): (items: seq<nat>)
      requires Valid()
      reads this, buffer
      ensures |items| < length
    {
      if tail <= head then buffer[tail..head] else buffer[tail..] + buffer[..head]
    }

    constructor (length: nat)
      requires length > 0
      ensures Valid() && fresh(buffer) && Contents() == [] && this.length == length
    {
      buffer := new nat[length];
      this.length := length;
      head, tail := 0, 0;
    }

    method Put(item: nat) returns (ok: bool)
      requires Valid()
      modifies `head, buffer
      ensures Valid()
      ensures ok <==> |old(Contents())| < length - 1
      ensures Contents() == if ok then old(Contents()) + [item] else old(Contents())
    {
      WrapIsModulo(head, length);
      var nextHead := (head + 1) % length;
      if nextHead == tail { return false; }
      buffer[head] := item;
      head := nextHead;
      ok := true;
    }

    method Get() returns (item: Option<nat>)
      requires Valid()
      modifies `tail
      ensures Valid()
      ensures item.None? <==> old(Contents()) == []
      ensures item.None? ==> Contents() == []
      ensures item.Some? ==> old(Contents()) == [item.value] + Contents()
    {
      WrapIsModulo(tail, length);
      if tail == head { return None; }
      ghost var before := Contents();
      item := Some(buffer[tail]);
      tail := (tail + 1) % length;
      assert before == [before[0]] + before[1..];
      assert before[1..] == Contents();
    }
  }
}
