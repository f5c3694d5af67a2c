/** The shared ring buffer itself, as the critical sections of producer and consumer change it. */
module QueueRing {
  import opened BoundedQueue

  class Ring {
    const buffer: array<int>
    var inn: nat
    var out: nat
    var count: nat

    ghost predicate Valid()
      reads this, buffer
    {
      && buffer.Length > 0 && inn < buffer.Length && out < buffer.Length && count <= buffer.Length
      && inn == (out + count) % buffer.Length
    }

    /** The items in the ring, oldest first. */
    ghost function Items(): seq<int>
      requires Valid()
      reads this, buffer
    {
      Contents(buffer[..], out, count)
    }

    constructor (size: nat)
      requires size > 0
      ensures Valid() && Items() == [] && buffer.Length == size && fresh(buffer)
    {
      buffer := new int[size];
      inn, out, count := 0, 0, 0;
      new;
      ModSmall(0, size);
    }

    /** The producer's critical section, past the full test. */
    method Put(item: int)
      requires Valid() && count < buffer.Length
      modifies this`inn, this`count, buffer
      ensures Valid() && count == old(count) + 1 && Items() == old(Items()) + [item]
    {
      PutAppends(buffer[..], out, count, item);
      SlotStep(out, count, buffer.Length);
      ghost var was, at := buffer[..], inn;
      buffer[inn] := item;
      inn := (inn + 1) % buffer.Length;
      count := count + 1;
      assert buffer[..] == was[at := item];
    }

    /** The consumer's critical section, past the empty test. */
    method Take() returns (item: int)
      requires Valid() && count > 0
      modifies this`out, this`count
      ensures Valid() && count == old(count) - 1 && old(Items()) == [item] + Items()
    {
      GetRemoves(buffer[..], out, count);
      SlotStep(out, count - 1, buffer.Length);
      item := buffer[out];
      out := (out + 1) % buffer.Length;
      count := count - 1;
    }
  }
}
