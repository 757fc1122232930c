/**
 * The application's own queue of metadata buffers: a ring in which one slot always
 * stays unused, so that a full ring and an empty one differ.
 */
module BufferRing {
  import opened BufferFifo

  const POOL_SIZE := 10

  datatype Slot = Slot(buffer: Buffer, length: nat)

  /** The number of buffers in a ring with this head and tail. */
  function Occupancy(head: nat, tail: nat): (n: nat)
    requires head < POOL_SIZE && tail < POOL_SIZE
    ensures n < POOL_SIZE && (n == 0 <==> tail == (head + 1) % POOL_SIZE) && (n == POOL_SIZE - 1 <==> tail == head)
  {
    (tail + POOL_SIZE - head - 1) % POOL_SIZE
  }

  /** The slots behind the head and before the tail, around the end of the array. */
  function Unrolled(slots: seq<Slot>, head: nat, tail: nat): (contents: seq<Slot>)
    requires |slots| == POOL_SIZE && head < POOL_SIZE && tail < POOL_SIZE
    ensures |contents| == Occupancy(head, tail)
    ensures forall i :: 0 <= i < |contents| ==> contents[i] == slots[(head + 1 + i) % POOL_SIZE]
  {
    seq(Occupancy(head, tail), i requires 0 <= i => slots[(head + 1 + i) % POOL_SIZE])
  }

  lemma PlaceOfTail(head: nat, tail: nat, i: nat)
    requires head < POOL_SIZE && tail < POOL_SIZE && tail != head
    ensures Occupancy(head, (tail + 1) % POOL_SIZE) == Occupancy(head, tail) + 1
    ensures (head + 1 + Occupancy(head, tail)) % POOL_SIZE == tail
    ensures i < Occupancy(head, tail) ==> (head + 1 + i) % POOL_SIZE != tail
  {
    assert Occupancy(head, tail) == if tail > head then tail - head - 1 else tail + POOL_SIZE - head - 1;
  }

  lemma UnrolledAppend(slots: seq<Slot>, head: nat, tail: nat, slot: Slot)
    requires |slots| == POOL_SIZE && head < POOL_SIZE && tail < POOL_SIZE && tail != head
    ensures Unrolled(slots[tail := slot], head, (tail + 1) % POOL_SIZE) == Unrolled(slots, head, tail) + [slot]
  {
    PlaceOfTail(head, tail, 0);
    var longer := Unrolled(slots[tail := slot], head, (tail + 1) % POOL_SIZE);
    forall i | 0 <= i < Occupancy(head, tail)
      ensures longer[i] == slots[(head + 1 + i) % POOL_SIZE]
    {
      PlaceOfTail(head, tail, i);
    }
  }

  lemma UnrolledTail(slots: seq<Slot>, head: nat, tail: nat)
    requires |slots| == POOL_SIZE && head < POOL_SIZE && tail < POOL_SIZE && tail != (head + 1) % POOL_SIZE
    ensures Unrolled(slots, (head + 1) % POOL_SIZE, tail) == Unrolled(slots, head, tail)[1..]
  {
    var next := (head + 1) % POOL_SIZE;
    var shorter, contents := Unrolled(slots, next, tail), Unrolled(slots, head, tail);
    assert |shorter| == |contents| - 1;
    forall i | 0 <= i < |shorter|
      ensures shorter[i] == contents[i + 1]
    {
      assert (next + 1 + i) % POOL_SIZE == (head + 1 + (i + 1)) % POOL_SIZE;
    }
  }

  class Ring {
    var slots: array<Slot>
    var head: nat
    var tail: nat

    ghost predicate Valid()
      reads this
    {
      slots.Length == POOL_SIZE && head < POOL_SIZE && tail < POOL_SIZE
    }

    ghost function Contents(): (contents: seq<Slot>)
      requires Valid()
      reads this, slots
      ensures |contents| == Occupancy(head, tail)
    {
      Unrolled(slots[..], head, tail)
    }

    /** A fresh pool: the ring offers all its buffers except the one in slot 0. */
    constructor (pool: seq<Slot>)
      requires |pool| == POOL_SIZE
      ensures Valid() && fresh(slots) && Contents() == pool[1..]
    {
      slots := new Slot[POOL_SIZE](i requires 0 <= i < POOL_SIZE => pool[i]);
      head, tail := 0, 0;
      new;
      assert Contents() == pool[1..];
    }

    /** Appends the buffer, unless the ring is full. */
    method Add(buffer: Buffer, length: nat) returns (full: bool)
      requires Valid()
      modifies this`tail, slots
      ensures Valid() && slots == old(slots) && (full <==> |old(Contents())| == POOL_SIZE - 1)
      ensures Contents() == if full then old(Contents()) else old(Contents()) + [Slot(buffer, length)]
    {
      if tail == head {
        return true;
      }
      UnrolledAppend(slots[..], head, tail, Slot(buffer, length));
      slots[tail] := Slot(buffer, length);
      assert slots[..] == old(slots[..])[tail := Slot(buffer, length)];
      tail := (tail + 1) % POOL_SIZE;
      full := false;
    }

    /** Takes the oldest buffer, unless the ring is empty. */
    method Get() returns (buffer: Buffer?, length: nat)
      requires Valid()
      modifies this`head
      ensures Valid() && (buffer == null <==> old(Contents()) == [])
      ensures buffer == null ==> length == 0 && Contents() == []
      ensures buffer != null ==> old(Contents())[0] == Slot(buffer, length) && Contents() == old(Contents())[1..]
    {
      var nextHead := (head + 1) % POOL_SIZE;
      if nextHead == tail {
        return null, 0;
      }
      buffer := slots[nextHead].buffer;
      length := slots[nextHead].length;
      UnrolledTail(slots[..], head, tail);
      head := nextHead;
    }
  }
}
