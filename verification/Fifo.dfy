/** The ring buffers of firmware/fifo.c, which refine a bounded queue of frames. */
module Fifo {
  import opened Machine

  const PAYLOAD_SIZE := 16
  const FIFO_SIZE := 4

  type Frame = s: seq<uint8> | |s| == PAYLOAD_SIZE witness Zeros(16)

  class Ring {
    var head: uint8
    var tail: uint8
    var count: uint8
    const entry: array2<uint8>

    ghost predicate Valid()
      reads this
    {
      && entry.Length0 == FIFO_SIZE && entry.Length1 == PAYLOAD_SIZE
      && head < FIFO_SIZE && tail < FIFO_SIZE && count <= FIFO_SIZE
      && head == (tail + count) % FIFO_SIZE
    }

    /** The bytes of one slot. */
    ghost function Slot(i: nat): (f: Frame)
      requires i < entry.Length0 && entry.Length1 == PAYLOAD_SIZE
      reads entry
      ensures forall j :: 0 <= j < PAYLOAD_SIZE ==> f[j] == entry[i, j]
    {
      seq(PAYLOAD_SIZE, j requires 0 <= j < PAYLOAD_SIZE reads entry => entry[i, j])
    }

    /** The slot that holds the `k`-th frame of the queue. */
    ghost function Place(k: nat): (i: nat)
      reads this
      ensures i < FIFO_SIZE
    {
      (tail + k) % FIFO_SIZE
    }

    /** The abstract queue, oldest frame first. */
    ghost function Queue(): (q: seq<Frame>)
      requires Valid()
      reads this, entry
      ensures |q| == count
      ensures forall k :: 0 <= k < count ==> q[k] == Slot(Place(k))
    {
      seq(count, k requires 0 <= k reads this, entry requires Valid() => Slot(Place(k)))
    }

    constructor ()
      ensures Valid() && fresh(entry) && Queue() == []
    {
      head, tail, count := 0, 0, 0;
      entry := new uint8[FIFO_SIZE, PAYLOAD_SIZE];
    }

    /** The slot to be filled next; None for the NULL pointer. */
    function GetHead(): (slot: Option<nat>)
      requires Valid()
      reads this, entry
      ensures slot.None? <==> |Queue()| == FIFO_SIZE
      ensures slot.Some? ==> slot.value < FIFO_SIZE && forall k :: 0 <= k < count ==> Place(k) != slot.value
    {
      if count < FIFO_SIZE then Some(head) else None
    }

    /** The frame filled into the head slot joins the queue. */
    method Push()
      requires Valid() && |Queue()| < FIFO_SIZE
      modifies this
      ensures Valid() && Queue() == old(Queue()) + [old(Slot(head))]
    {
      head := (head + 1) % FIFO_SIZE;
      count := count + 1;
    }

    function GetTail(): (slot: Option<nat>)
      requires Valid()
      reads this, entry
      ensures slot.None? <==> Queue() == []
      ensures slot.Some? ==> slot.value < FIFO_SIZE && Slot(slot.value) == Queue()[0]
    {
      if count != 0 then Some(tail) else None
    }

    method Pop()
      requires Valid() && Queue() != []
      modifies this
      ensures Valid() && Queue() == old(Queue())[1..]
    {
      tail := (tail + 1) % FIFO_SIZE;
      count := count - 1;
    }

    predicate Full()
      requires Valid()
      reads this, entry
      ensures Full() <==> |Queue()| == FIFO_SIZE
    {
      count >= FIFO_SIZE
    }

    function Count(): (n: uint8)
      requires Valid()
      reads this, entry
      ensures n == |Queue()|
    {
      count
    }

    method Clear()
      requires Valid()
      modifies this
      ensures Valid() && Queue() == []
    {
      head := 0;
      tail := 0;
      count := 0;
    }

    /** Stores a frame byte by byte in the slot GetHead returned; the queue is not affected. */
    method Fill(slot: nat, data: Frame)
      requires Valid() && GetHead() == Some(slot)
      modifies entry
      ensures Valid() && Queue() == old(Queue())
      ensures Slot(slot) == data
    {
      var i := 0;
      while i < PAYLOAD_SIZE
        invariant 0 <= i <= PAYLOAD_SIZE
        invariant forall j :: 0 <= j < i ==> entry[slot, j] == data[j]
        invariant forall k, j :: 0 <= k < FIFO_SIZE && 0 <= j < PAYLOAD_SIZE && k != slot ==>
          entry[k, j] == old(entry[k, j])
      {
        entry[slot, i] := data[i];
        i := i + 1;
      }
      forall k | 0 <= k < count ensures Queue()[k] == old(Queue())[k] {
        assert Place(k) != slot;
      }
    }

    /** Reads a frame byte by byte from a slot. */
    method Fetch(slot: nat) returns (data: Frame)
      requires Valid() && slot < FIFO_SIZE
      ensures data == Slot(slot)
    {
      var d: seq<uint8> := [];
      while |d| < PAYLOAD_SIZE
        invariant |d| <= PAYLOAD_SIZE
        invariant forall j :: 0 <= j < |d| ==> d[j] == entry[slot, j]
      {
        d := d + [entry[slot, |d|]];
      }
      data := d;
    }
  }
}
