/** The ring of uart/RingBuffer.cpp: one slot stays free, so that equal indexes mean empty. */
module RingBufferModel {
  import opened Base

  class RingBuffer {
    var head: nat
    var tail: nat
    const buffer: array<byte>

    predicate Valid()
      reads this
    {
      head < buffer.Length && tail < buffer.Length
    }

    /** What is in the ring, oldest first. */
    function Contents(): (c: Bytes)
      requires Valid()
      reads this, buffer
      ensures |c| < buffer.Length
      ensures c == [] <==> head == tail
    {
      if tail <= head then buffer[tail..head] else buffer[tail..] + buffer[..head]
    }

    constructor (size: nat)
      requires size > 0
      ensures Valid() && Contents() == [] && fresh(buffer) && buffer.Length == size
    {
      head, tail := 0, 0;
      buffer := new byte[size];
    }

    predicate IsEmpty()
      requires Valid()
      reads this
    {
      head == tail
    }

    /** The index after `i`. */
    function Next(i: nat): nat
      requires i < buffer.Length
    {
      (i + 1) % buffer.Length
    }

    predicate IsFull()
      requires Valid()
      reads this
    {
      Next(head) == tail
    }

    /** Full means that all slots but one are taken. */
    lemma FullIff()
      requires Valid()
      ensures IsFull() <==> |Contents()| == buffer.Length - 1
    {
      NextIs(head);
    }

    lemma NextIs(i: nat)
      requires i < buffer.Length
      ensures Next(i) == if i + 1 == buffer.Length then 0 else i + 1
    {
    }

    /** The first half of put: the byte goes into the free slot, where no one looks yet. */
    method Store(data: byte)
      requires Valid()
      modifies buffer
      ensures Valid() && Contents() == old(Contents()) && buffer[head] == data
    {
      buffer[head] := data;
    }

    /** The second half: the slot becomes part of the ring. */
    method Advance(nh: nat)
      requires Valid() && !IsFull() && nh == Next(head)
      modifies this`head
      ensures Valid() && head == nh && Contents() == old(Contents()) + [buffer[old(head)]]
    {
      NextIs(head);
      head := nh;
    }

    method Put(data: byte) returns (ok: bool)
      requires Valid()
      modifies this`head, buffer
      ensures Valid() && ok == !old(IsFull())
      ensures Contents() == if ok then old(Contents()) + [data] else old(Contents())
    {
      var nh := (head + 1) % buffer.Length;
      if nh == tail {
        return false;
      }
      Store(data);
      Advance(nh);
      return true;
    }

    /** The first half of get: what the oldest slot holds. */
    function Peek(): (value: byte)
      requires Valid()
      reads this, buffer
      ensures Contents() != [] ==> value == Contents()[0]
    {
      buffer[tail]
    }

    /** The second half: the slot is given back, unless the ring is empty. */
    method Drop()
      requires Valid()
      modifies this`tail
      ensures Valid() && Contents() == if old(Contents()) == [] then [] else old(Contents())[1..]
    {
      NextIs(tail);
      if head != tail {
        tail := (tail + 1) % buffer.Length;
      }
    }

    /** The oldest byte; from an empty ring, whatever its slot holds. */
    method Get() returns (value: byte)
      requires Valid()
      modifies this`tail
      ensures Valid() && value == old(Peek())
      ensures Contents() == if old(Contents()) == [] then [] else old(Contents())[1..]
    {
      value := Peek();
      Drop();
    }
  }
}
