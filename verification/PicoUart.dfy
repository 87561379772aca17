/**
 The interrupt-driven serial port of uart/PicoUart.cpp. Its interrupt handler may run between any two steps of the
 program while the interrupt controller lets it: it drains the transmit ring into the data register as far as the
 hardware takes bytes, fills the receive ring with what has arrived, and turns the transmit interrupt off when the
 transmit ring is empty.
 */
module PicoUartModel {
  import opened Base
  import opened RingBufferModel

  lemma Longer(a: Bytes, b: Bytes, c: Bytes)
    requires a + b <= a + c
    ensures b <= c
  {
    assert (a + b)[|a|..] == b && (a + c)[|a|..] == c;
  }

  lemma Assoc(a: Bytes, b: Bytes, c: Bytes)
    ensures a + (b + c) == a + b + c
  {
  }

  lemma FrontTaken(a: Bytes, b: Bytes)
    requires b != []
    ensures a + [b[0]] + b[1..] == a + b
  {
    assert b == [b[0]] + b[1..];
  }

  class PicoUart {
    const tx: RingBuffer
    const rx: RingBuffer
    /** The transmit interrupt's mask bit, and whether the interrupt controller passes interrupts on. */
    var txEnabled: bool
    var nvicEnabled: bool
    /** Everything written to the data register. */
    var sent: Bytes
    /** The bytes that ever entered the two rings, those taken out by reads, and how many found no room. */
    ghost var queued: Bytes
    ghost var accepted: Bytes
    ghost var taken: Bytes
    ghost var lost: nat
    /** The hardware: what has arrived and not been read from it, how many bytes it has room for, all that arrived. */
    var fifo: Bytes
    var room: nat
    ghost var arrived: Bytes

    ghost predicate Inv()
      reads this, tx, tx.buffer, rx, rx.buffer
    {
      && tx != rx && tx.buffer != rx.buffer && tx.Valid() && rx.Valid()
      && queued == sent + tx.Contents()
      && accepted == taken + rx.Contents()
      && |arrived| == |accepted| + lost + |fifo|
      && (lost == 0 ==> arrived == accepted + fifo)
    }

    /** Since `lost0` no byte has been lost, or the ring was full with what `taken0` leaves of the bytes accepted. */
    ghost predicate LostIfFull(lost0: nat, taken0: Bytes)
      reads this`lost, this`accepted
    {
      lost > lost0 ==> |accepted| >= |taken0| + rx.buffer.Length - 1
    }

    /** No byte waits in the ring without an interrupt that will send it. */
    ghost predicate Awake()
      requires tx.Valid()
      reads this, tx, tx.buffer
    {
      nvicEnabled && (tx.Contents() != [] ==> txEnabled)
    }

    constructor (txSize: nat, rxSize: nat)
      requires txSize > 0 && rxSize > 0
      ensures Inv() && Awake() && fresh(tx) && fresh(tx.buffer) && fresh(rx) && fresh(rx.buffer)
      ensures queued == [] && accepted == [] && taken == [] && lost == 0
    {
      tx := new RingBuffer(txSize);
      rx := new RingBuffer(rxSize);
      txEnabled, nvicEnabled, sent := false, true, [];
      queued, accepted, taken, lost := [], [], [], 0;
      fifo, room, arrived := [], 0, [];
    }

    /** Any bytes may arrive, and the hardware may make room. */
    method Hardware()
      requires Inv()
      modifies this`fifo, this`room, this`arrived
      ensures Inv() && old(fifo) <= fifo && old(arrived) <= arrived
    {
      var more: Bytes := *;
      Assoc(accepted, fifo, more);
      fifo, arrived := fifo + more, arrived + more;
      room := *;
    }

    /** uart_irq_rx: what has arrived goes into the ring as far as there is room, and the rest is lost. */
    method IrqRx()
      requires Inv()
      modifies this`accepted, this`lost, this`fifo, rx`head, rx.buffer
      ensures Inv() && fifo == []
      ensures var n := Min(|old(fifo)|, rx.buffer.Length - 1 - |old(rx.Contents())|);
              && accepted == old(accepted) + old(fifo)[..n]
              && lost == old(lost) + |old(fifo)| - n
    {
      hide RingBuffer.Contents, RingBuffer.IsFull;
      ghost var all, held := fifo, rx.Contents();
      ghost var n := Min(|all|, rx.buffer.Length - 1 - |held|);
      ghost var done := 0;
      while fifo != []
        invariant Inv() && done <= |all| && fifo == all[done..]
        invariant accepted == old(accepted) + all[..Min(done, n)]
        invariant lost == old(lost) + done - Min(done, n)
        invariant |rx.Contents()| == |held| + Min(done, n)
        decreases |fifo|
      {
        rx.FullIff();
        assert all[..done + 1] == all[..done] + [all[done]];
        var c := fifo[0];
        FrontTaken(accepted, fifo);
        fifo := fifo[1..];
        var ok := rx.Put(c);
        if ok {
          accepted := accepted + [c];
        } else {
          lost := lost + 1;
        }
        done := done + 1;
      }
    }

    /** uart_irq_tx: the oldest bytes of the ring are sent, as many as the hardware has room for. */
    method IrqTx()
      requires Inv()
      modifies this`sent, this`txEnabled, this`room, tx`tail
      ensures Inv() && room == old(room) - Min(old(room), |old(tx.Contents())|)
      ensures sent == old(sent) + old(tx.Contents())[..Min(old(room), |old(tx.Contents())|)]
      ensures txEnabled == (old(txEnabled) && tx.Contents() != [])
    {
      hide RingBuffer.Contents, RingBuffer.Peek;
      ghost var all, done := tx.Contents(), 0;
      while !tx.IsEmpty() && room > 0
        invariant Inv() && done <= Min(old(room), |all|) && room == old(room) - done && txEnabled == old(txEnabled)
        invariant tx.Contents() == all[done..] && sent == old(sent) + all[..done]
        decreases room
      {
        ghost var waiting := tx.Contents();
        FrontTaken(sent, waiting);
        assert all[..done + 1] == all[..done] + [waiting[0]] && waiting[1..] == all[done + 1..];
        var value := tx.Get();
        sent := sent + [value];
        room, done := room - 1, done + 1;
      }
      if tx.IsEmpty() {
        txEnabled := false;
      }
    }

    /** pico_uart0_handler, after whatever the hardware has done. */
    method Handler()
      requires Inv()
      modifies this`sent, this`txEnabled, this`accepted, this`lost, this`fifo, this`room, this`arrived
      modifies tx`tail, rx`head, rx.buffer
      ensures Inv() && old(sent) <= sent && old(accepted) <= accepted
      ensures txEnabled == (old(txEnabled) && tx.Contents() != []) && |tx.Contents()| <= old(|tx.Contents()|)
      ensures lost > old(lost) ==> |rx.Contents()| == rx.buffer.Length - 1
      ensures |rx.Contents()| >= old(|rx.Contents()|)
    {
      hide RingBuffer.Contents;
      Hardware();
      IrqRx();
      IrqTx();
    }

    /** Any number of interrupts, at a point between two steps of the program. */
    method Interrupts()
      requires Inv()
      modifies this`sent, this`txEnabled, this`accepted, this`lost, this`fifo, this`room, this`arrived
      modifies tx`tail, rx`head, rx.buffer
      ensures Inv() && old(sent) <= sent && old(accepted) <= accepted
      ensures !nvicEnabled ==> unchanged(this) && unchanged(tx) && unchanged(rx) && unchanged(rx.buffer)
      ensures txEnabled ==> old(txEnabled)
      ensures old(txEnabled) && !txEnabled ==> tx.Contents() == []
      ensures |tx.Contents()| <= old(|tx.Contents()|)
      ensures LostIfFull(old(lost), taken)
    {
      hide RingBuffer.Contents;
      if nvicEnabled {
        var times: nat :| times >= 0;
        for i := 0 to times
          invariant Inv() && old(sent) <= sent && old(accepted) <= accepted
          invariant txEnabled ==> old(txEnabled)
          invariant old(txEnabled) && !txEnabled ==> tx.Contents() == []
          invariant |tx.Contents()| <= old(|tx.Contents()|)
          invariant LostIfFull(old(lost), taken)
        {
          Handler();
        }
      }
    }

    /** The first steps of RingBuffer::put on the transmit ring: the byte stands in its slot, not yet queued. */
    method StoreInterrupted(data: byte) returns (ok: bool, nh: nat)
      requires Inv() && !tx.IsFull()
      modifies this`sent, this`txEnabled, this`accepted, this`lost, this`fifo, this`room, this`arrived
      modifies tx`tail, tx.buffer, rx`head, rx.buffer
      ensures Inv() && ok && !tx.IsFull() && nh == tx.Next(tx.head) && tx.buffer[tx.head] == data
      ensures old(sent) <= sent && old(accepted) <= accepted && LostIfFull(old(lost), taken)
    {
      hide RingBuffer.Contents, RingBuffer.Next;
      tx.FullIff();
      Interrupts();
      nh := tx.Next(tx.head);
      Interrupts();
      tx.FullIff();
      if nh == tx.tail {
        return false, nh;
      }
      Interrupts();
      tx.FullIff();
      tx.Store(data);
      ok := true;
    }

    /** RingBuffer::put on the transmit ring, step by step, with interrupts between the steps. */
    method PutInterrupted(data: byte) returns (ok: bool)
      requires Inv() && !tx.IsFull()
      modifies this`sent, this`txEnabled, this`queued, this`accepted, this`lost, this`fifo, this`room, this`arrived
      modifies tx, tx.buffer, rx`head, rx.buffer
      ensures Inv() && ok && queued == old(queued) + [data] && old(sent) <= sent
      ensures old(accepted) <= accepted && LostIfFull(old(lost), old(taken))
    {
      hide RingBuffer.Contents, RingBuffer.Next;
      var nh;
      ok, nh := StoreInterrupted(data);
      if !ok {
        return;
      }
      tx.FullIff();
      Interrupts();
      tx.FullIff();
      ghost var waiting := tx.Contents();
      tx.Advance(nh);
      queued := queued + [data];
      Assoc(sent, waiting, [data]);
      Interrupts();
    }

    /**
     PicoUart::write, with interrupts between any two steps that allow them. The bytes it accepts are queued in order
     behind what was queued before; it stops early only when the ring was full; and when it returns, whatever the
     interrupts did meanwhile, bytes left in the ring have the transmit interrupt enabled.
     */
    method Write(data: Bytes) returns (count: nat)
      requires Inv() && Awake()
      modifies this`sent, this`txEnabled, this`nvicEnabled, this`queued
      modifies this`accepted, this`lost, this`fifo, this`room, this`arrived
      modifies tx, tx.buffer, rx`head, rx.buffer
      ensures Inv() && Awake() && count <= |data|
      ensures queued == old(queued) + data[..count] && old(sent) <= sent
      ensures count < |data| ==> old(|tx.Contents()|) + count >= tx.buffer.Length - 1
      ensures old(accepted) <= accepted && LostIfFull(old(lost), old(taken))
    {
      hide RingBuffer.Contents, RingBuffer.Next;
      count := 0;
      Interrupts();
      var room := !tx.IsFull();
      while count < |data| && room
        invariant Inv() && nvicEnabled && count <= |data|
        invariant queued == old(queued) + data[..count] && old(sent) <= sent
        invariant old(accepted) <= accepted && LostIfFull(old(lost), old(taken))
        invariant room == !tx.IsFull()
        decreases |data| - count
      {
        var ok := PutInterrupted(data[count]);
        assert data[..count + 1] == data[..count] + [data[count]];
        count := count + 1;
        Interrupts();
        room := !tx.IsFull();
      }
      tx.FullIff();
      Wake();
    }

    /** The end of write: with interrupts held off, the transmit interrupt is turned on and given a first filling. */
    method Wake()
      requires Inv() && nvicEnabled
      modifies this`sent, this`txEnabled, this`nvicEnabled, this`accepted, this`lost, this`fifo, this`room, this`arrived
      modifies tx`tail, rx`head, rx.buffer
      ensures Inv() && Awake() && old(sent) <= sent && old(accepted) <= accepted
      ensures LostIfFull(old(lost), old(taken))
    {
      hide RingBuffer.Contents;
      Interrupts();
      nvicEnabled := false;
      if !txEnabled {
        txEnabled := true;
        IrqTx();
      }
      nvicEnabled := true;
      Interrupts();
    }

    /** RingBuffer::get on the receive ring, step by step, with interrupts between the steps. */
    method GetInterrupted() returns (value: byte)
      requires Inv() && Awake() && rx.Contents() != []
      modifies this`sent, this`txEnabled, this`accepted, this`taken, this`lost, this`fifo, this`room, this`arrived
      modifies tx`tail, rx, rx.buffer
      ensures Inv() && Awake() && taken == old(taken) + [value] && old(sent) <= sent
      ensures LostIfFull(old(lost), old(taken))
      ensures old(accepted) <= accepted && |rx.Contents()| >= old(|rx.Contents()|) - 1
    {
      hide RingBuffer.Contents;
      Interrupts();
      ghost var waiting := rx.Contents();
      value := rx.Peek();
      Interrupts();
      ghost var now := rx.Contents();
      Longer(taken, waiting, now);
      rx.Drop();
      FrontTaken(taken, now);
      taken := taken + [value];
      Interrupts();
    }

    /** PicoUart::read, likewise: it takes out the oldest bytes that were accepted and not yet taken, in order. */
    method ReadBytes(size: nat) returns (bytes: Bytes)
      requires Inv() && Awake()
      modifies this`sent, this`txEnabled, this`accepted, this`taken, this`lost, this`fifo, this`room, this`arrived
      modifies tx`tail, rx, rx.buffer
      ensures Inv() && Awake() && |bytes| <= size
      ensures taken == old(taken) + bytes && old(sent) <= sent && queued == old(queued)
      ensures LostIfFull(old(lost), old(taken))
      ensures |bytes| < size ==> |bytes| >= old(|rx.Contents()|)
    {
      hide RingBuffer.Contents;
      bytes := [];
      Interrupts();
      var some := !rx.IsEmpty();
      while |bytes| < size && some
        invariant Inv() && Awake() && |bytes| <= size
        invariant taken == old(taken) + bytes && old(sent) <= sent
        invariant LostIfFull(old(lost), old(taken))
        invariant some ==> rx.Contents() != []
        invariant |bytes| + |rx.Contents()| >= old(|rx.Contents()|)
        invariant !some ==> |bytes| >= old(|rx.Contents()|)
        decreases size - |bytes|, some
      {
        var value := GetInterrupted();
        bytes := bytes + [value];
        Interrupts();
        some := !rx.IsEmpty();
      }
    }
  }
}
