/** The TCP glue (mqtt/IPStack.cpp): a circular receive buffer between lwIP's callback and the MQTT client. */
module IPStackModel {
  import opened Base

  const BUF_SIZE := 2048

  /** Index of the `i`-th byte of a ring that starts at `rd`. */
  function Slot(rd: nat, i: nat): (k: nat)
    requires rd < BUF_SIZE && i < BUF_SIZE
    ensures k < BUF_SIZE
  {
    if rd + i < BUF_SIZE then rd + i else rd + i - BUF_SIZE
  }

  /** An index moved on by `n` slots. */
  function Advance(i: nat, n: nat): (k: nat)
    ensures k < BUF_SIZE
  {
    (i + n) % BUF_SIZE
  }

  /** The value a `uint32_t` counter shows. */
  function Wrap32(n: nat): nat { n % 0x1_0000_0000 }

  /** The `count` bytes of `s` from `rd` on, around the end. */
  function Ring(s: Bytes, rd: nat, count: nat): (r: Bytes)
    requires |s| == BUF_SIZE && rd < BUF_SIZE && count <= BUF_SIZE
    ensures |r| == count
    ensures forall i :: 0 <= i < count ==> r[i] == s[Slot(rd, i)]
  {
    if rd + count <= BUF_SIZE then s[rd..rd + count] else s[rd..] + s[..rd + count - BUF_SIZE]
  }

  function Flatten(segments: seq<Bytes>): Bytes {
    if segments == [] then [] else segments[0] + Flatten(segments[1..])
  }

  lemma Regroup(a: Bytes, b: Bytes, c: Bytes)
    ensures a + (b + c) == a + b + c
  {
  }

  /** Taking the first `n` bytes off a ring. */
  lemma RingTake(s: Bytes, rd: nat, count: nat, n: nat)
    requires |s| == BUF_SIZE && rd < BUF_SIZE && n <= count <= BUF_SIZE
    ensures Ring(s, rd, count) == Ring(s, rd, n) + Ring(s, Advance(rd, n), count - n)
  {
    hide Ring;
    var rd' := Advance(rd, n);
    var taken, left := Ring(s, rd, n), Ring(s, rd', count - n);
    forall i | 0 <= i < count
      ensures Ring(s, rd, count)[i] == (taken + left)[i]
    {
      if i >= n {
        assert left[i - n] == s[Slot(rd', i - n)];
      } else {
        assert taken[i] == s[Slot(rd, i)];
      }
    }
  }

  /** Filling the free slots after a ring. */
  lemma RingPut(s: Bytes, t: Bytes, rd: nat, count: nat, data: Bytes)
    requires |s| == |t| == BUF_SIZE && rd < BUF_SIZE && count + |data| <= BUF_SIZE
    requires forall i :: 0 <= i < count ==> t[Slot(rd, i)] == s[Slot(rd, i)]
    requires forall i :: 0 <= i < |data| ==> t[Slot(rd, count + i)] == data[i]
    ensures Ring(t, rd, count + |data|) == Ring(s, rd, count) + data
  {
    hide Ring;
    forall i | 0 <= i < count + |data|
      ensures Ring(t, rd, count + |data|)[i] == (Ring(s, rd, count) + data)[i]
    {
      if i >= count {
        assert t[Slot(rd, count + (i - count))] == data[i - count];
      }
    }
  }

  /** Moving the read index forward and counting down leaves the write index where it was. */
  lemma IndexAdvance(rd: nat, count: nat, n: nat)
    requires rd < BUF_SIZE && n <= count <= BUF_SIZE
    ensures Advance(Advance(rd, n), count - n) == Advance(rd, count)
  {
    WrapOnce(rd, n);
    WrapOnce(Advance(rd, n), count - n);
    WrapOnce(rd, count);
    hide Advance;
  }

  lemma WrapOnce(i: nat, n: nat)
    requires i < BUF_SIZE && n <= BUF_SIZE
    ensures Advance(i, n) == if i + n < BUF_SIZE then i + n else i + n - BUF_SIZE
  {
  }

  lemma WriteAdvance(rd: nat, count: nat, n: nat)
    requires rd < BUF_SIZE && count + n <= BUF_SIZE
    ensures Advance(rd, count + n) == Advance(Advance(rd, count), n)
  {
    WrapOnce(rd, count + n);
    WrapOnce(rd, count);
    WrapOnce(Advance(rd, count), n);
    hide Advance;
  }

  /** Where the bytes stored from `wr` on stand, seen from the ring's start. */
  lemma StoredAt(s: Bytes, t: Bytes, rd: nat, count: nat, data: Bytes, wr: nat)
    requires |s| == |t| == BUF_SIZE && rd < BUF_SIZE && count + |data| <= BUF_SIZE
    requires wr == Advance(rd, count)
    requires forall i :: 0 <= i < |data| ==> t[Slot(wr, i)] == data[i]
    requires forall k :: 0 <= k < BUF_SIZE && !(wr <= k < wr + |data| || k + BUF_SIZE < wr + |data|) ==> t[k] == s[k]
    ensures Ring(t, rd, count + |data|) == Ring(s, rd, count) + data
  {
    hide Ring;
    forall i | 0 <= i < |data|
      ensures t[Slot(rd, count + i)] == data[i]
    {
      assert Slot(rd, count + i) == Slot(wr, i);
    }
    RingPut(s, t, rd, count, data);
  }

  class IPStack {
    const buffer: array<byte>
    var count: nat
    var dropped: nat   // uint32_t, not set by the constructor
    var wr: nat
    var rd: nat

    // The environment: segments the peer has yet to deliver, and bytes handed to tcp_write.
    var wire: seq<Bytes>
    ghost var sent: Bytes

    // What happened so far.
    ghost var accepted: Bytes
    ghost var delivered: Bytes
    ghost var lost: nat
    ghost var starved: nat   // reads that ran out of time short of what they asked for
    ghost var polled: nat    // how often lwIP was asked for what has come
    ghost var failures: nat  // writes that failed
    ghost const dropped0: nat

    ghost predicate Valid()
      reads this`count, this`dropped, this`wr, this`rd, this`wire, this`accepted, this`delivered, this`lost, buffer
    {
      && buffer.Length == BUF_SIZE
      && wr < BUF_SIZE && rd < BUF_SIZE && count <= BUF_SIZE
      && wr == Advance(rd, count)
      && dropped == Wrap32(dropped0 + lost)
      && (forall k :: 0 <= k < |wire| ==> |wire[k]| < 65536)
      && accepted == delivered + Held()
    }

    /** The bytes in the ring, oldest first. */
    ghost function Held(): Bytes
      reads this`count, this`rd, buffer
      requires buffer.Length == BUF_SIZE && rd < BUF_SIZE && count <= BUF_SIZE
    {
      Ring(buffer[..], rd, count)
    }

    /** Everything the client can still read, if nothing is dropped. */
    ghost function Incoming(): Bytes
      reads this`count, this`rd, this`wire, buffer
      requires buffer.Length == BUF_SIZE && rd < BUF_SIZE && count <= BUF_SIZE
    {
      Held() + Flatten(wire)
    }

    constructor (segments: seq<Bytes>)
      requires forall k :: 0 <= k < |segments| ==> |segments[k]| < 65536
      ensures Valid() && fresh(buffer) && Held() == [] && wire == segments && lost == 0
    {
      buffer := new byte[BUF_SIZE];
      count, wr, rd := 0, 0, 0;
      var garbage: nat := *;
      dropped := Wrap32(garbage);
      dropped0 := garbage;
      wire, sent, accepted, delivered, lost, starved := segments, [], [], [], 0, 0;
      polled, failures := 0, 0;
    }

    /** pbuf_copy_partial: `len` bytes of the packet from `offset` on, to `buffer[at..]`. */
    method PbufCopyPartial(p: Bytes, at: nat, len: nat, offset: nat) returns (copied: nat)
      requires at + len <= buffer.Length && offset + len <= |p|
      modifies buffer
      ensures copied == len
      ensures forall i :: at <= i < at + len ==> buffer[i] == p[offset + (i - at)]
      ensures forall i :: 0 <= i < buffer.Length && !(at <= i < at + len) ==> buffer[i] == old(buffer[i])
    {
      forall i | 0 <= i < len {
        buffer[at + i] := p[offset + i];
      }
      copied := len;
    }

    /** The copying part of tcp_client_recv: `n` bytes of the packet go after the ring, in one or two copies. */
    method Store(p: Bytes, n: nat)
      requires buffer.Length == BUF_SIZE && wr < BUF_SIZE && n <= BUF_SIZE && n <= |p|
      modifies this`count, this`wr, buffer
      ensures count == old(count) + n && wr == Advance(old(wr), n)
      ensures forall i :: 0 <= i < n ==> buffer[Slot(old(wr), i)] == p[i]
      ensures forall k :: 0 <= k < BUF_SIZE && !(old(wr) <= k < old(wr) + n || k + BUF_SIZE < old(wr) + n) ==>
                buffer[k] == old(buffer[k])
    {
      var bytesToCopy := n;
      var wrEnd := wr + bytesToCopy;
      var firstCopy := 0;
      if wrEnd > BUF_SIZE {
        firstCopy := BUF_SIZE - wr;
        if firstCopy != 0 {
          var c := PbufCopyPartial(p, wr, firstCopy, 0);
          bytesToCopy := bytesToCopy - c;
          wr := 0;
        }
        count := count + firstCopy;
      }
      var c := PbufCopyPartial(p, wr, bytesToCopy, firstCopy);
      wr := wr + c;
      wr := wr % BUF_SIZE;
      count := count + bytesToCopy;
    }

    /**
     tcp_client_recv: as much of the packet as there is room for goes to the ring, and the rest is counted as
     dropped. `None` stands for the null packet of a closed connection.
     */
    method TcpClientRecv(packet: Option<Bytes>)
      requires Valid()
      requires packet.Some? ==> |packet.value| < 65536
      modifies this`count, this`dropped, this`wr, this`accepted, this`lost, buffer
      ensures Valid() && count >= old(count)
      ensures var p := if packet.Some? then packet.value else [];
              var n := Min(BUF_SIZE - old(count), |p|);
              && Held() == old(Held()) + p[..n]
              && lost == old(lost) + (|p| - n)
              && accepted == old(accepted) + p[..n]
    {
      hide Ring, Advance, Wrap32;
      if packet.None? {
        return;
      }
      var p := packet.value;
      if |p| > 0 {
        var available := BUF_SIZE - count;
        var bytesToCopy := if available > |p| then |p| else available;
        if bytesToCopy < |p| {
          DroppedWraps(lost, |p| - bytesToCopy);
          dropped := Wrap32(dropped + (|p| - bytesToCopy));
          lost := lost + (|p| - bytesToCopy);
        }
        ghost var was, wr0, count0 := buffer[..], wr, count;
        WriteAdvance(rd, count, bytesToCopy);
        Store(p, bytesToCopy);
        StoredAt(was, buffer[..], rd, count0, p[..bytesToCopy], wr0);
        Regroup(delivered, Ring(was, rd, count0), p[..bytesToCopy]);
        accepted := accepted + p[..bytesToCopy];
      }
    }

    lemma DroppedWraps(was: nat, more: nat)
      ensures Wrap32(Wrap32(dropped0 + was) + more) == Wrap32(dropped0 + (was + more))
    {
    }

    /** cyw43_arch_poll: lwIP hands over however many of the pending segments it likes. */
    method Poll()
      requires Valid()
      modifies this`count, this`dropped, this`wr, this`accepted, this`lost, this`wire, this`polled, buffer
      ensures Valid()
      ensures lost >= old(lost)
      ensures lost == old(lost) ==> Incoming() == old(Incoming())
      ensures old(accepted) <= accepted
      ensures count >= old(count) && |wire| <= old(|wire|) && polled == old(polled) + 1
    {
      hide Ring, Advance, Wrap32;
      polled := polled + 1;
      var more: bool := *;
      while more && wire != []
        invariant Valid()
        invariant lost >= old(lost)
        invariant lost == old(lost) ==> Incoming() == old(Incoming())
        invariant old(accepted) <= accepted
        invariant count >= old(count) && |wire| <= old(|wire|) && polled == old(polled) + 1
        decreases |wire|
      {
        ghost var held, segment, rest := Held(), wire[0], Flatten(wire[1..]);
        TcpClientRecv(Some(wire[0]));
        wire := wire[1..];
        Regroup(held, segment, rest);
        assert segment[..|segment|] == segment;
        more := *;
      }
    }

    /**
     IPStack::read: polls until `len` bytes are here or the time is up (`polls` turns of the loop after the first),
     then copies what there is, in one or two parts, to `dst[at..]`.
     */
    method Read(dst: array<byte>, at: nat, len: nat, polls: nat) returns (rc: nat)
      requires Valid() && dst != buffer && at + len <= dst.Length
      modifies this`count, this`dropped, this`wr, this`rd, this`accepted, this`delivered, this`lost, this`wire
      modifies this`starved, this`polled, buffer, dst
      ensures Valid()
      ensures polled > old(polled) && (rc < len ==> polled == old(polled) + 1 + polls)
      ensures rc + count >= old(count) && (rc < len ==> count == 0)
      ensures rc <= len && starved == old(starved) + if rc < len then 1 else 0
      ensures delivered == old(delivered) + dst[at..at + rc]
      ensures old(accepted) <= accepted
      ensures lost >= old(lost)
      ensures lost == old(lost) ==> old(Incoming()) == dst[at..at + rc] + Incoming()
      ensures forall i :: 0 <= i < dst.Length && !(at <= i < at + rc) ==> dst[i] == old(dst[i])
    {
      Await(len, polls);
      rc := Take(dst, at, len);
      starved := if rc < len then starved + 1 else starved;
    }

    /** The polling loop of IPStack::read. */
    method Await(len: nat, polls: nat)
      requires Valid()
      modifies this`count, this`dropped, this`wr, this`accepted, this`lost, this`wire, this`polled, buffer
      ensures Valid()
      ensures old(accepted) <= accepted && count >= old(count)
      ensures lost >= old(lost)
      ensures lost == old(lost) ==> Incoming() == old(Incoming())
      ensures polled > old(polled) && (count < len ==> polled == old(polled) + 1 + polls)
    {
      Poll();
      var turns := polls;
      while count < len && turns > 0
        invariant Valid()
        invariant lost >= old(lost)
        invariant lost == old(lost) ==> Incoming() == old(Incoming())
        invariant old(accepted) <= accepted && count >= old(count)
        invariant 0 <= turns <= polls && polled == old(polled) + 1 + (polls - turns)
        decreases turns
      {
        Poll();
        turns := turns - 1;
      }
    }

    method Take(dst: array<byte>, at: nat, len: nat) returns (rc: nat)
      requires Valid() && dst != buffer && at + len <= dst.Length
      modifies this`count, this`rd, this`delivered, dst
      ensures Valid()
      ensures rc == Min(old(count), len) && count == old(count) - rc
      ensures delivered == old(delivered) + dst[at..at + rc]
      ensures old(Incoming()) == dst[at..at + rc] + Incoming()
      ensures forall i :: 0 <= i < dst.Length && !(at <= i < at + rc) ==> dst[i] == old(dst[i])
    {
      hide Ring, Advance, Wrap32, Flatten;
      ghost var rd0, count0 := rd, count;
      rc := CopyOut(dst, at, len);
      RingTake(buffer[..], rd0, count0, rc);
      IndexAdvance(rd0, count0, rc);
      assert dst[at..at + rc] == Ring(buffer[..], rd0, rc);
      Regroup(delivered, dst[at..at + rc], Held());
      Regroup(dst[at..at + rc], Held(), Flatten(wire));
      delivered := delivered + dst[at..at + rc];
    }

    /** The copying half of IPStack::read. */
    method CopyOut(dst: array<byte>, at: nat, len: nat) returns (rc: nat)
      requires buffer.Length == BUF_SIZE && rd < BUF_SIZE && count <= BUF_SIZE
      requires dst != buffer && at + len <= dst.Length
      modifies this`count, this`rd, dst
      ensures rc == Min(old(count), len)
      ensures count == old(count) - rc && rd == Advance(old(rd), rc)
      ensures forall i :: 0 <= i < rc ==> dst[at + i] == buffer[Slot(old(rd), i)]
      ensures forall i :: 0 <= i < dst.Length && !(at <= i < at + rc) ==> dst[i] == old(dst[i])
    {
      var firstCopy := 0;
      var bytesToCopy := if count < len then count else len;
      if bytesToCopy != 0 {
        var rdEnd := rd + bytesToCopy;
        if rdEnd > BUF_SIZE {
          firstCopy := BUF_SIZE - rd;
          if firstCopy != 0 {
            MemCpy(dst, at, rd, firstCopy);
            bytesToCopy := bytesToCopy - firstCopy;
            count := count - firstCopy;
          }
          MemCpy(dst, at + firstCopy, 0, bytesToCopy);
          rd := bytesToCopy;
        } else {
          MemCpy(dst, at, rd, bytesToCopy);
          rd := (rd + bytesToCopy) % BUF_SIZE;
        }
        count := count - bytesToCopy;
      }
      rc := bytesToCopy + firstCopy;
    }

    method MemCpy(dst: array<byte>, at: nat, from: nat, n: nat)
      requires dst != buffer && at + n <= dst.Length && from + n <= buffer.Length
      modifies dst
      ensures forall i :: at <= i < at + n ==> dst[i] == buffer[from + (i - at)]
      ensures forall i :: 0 <= i < dst.Length && !(at <= i < at + n) ==> dst[i] == old(dst[i])
    {
      forall i | 0 <= i < n {
        dst[at + i] := buffer[from + i];
      }
    }

    /**
     The write side of a Network: it takes any part of the data, or fails. IPStack::write itself takes all or
     fails; after a failure nothing is known of what was queued.
     */
    method Write(src: array<byte>, at: nat, len: nat) returns (rc: int)
      requires at + len <= src.Length
      modifies this`sent, this`failures
      ensures -2 <= rc <= len
      ensures rc >= 0 ==> sent == old(sent) + src[at..at + rc]
      ensures failures == old(failures) + if rc < 0 then 1 else 0
    {
      rc := *;
      if rc < -2 || rc > len {
        rc := len;
      }
      failures := failures + if rc < 0 then 1 else 0;
      sent := sent + if rc >= 0 then src[at..at + rc] else src[at..at + len];
    }
  }
}
