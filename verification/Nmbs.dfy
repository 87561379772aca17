/**
 The nanoMODBUS instance (modbus/nanomodbus.c): one message buffer with a moving index, used for everything that is
 received and sent. Each method is proved against the functions of ModbusWire and ModbusProtocol.

 The transport is a line: `incoming` holds the bytes that are still to arrive, after which reads time out or fail, and
 `outgoing` everything that was written. The application is `server`, and `calls` the calls made to it so far.
 */
module NmbsModel {
  import opened Base
  import opened Crc16
  import opened ModbusWire
  import opened ModbusProtocol

  datatype Msg = Msg(unit: byte, fc: byte, tid: u16, broadcast: bool, ignored: bool)

  /** A 16-bit value with its bytes exchanged. */
  function SwapBytes(v: u16): u16 { Word16(v % 256, v / 256) }

  /** Pairs of bytes, each exchanged. */
  function Swapped(b: Bytes): (r: Bytes)
    requires |b| % 2 == 0
    ensures |r| == |b|
  {
    if b == [] then [] else [b[1], b[0]] + Swapped(b[2..])
  }

  lemma {:induction false} SwappedAt(b: Bytes, i: nat)
    requires |b| % 2 == 0 && 2 * i + 1 < |b|
    ensures Swapped(b)[2 * i] == b[2 * i + 1] && Swapped(b)[2 * i + 1] == b[2 * i]
    decreases i
  {
    if i > 0 {
      SwappedAt(b[2..], i - 1);
    }
  }

  /** 16-bit values as a little-endian host finds them in memory. */
  function HostRegisters(b: Bytes): (r: seq<u16>)
    ensures |r| == |b| / 2
  {
    seq(|b| / 2, i requires 0 <= i < |b| / 2 => Word16(b[2 * i + 1], b[2 * i]))
  }

  /** The second exchange restores the bytes of the message. */
  lemma {:induction false} SwapBack(b: Bytes)
    requires |b| % 2 == 0
    ensures Swapped(Swapped(b)) == b
    decreases |b|
  {
    if b != [] {
      SwapBack(b[2..]);
      assert Swapped(b)[2..] == Swapped(b[2..]);
      assert b == [b[0], b[1]] + b[2..];
    }
  }

  /** After the exchange the host reads the registers the message means. */
  lemma SwappedIsHost(b: Bytes)
    requires |b| % 2 == 0
    ensures HostRegisters(Swapped(b)) == RegistersOf(b)
  {
    forall i | 0 <= i < |b| / 2
      ensures HostRegisters(Swapped(b))[i] == RegistersOf(b)[i]
    {
      SwappedAt(b, i);
    }
  }

  /** Registers as a little-endian host keeps them in memory. */
  function HostBytes(regs: seq<u16>): (r: Bytes)
    ensures |r| == 2 * |regs|
  {
    if regs == [] then [] else [regs[0] % 256, regs[0] / 256] + HostBytes(regs[1..])
  }

  lemma {:induction false} HostBytesSwapped(regs: seq<u16>)
    ensures Swapped(HostBytes(regs)) == RegisterBytes(regs)
    decreases |regs|
  {
    if regs != [] {
      var b := HostBytes(regs);
      HostBytesSwapped(regs[1..]);
      assert b[2..] == HostBytes(regs[1..]);
      assert Swapped(b) == BigEndian(regs[0]) + RegisterBytes(regs[1..]);
      RegisterBytesFirst(regs);
    }
  }

  lemma {:induction false} RegisterBytesFirst(regs: seq<u16>)
    requires regs != []
    ensures RegisterBytes(regs) == BigEndian(regs[0]) + RegisterBytes(regs[1..])
    decreases |regs|
  {
    hide BigEndian;
    var n := |regs| - 1;
    if n == 0 {
      assert regs[..0] == [] && regs[1..] == [];
    } else {
      RegisterBytesFirst(regs[..n]);
      assert regs[..n][1..] == regs[1..][..n - 1];
    }
  }

  /** A buffer whose registers from the `k`th to the `n`th after `start` are exchanged. */
  function SwappedFrom(was: Bytes, start: nat, k: nat, n: nat): (r: Bytes)
    requires k <= n && start + 2 * n <= |was|
    ensures |r| == |was|
  {
    was[..start + 2 * k] + Swapped(was[start + 2 * k..start + 2 * n]) + was[start + 2 * n..]
  }

  lemma SwapStep(was: Bytes, start: nat, k: nat, n: nat)
    requires k < n && start + 2 * n <= |was|
    ensures var i := start + 2 * k;
            var now := SwappedFrom(was, start, k + 1, n);
            && now[i] == was[i] && now[i + 1] == was[i + 1]
            && SwappedFrom(was, start, k, n) == now[i := was[i + 1]][i + 1 := was[i]]
  {
    var i := start + 2 * k;
    var b := was[i..start + 2 * n];
    assert b[2..] == was[i + 2..start + 2 * n];
    assert was[..i + 2] == was[..i] + [was[i], was[i + 1]];
  }

  lemma SwapEnds(was: Bytes, start: nat, n: nat)
    requires start + 2 * n <= |was|
    ensures SwappedFrom(was, start, n, n) == was
    ensures SwappedFrom(was, start, 0, n) == was[..start] + Swapped(was[start..start + 2 * n]) + was[start + 2 * n..]
  {
  }

  lemma SwappedTwice(was: Bytes, start: nat, n: nat)
    requires start + 2 * n <= |was|
    ensures var e := start + 2 * n;
            var once := was[..start] + Swapped(was[start..e]) + was[e..];
            once[..start] + Swapped(once[start..e]) + once[e..] == was
  {
    hide Swapped;
    var e := start + 2 * n;
    var once := was[..start] + Swapped(was[start..e]) + was[e..];
    assert once[start..e] == Swapped(was[start..e]);
    SwapBack(was[start..e]);
  }

  lemma SwapOnce(hi: byte, lo: byte)
    ensures SwapBytes(Word16(hi, lo)) % 256 == hi && SwapBytes(Word16(hi, lo)) / 256 == lo
  {
    WordParts(hi, lo);
    WordParts(lo, hi);
  }

  lemma CoilsAreCells(coils: Bytes, given: Bytes)
    requires |coils| == 250 && |given| <= 250 && coils[..|given|] == given
    requires forall i :: |given| <= i < 250 ==> coils[i] == 0
    ensures coils == Cells(given, 250, 0)
  {
    assert forall i :: 0 <= i < |given| ==> coils[i] == coils[..|given|][i];
  }

  lemma SizeGrows(size: nat, length: u16)
    ensures (size % 256 + 2 + 2 * length) % 256 == (size + 2 + 2 * length) % 256
  {
  }

  lemma {:induction false} ReadSizeGrows(parts: seq<Part>, i: nat)
    requires i <= |parts|
    ensures ReadSize(parts[..i]) <= ReadSize(parts)
    decreases |parts| - i
  {
    if i < |parts| {
      assert parts[..i + 1][..i] == parts[..i];
      ReadSizeGrows(parts, i + 1);
    } else {
      assert parts[..i] == parts;
    }
  }

  lemma ReadRecordsNone(s: Server, done: seq<Call>, unit: byte, parts: seq<Part>)
    requires parts == []
    ensures ReadRecords(s, done, unit, parts) == ([], Reply(0, []))
  {
  }

  lemma ReadRecordsNext(s: Server, done: seq<Call>, unit: byte, parts: seq<Part>, i: nat, made: seq<Call>, data: Bytes)
    requires i < |parts| && ReadRecords(s, done, unit, parts[..i]) == (made, Reply(0, data))
    ensures var p := parts[i];
            var c := AskFile(p.file, p.record, p.length, unit);
            var e := s.app(done + made, c).err;
            ReadRecords(s, done, unit, parts[..i + 1])
              == (made + [c],
                  if e != NONE then Raise(if IsException(e) then e else SERVER_DEVICE_FAILURE)
                  else Reply(0, data + ([(2 * p.length + 1) % 256, 6] +
                                        RegisterBytes(RegistersGiven(s, done + made, c, p.length)))))
  {
    hide RegisterBytes, RegistersGiven;
    assert parts[..i + 1][..i] == parts[..i];
    var p := parts[i];
    var regs := RegisterBytes(RegistersGiven(s, done + made, AskFile(p.file, p.record, p.length, unit), p.length));
    assert data + [(2 * p.length + 1) % 256, 6] + regs == data + ([(2 * p.length + 1) % 256, 6] + regs);
  }

  /** A file read stops at the first callback that fails. */
  lemma {:induction false} ReadRecordsStop(s: Server, done: seq<Call>, unit: byte, parts: seq<Part>, i: nat)
    requires i <= |parts| && !ReadRecords(s, done, unit, parts[..i]).1.Reply?
    ensures ReadRecords(s, done, unit, parts) == ReadRecords(s, done, unit, parts[..i])
    decreases |parts| - i
  {
    if i < |parts| {
      assert parts[..i + 1][..i] == parts[..i];
      ReadRecordsStop(s, done, unit, parts, i + 1);
    } else {
      assert parts[..i] == parts;
    }
  }

  lemma {:induction false} ReadPartsAt(b: Bytes, i: nat)
    requires 7 * i + 7 <= |b|
    ensures ReadParts(b)[i] == PartAt(b, 7 * i)
    decreases i
  {
    hide Word16;
    if i > 0 {
      ReadPartsAt(b[7..], i - 1);
    }
  }

  /** The first sub-request of a walkable stretch, read where it lies in the message. */
  lemma WalkStep(m: Bytes, i: nat, e: nat)
    requires i + PART_HEADER <= e <= |m| && Walkable(m[i..e])
    ensures var next := i + PART_HEADER + 2 * PartAt(m, i).length;
            && PartAt(m[i..e], 0) == PartAt(m, i) && next <= e
            && m[i..e][PART_HEADER..PART_HEADER + 2 * PartAt(m, i).length] == m[i + PART_HEADER..next]
            && m[i..e][PART_HEADER + 2 * PartAt(m, i).length..] == m[next..e]
            && (e - next >= PART_HEADER ==> Walkable(m[next..e]))
  {
    hide Word16;
    assert PartAt(m[i..e], 0) == PartAt(m, i);
    SliceOfSlice(m, i, e, PART_HEADER, PART_HEADER + 2 * PartAt(m, i).length);
    SliceOfSlice(m, i, e, PART_HEADER + 2 * PartAt(m, i).length, e - i);
  }

  lemma CheckNext(m: Bytes, i: nat, e: nat)
    requires i + PART_HEADER <= e <= |m| && Walkable(m[i..e])
    ensures var p := PartAt(m, i);
            var next := i + PART_HEADER + 2 * p.length;
            next <= e && (e - next >= PART_HEADER ==> Walkable(m[next..e])) &&
            CheckParts(m[i..e])
              == if !GoodPart(p, 122) then ILLEGAL_DATA_ADDRESS
                 else if e - next >= PART_HEADER then CheckParts(m[next..e])
                 else if e != next then ILLEGAL_DATA_VALUE
                 else 0
  {
    hide PartAt;
    WalkStep(m, i, e);
  }

  lemma WriteNext(s: Server, done: seq<Call>, unit: byte, m: Bytes, i: nat, e: nat)
    requires i + PART_HEADER <= e <= |m| && Walkable(m[i..e])
    ensures var p := PartAt(m, i);
            var next := i + PART_HEADER + 2 * p.length;
            next <= e && (e - next >= PART_HEADER ==> Walkable(m[next..e])) &&
            var c := SetFile(p.file, p.record, RegistersOf(m[i + PART_HEADER..next]), unit);
            WriteRecords(s, done, unit, m[i..e])
              == if 21 !in s.installed then ([], ILLEGAL_FUNCTION)
                 else if Code(s, done, c) != 0 then ([c], Code(s, done, c))
                 else if e - next < PART_HEADER then ([c], 0)
                 else
                   var rest := WriteRecords(s, done + [c], unit, m[next..e]);
                   ([c] + rest.0, rest.1)
  {
    hide RegistersOf, Code, PartAt;
    WalkStep(m, i, e);
  }

  lemma BodyCame(t: Transport, fails: bool, m: Bytes, size: nat)
    requires BodyStatus(t, fails, m, size) == NONE
    ensures |m| >= Lead(t) + size + Tail(t)
  {
  }

  class Nmbs {
    const transport: Transport
    const addressRtu: byte
    const destAddressRtu: byte
    const server: Server
    const readFails: bool
    const writeStatus: int
    const buf: array<byte>
    var bufIdx: nat
    var msg: Msg
    var currentTid: u16
    var incoming: Bytes
    var outgoing: Bytes
    var calls: seq<Call>

    /** nmbs_create, nmbs_client_create and nmbs_server_create, with an instance's surroundings. */
    constructor (transport: Transport, addressRtu: byte, destAddressRtu: byte, server: Server, readFails: bool,
                 writeStatus: int, incoming: Bytes)
      requires writeStatus in {NONE, TIMEOUT, TRANSPORT}
      ensures Ready() && fresh(buf) && this.incoming == incoming && outgoing == [] && calls == [] && currentTid == 0
      ensures this.transport == transport && this.addressRtu == addressRtu && this.destAddressRtu == destAddressRtu
      ensures this.server == server && this.readFails == readFails && this.writeStatus == writeStatus
    {
      this.transport, this.addressRtu, this.destAddressRtu := transport, addressRtu, destAddressRtu;
      this.server, this.readFails, this.writeStatus := server, readFails, writeStatus;
      buf := new byte[BUFFER_SIZE](_ => 0);
      bufIdx, msg, currentTid := 0, Msg(0, 0, 0, false, false), 0;
      this.incoming, outgoing, calls := incoming, [], [];
    }

    /** The first `p` bytes of the message `m` are in the buffer and the rest is still to come. */
    predicate At(m: Bytes, p: nat)
      reads this, buf
    {
      buf.Length == BUFFER_SIZE && bufIdx <= p <= |m| && p <= BUFFER_SIZE && buf[..p] == m[..p] && incoming == m[p..]
    }

    // ----- Reading and writing the buffer -----

    method Get1(ghost m: Bytes, ghost p: nat) returns (r: byte)
      requires At(m, p) && bufIdx + 1 <= p
      modifies this`bufIdx
      ensures At(m, p) && bufIdx == old(bufIdx) + 1 && r == m[old(bufIdx)]
    {
      r := buf[bufIdx];
      assert r == buf[..p][bufIdx];
      bufIdx := bufIdx + 1;
    }

    method Get2(ghost m: Bytes, ghost p: nat) returns (r: u16)
      requires At(m, p) && bufIdx + 2 <= p
      modifies this`bufIdx
      ensures At(m, p) && bufIdx == old(bufIdx) + 2 && r == Word16(m[old(bufIdx)], m[old(bufIdx) + 1])
    {
      r := Word16(buf[bufIdx], buf[bufIdx + 1]);
      assert buf[bufIdx] == buf[..p][bufIdx] && buf[bufIdx + 1] == buf[..p][bufIdx + 1];
      bufIdx := bufIdx + 2;
    }

    method Put1(v: byte)
      requires bufIdx < buf.Length
      modifies this`bufIdx, buf
      ensures bufIdx == old(bufIdx) + 1 && bufIdx <= buf.Length && buf[..bufIdx] == old(buf[..bufIdx]) + [v]
    {
      buf[bufIdx] := v;
      bufIdx := bufIdx + 1;
    }

    method Put2(v: u16)
      requires bufIdx + 2 <= buf.Length
      modifies this`bufIdx, buf
      ensures bufIdx == old(bufIdx) + 2 && bufIdx <= buf.Length && buf[..bufIdx] == old(buf[..bufIdx]) + BigEndian(v)
    {
      buf[bufIdx] := v / 256;
      buf[bufIdx + 1] := v % 256;
      bufIdx := bufIdx + 2;
    }

    /** A `uint16_t` of a little-endian host in the buffer. */
    method StoreHost(i: nat, v: u16)
      requires i + 2 <= buf.Length
      modifies buf
      ensures buf[..] == old(buf[..])[i := v % 256][i + 1 := v / 256]
    {
      buf[i] := v % 256;
      buf[i + 1] := v / 256;
    }

    method PutRegs(data: seq<u16>)
      requires bufIdx + 2 * |data| <= buf.Length
      modifies this`bufIdx, buf
      ensures bufIdx == old(bufIdx) + 2 * |data| && bufIdx <= buf.Length
      ensures buf[..bufIdx] == old(buf[..bufIdx]) + RegisterBytes(data)
    {
      var start := bufIdx;
      ghost var before := buf[..bufIdx];
      bufIdx := bufIdx + 2 * |data|;
      var n := |data|;
      while n > 0
        invariant 0 <= n <= |data|
        invariant buf[..start] == before
        invariant buf[start + 2 * n..bufIdx] == RegisterBytes(data)[2 * n..]
        modifies buf
      {
        n := n - 1;
        ghost var was := buf[..];
        StoreHost(start + 2 * n, SwapBytes(data[n]));
        RegisterBytesAt(data, n);
        assert buf[..start] == was[..start];
        assert buf[start + 2 * n + 2..bufIdx] == was[start + 2 * n + 2..bufIdx];
        assert buf[start + 2 * n..bufIdx] == [data[n] / 256, data[n] % 256] + buf[start + 2 * n + 2..bufIdx];
        assert RegisterBytes(data)[2 * n..] == [data[n] / 256, data[n] % 256] + RegisterBytes(data)[2 * n + 2..];
      }
      assert buf[..bufIdx] == buf[..start] + buf[start..bufIdx];
    }

    /** swap_regs: `n` registers exchanged in place. */
    method SwapRegs(start: nat, n: nat)
      requires start + 2 * n <= buf.Length
      modifies buf
      ensures buf[..] == old(buf[..start]) + Swapped(old(buf[start..start + 2 * n])) + old(buf[start + 2 * n..])
    {
      hide SwappedFrom, Swapped, SwapBytes, Word16;
      ghost var was := buf[..];
      var k := n;
      SwapEnds(was, start, n);
      while k > 0
        invariant 0 <= k <= n
        invariant buf[..] == SwappedFrom(was, start, k, n)
      {
        k := k - 1;
        SwapStep(was, start, k, n);
        var i := start + 2 * k;
        SwapOnce(buf[i + 1], buf[i]);
        StoreHost(i, SwapBytes(Word16(buf[i + 1], buf[i])));
      }
    }

    // ----- The line -----

    /** The platform's read: what has not come in time is lost to this message. */
    method Read(start: nat, count: nat) returns (ret: int)
      requires start + count <= buf.Length
      modifies this`incoming, buf
      ensures |old(incoming)| >= count ==>
                && ret == count && incoming == old(incoming)[count..]
                && buf[start..start + count] == old(incoming)[..count]
      ensures |old(incoming)| < count ==> ret == (if readFails then -1 else |old(incoming)|) && incoming == []
      ensures buf[..start] == old(buf[..start])
    {
      var n := if count <= |incoming| then count else |incoming|;
      var i := 0;
      while i < n
        invariant 0 <= i <= n
        invariant buf[..start] == old(buf[..start]) && buf[start..start + i] == incoming[..i]
        modifies buf
      {
        buf[start + i] := incoming[i];
        i := i + 1;
        assert buf[start..start + i] == buf[start..start + i - 1] + [incoming[i - 1]];
      }
      ret := if n < count && readFails then -1 else n;
      incoming := incoming[n..];
    }

    method Recv(ghost m: Bytes, count: nat) returns (err: int)
      requires At(m, bufIdx) && bufIdx + count <= BUFFER_SIZE
      modifies this`incoming, buf
      ensures err == if |m| >= bufIdx + count then NONE else Lack(readFails)
      ensures if err == NONE then At(m, bufIdx + count) else incoming == []
    {
      var ret := Read(bufIdx, count);
      if ret == count {
        assert buf[..bufIdx + count] == buf[..bufIdx] + buf[bufIdx..bufIdx + count];
        assert m[..bufIdx + count] == m[..bufIdx] + m[bufIdx..][..count];
        return NONE;
      }
      if ret < count {
        if ret < 0 {
          return TRANSPORT;
        }
        return TIMEOUT;
      }
      return TRANSPORT;
    }

    /** The platform's write puts the whole message on the line, or fails as `writeStatus` says. */
    method Write(count: nat) returns (ret: int)
      requires count <= buf.Length
      modifies this`outgoing
      ensures ret == if writeStatus == NONE then count else if writeStatus == TIMEOUT then 0 else -1
      ensures outgoing == old(outgoing) + if writeStatus == NONE then buf[..count] else []
    {
      ret := if writeStatus == NONE then count else if writeStatus == TIMEOUT then 0 else -1;
      outgoing := outgoing + if writeStatus == NONE then buf[..count] else [];
    }

    method Send(count: nat) returns (err: int)
      requires 0 < count <= buf.Length && writeStatus in {NONE, TIMEOUT, TRANSPORT}
      modifies this`outgoing
      ensures err == writeStatus && outgoing == old(outgoing) + if writeStatus == NONE then buf[..count] else []
    {
      var ret := Write(count);
      if ret == count {
        return NONE;
      }
      if ret < count {
        if ret < 0 {
          return TRANSPORT;
        }
        return TIMEOUT;
      }
      return TRANSPORT;
    }

    // ----- Framing -----

    predicate Ready()
      reads this
    {
      buf.Length == BUFFER_SIZE && writeStatus in {NONE, TIMEOUT, TRANSPORT}
    }

    method RecvMsgFooter(ghost m: Bytes) returns (err: int)
      requires At(m, bufIdx) && Lead(transport) <= bufIdx && bufIdx + Tail(transport) <= BUFFER_SIZE
      modifies this`incoming, this`bufIdx, buf
      ensures err == BodyStatus(transport, readFails, m, old(bufIdx) - Lead(transport))
      ensures incoming == m[Used(transport, m, old(bufIdx) - Lead(transport))..]
      ensures err == NONE ==> bufIdx == old(bufIdx) + Tail(transport) && At(m, bufIdx)
    {
      if transport == Rtu {
        var crc := CrcCalc(buf, bufIdx);
        err := Recv(m, 2);
        if err != NONE {
          return;
        }
        ghost var n := bufIdx;
        var recvCrc := Get2(m, bufIdx + 2);
        assert m[..n + 2][..n] == m[..n];
        if recvCrc != crc {
          return CRC;
        }
      }
      return NONE;
    }

    method MsgStateReset()
      modifies this`bufIdx, this`msg
      ensures bufIdx == 0 && msg == Msg(0, 0, 0, false, false)
    {
      bufIdx := 0;
      msg := Msg(0, 0, 0, false, false);
    }

    method RecvMsgHeader(ghost m: Bytes) returns (err: int, firstByteReceived: bool)
      requires Ready() && incoming == m
      modifies this`incoming, this`bufIdx, this`msg, buf
      ensures err == HeaderStatus(transport, readFails, m) && firstByteReceived == (|m| > 0) && !msg.ignored
      ensures incoming == m[if |m| < Lead(transport) then |m| else Lead(transport)..]
      ensures err == NONE ==>
                bufIdx == Lead(transport) && At(m, bufIdx) &&
                msg == Msg(UnitOf(transport, m), FcOf(transport, m), TidOf(transport, m), false, false)
    {
      hide Word16;
      MsgStateReset();
      firstByteReceived := false;
      if transport == Rtu {
        err := Recv(m, 1);
        if err != NONE {
          return;
        }
        firstByteReceived := true;
        var unit := Get1(m, 1);
        msg := msg.(unit := unit);
        err := Recv(m, 1);
        if err != NONE {
          return;
        }
        var fc := Get1(m, 2);
        msg := msg.(fc := fc);
      } else {
        err := Recv(m, 1);
        if err != NONE {
          return;
        }
        firstByteReceived := true;
        bufIdx := bufIdx + 1;
        err := Recv(m, 7);
        if err != NONE {
          return;
        }
        bufIdx := 0;
        var tid := Get2(m, 8);
        var protocol := Get2(m, 8);
        var length := Get2(m, 8);
        var unit := Get1(m, 8);
        var fc := Get1(m, 8);
        msg := msg.(tid := tid, unit := unit, fc := fc);
        if protocol != 0 {
          return INVALID_TCP_MBAP, true;
        }
        if length > 255 {
          return INVALID_TCP_MBAP, true;
        }
      }
      return NONE, true;
    }

    method PutMsgHeader(length: nat)
      requires Ready() && length <= 65533
      modifies this`bufIdx, buf
      ensures bufIdx == Lead(transport) && buf[..bufIdx] == Header(transport, msg.tid, msg.unit, msg.fc, length)
    {
      bufIdx := 0;
      if transport == Rtu {
        Put1(msg.unit);
      } else {
        Put2(msg.tid);
        Put2(0);
        Put2(1 + 1 + length);
        Put1(msg.unit);
      }
      Put1(msg.fc);
    }

    method SendMsg() returns (err: int)
      requires Ready() && 0 < bufIdx && bufIdx + Tail(transport) <= BUFFER_SIZE
      modifies this`bufIdx, this`outgoing, buf
      ensures err == writeStatus
      ensures outgoing == old(outgoing) + if writeStatus == NONE then Sealed(transport, old(buf[..bufIdx])) else []
    {
      if transport == Rtu {
        var crc := CrcCalc(buf, bufIdx);
        Put2(crc);
      }
      err := Send(bufIdx);
    }

    /** What a verdict on the message `m` with `size` bytes of data adds to the line. */
    function Emitted(m: Bytes, size: nat, v: Verdict): Bytes
      requires v.Echo? ==> Lead(transport) + size <= |m|
      requires |m| >= Lead(transport)
    {
      if writeStatus != NONE then []
      else Response(transport, TidOf(transport, m), UnitOf(transport, m), FcOf(transport, m), m, size, v)
    }

    method SendExceptionMsg(exception: byte) returns (err: int)
      requires Ready()
      modifies this`bufIdx, this`outgoing, this`msg, buf
      ensures msg.ignored == old(msg.ignored)
      ensures err == writeStatus
      ensures outgoing == old(outgoing) +
                          if writeStatus != NONE then []
                          else
                            Packet(transport, old(msg.tid), old(msg.unit), (old(msg.fc) + 0x80) % 256, 1, [exception])
    {
      msg := msg.(fc := (msg.fc + 0x80) % 256);
      PutMsgHeader(1);
      Put1(exception);
      err := SendMsg();
    }

    /** Where reading a response stops when its head already decides the result. */
    ghost function HeadUsed(m: Bytes, unit: byte, fc: byte, tid: u16): nat {
      if |m| < Lead(transport) then |m|
      else if HeaderStatus(transport, readFails, m) == NONE && (transport.Tcp? ==> TidOf(transport, m) == tid)
              && (transport.Rtu? ==> UnitOf(transport, m) == unit) && FcOf(transport, m) - 0x80 == fc
      then Used(transport, m, 1)
      else Lead(transport)
    }

    method RecvResHeader(ghost m: Bytes) returns (err: int)
      requires Ready() && incoming == m
      modifies this`incoming, this`bufIdx, this`msg, buf
      ensures err == ResponseHead(transport, readFails, old(msg.unit), old(msg.fc), old(msg.tid), m) && !msg.ignored
      ensures incoming == m[HeadUsed(m, old(msg.unit), old(msg.fc), old(msg.tid))..]
      ensures err == NONE ==> bufIdx == Lead(transport) && At(m, bufIdx)
    {
      var reqTransactionId, reqUnitId, reqFc := msg.tid, msg.unit, msg.fc;
      var first;
      err, first := RecvMsgHeader(m);
      if err != NONE {
        return;
      }
      if transport == Tcp {
        if msg.tid != reqTransactionId {
          return INVALID_TCP_MBAP;
        }
      }
      if transport == Rtu && msg.unit != reqUnitId {
        return INVALID_UNIT_ID;
      }
      if msg.fc != reqFc {
        if msg.fc - 0x80 == reqFc {
          err := Recv(m, 1);
          if err != NONE {
            return;
          }
          var exception := Get1(m, bufIdx + 1);
          err := RecvMsgFooter(m);
          if err != NONE {
            return;
          }
          if exception < 1 || exception > 4 {
            return INVALID_RESPONSE;
          }
          return exception;
        }
        return INVALID_RESPONSE;
      }
      return NONE;
    }

    // ----- Loops that take bytes or registers out of the buffer -----

    method GetBytes(ghost m: Bytes, ghost p: nat, n: nat, out: array?<byte>)
      requires At(m, p) && bufIdx + n <= p && out != buf && (out != null ==> n <= out.Length)
      modifies this`bufIdx, out
      ensures bufIdx == old(bufIdx) + n && At(m, p)
      ensures out != null ==> out[..n] == m[old(bufIdx)..old(bufIdx) + n] && out[n..] == old(out[n..])
    {
      ghost var start := bufIdx;
      for i := 0 to n
        invariant bufIdx == start + i && At(m, p)
        invariant out != null ==> out[..i] == m[start..start + i] && out[n..] == old(out[n..])
      {
        var v := Get1(m, p);
        if out != null {
          out[i] := v;
          assert out[..i + 1] == out[..i] + [v];
        }
      }
    }

    method GetRegisters(ghost m: Bytes, ghost p: nat, n: nat, out: array?<u16>)
      requires At(m, p) && bufIdx + 2 * n <= p && (out != null ==> n <= out.Length)
      modifies this`bufIdx, out
      ensures bufIdx == old(bufIdx) + 2 * n && At(m, p)
      ensures out != null ==> out[..n] == RegistersOf(m[old(bufIdx)..old(bufIdx) + 2 * n]) && out[n..] == old(out[n..])
    {
      ghost var start := bufIdx;
      ghost var regs := RegistersOf(m[start..start + 2 * n]);
      for i := 0 to n
        invariant bufIdx == start + 2 * i && At(m, p)
        invariant out != null ==> out[..i] == regs[..i] && out[n..] == old(out[n..])
      {
        var v := Get2(m, p);
        if out != null {
          out[i] := v;
          assert regs[i] == v;
          assert out[..i + 1] == out[..i] + [v] == regs[..i + 1];
        }
      }
    }

    // ----- Responses -----

    /** A response whose counted bytes are whole cells that fit the message buffer and an output of `room` cells. */
    predicate ResponseFits(m: Bytes, unit: byte, fc: byte, tid: u16, cell: nat, room: nat)
      requires cell > 0
    {
      ResponseHead(transport, readFails, unit, fc, tid, m) == NONE ==>
        && Lead(transport) + Counted(transport, m, 0) + Tail(transport) <= BUFFER_SIZE
        && (Counted(transport, m, 0) - 1) % cell == 0 && (Counted(transport, m, 0) - 1) / cell <= room
    }

    /** What reading a response leaves of `m`, for one with `size` bytes of data. */
    ghost function ResponseUsed(m: Bytes, unit: byte, fc: byte, tid: u16, size: nat): nat {
      if ResponseHead(transport, readFails, unit, fc, tid, m) != NONE then HeadUsed(m, unit, fc, tid)
      else Used(transport, m, size)
    }

    /** The head of a response to the request in `msg` is good and the counted bytes have come. */
    predicate CountedCame(m: Bytes)
      reads this`msg
    {
      && ResponseHead(transport, readFails, msg.unit, msg.fc, msg.tid, m) == NONE
      && |m| > Lead(transport) && |m| >= Lead(transport) + Counted(transport, m, 0)
    }

    /** The head of a response, its byte count, and the bytes counted, still to be taken from the buffer. */
    method RecvCounted(ghost m: Bytes) returns (err: int, n: byte)
      requires Ready() && incoming == m
      requires ResponseHead(transport, readFails, msg.unit, msg.fc, msg.tid, m) == NONE ==>
                 Lead(transport) + Counted(transport, m, 0) <= BUFFER_SIZE
      modifies this`incoming, this`bufIdx, this`msg, buf
      ensures !msg.ignored
      ensures err != NONE ==>
                && err == (var head := ResponseHead(transport, readFails, old(msg.unit), old(msg.fc), old(msg.tid), m);
                           if head != NONE then head else BodyStatus(transport, readFails, m, Counted(transport, m, 0)))
                && incoming == m[ResponseUsed(m, old(msg.unit), old(msg.fc), old(msg.tid), Counted(transport, m, 0))..]
      ensures err == NONE ==>
                && ResponseHead(transport, readFails, old(msg.unit), old(msg.fc), old(msg.tid), m) == NONE
                && |m| > Lead(transport) && n == m[Lead(transport)] && bufIdx == Lead(transport) + 1
                && At(m, Lead(transport) + 1 + n)
      ensures old(CountedCame(m)) ==> err == NONE
    {
      hide ResponseHead, Accepts, HeadUsed;
      n := 0;
      err := RecvResHeader(m);
      if err != NONE {
        return;
      }
      err := Recv(m, 1);
      if err != NONE {
        return;
      }
      n := Get1(m, bufIdx + 1);
      err := Recv(m, n);
    }

    method RecvReadDiscreteRes(ghost m: Bytes, values: array?<byte>) returns (err: int)
      requires Ready() && incoming == m && values != buf
      requires ResponseFits(m, msg.unit, msg.fc, msg.tid, 1, if values == null then 255 else values.Length)
      modifies this`incoming, this`bufIdx, this`msg, buf, values
      ensures !msg.ignored
      ensures var head := ResponseHead(transport, readFails, old(msg.unit), old(msg.fc), old(msg.tid), m);
              err == if head != NONE then head else BitsStatus(transport, readFails, m)
      ensures incoming == m[ResponseUsed(m, old(msg.unit), old(msg.fc), old(msg.tid), Counted(transport, m, 0))..]
      ensures err == NONE && values != null ==>
                && |m| >= Lead(transport) + Counted(transport, m, 0) && |m| > Lead(transport)
                && values.Length >= m[Lead(transport)] && values[..m[Lead(transport)]] == BitsRead(transport, m)
    {
      hide ResponseHead, HeadUsed, BodyStatus;
      var coilsBytes;
      err, coilsBytes := RecvCounted(m);
      if err != NONE {
        return;
      }
      GetBytes(m, bufIdx + coilsBytes, coilsBytes, values);
      err := RecvMsgFooter(m);
      if err == NONE {
        BodyCame(transport, readFails, m, Counted(transport, m, 0));
      }
    }

    /**
     recv_read_registers_res. All the registers that came have been stored when their number is compared with
     `quantity`, and when the CRC is.
     */
    method RecvReadRegistersRes(ghost m: Bytes, quantity: u16, registers: array?<u16>) returns (err: int)
      requires Ready() && incoming == m
      requires ResponseFits(m, msg.unit, msg.fc, msg.tid, 2, if registers == null then 127 else registers.Length)
      modifies this`incoming, this`bufIdx, this`msg, buf, registers
      ensures !msg.ignored
      ensures var head := ResponseHead(transport, readFails, old(msg.unit), old(msg.fc), old(msg.tid), m);
              err == if head != NONE then head else RegistersStatus(transport, readFails, m, quantity)
      ensures incoming == m[ResponseUsed(m, old(msg.unit), old(msg.fc), old(msg.tid), Counted(transport, m, 0))..]
      ensures err == NONE && registers != null ==>
                && |m| >= Lead(transport) + 1 + 2 * quantity && registers.Length >= quantity
                && registers[..quantity] == RegistersRead(transport, m, 1, quantity)
      ensures registers != null && old(CountedCame(m)) ==>
                var count := m[Lead(transport)] / 2;
                && count <= registers.Length && registers[..count] == RegistersRead(transport, m, 1, count)
                && registers[count..] == old(registers[count..])
    {
      hide ResponseHead, HeadUsed, BodyStatus, RegistersOf;
      var registersBytes;
      err, registersBytes := RecvCounted(m);
      if err != NONE {
        return;
      }
      GetRegisters(m, bufIdx + registersBytes, registersBytes / 2, registers);
      err := RecvMsgFooter(m);
      if err != NONE {
        return;
      }
      BodyCame(transport, readFails, m, Counted(transport, m, 0));
      if registersBytes != quantity * 2 {
        return INVALID_RESPONSE;
      }
    }

    /** recv_write_single_coil_res, recv_write_single_register_res, recv_write_multiple_coils_res and
        recv_write_multiple_registers_res: four copies of one function. */
    method RecvEchoRes(ghost m: Bytes, address: u16, value: u16) returns (err: int)
      requires Ready() && incoming == m
      modifies this`incoming, this`bufIdx, this`msg, buf
      ensures !msg.ignored
      ensures var head := ResponseHead(transport, readFails, old(msg.unit), old(msg.fc), old(msg.tid), m);
              err == if head != NONE then head else EchoStatus(transport, readFails, m, address, value)
      ensures incoming == m[ResponseUsed(m, old(msg.unit), old(msg.fc), old(msg.tid), 4)..]
    {
      hide ResponseHead, HeadUsed, Accepts;
      err := RecvResHeader(m);
      if err != NONE {
        return;
      }
      err := Recv(m, 4);
      if err != NONE {
        return;
      }
      var addressRes := Get2(m, bufIdx + 4);
      var valueRes := Get2(m, bufIdx + 2);
      err := RecvMsgFooter(m);
      if err != NONE {
        return;
      }
      if addressRes != address {
        return INVALID_RESPONSE;
      }
      if valueRes != value {
        return INVALID_RESPONSE;
      }
    }

    method RecvReadFileRecordRes(ghost m: Bytes, registers: array?<u16>, count: u16) returns (err: int)
      requires Ready() && incoming == m && (registers != null ==> count <= registers.Length)
      requires ResponseFits(m, msg.unit, msg.fc, msg.tid, 1, 255)
      requires ResponseHead(transport, readFails, msg.unit, msg.fc, msg.tid, m) == NONE ==> ReadFileSized(transport, m)
      modifies this`incoming, this`bufIdx, this`msg, buf, registers
      ensures !msg.ignored
      ensures var head := ResponseHead(transport, readFails, old(msg.unit), old(msg.fc), old(msg.tid), m);
              err == if head != NONE then head
                     else ReadFileStatus(transport, readFails, m, if registers == null then None else Some(count))
      ensures incoming == m[ResponseUsed(m, old(msg.unit), old(msg.fc), old(msg.tid), Counted(transport, m, 0))..]
      ensures err == NONE && registers != null ==>
                && |m| >= Lead(transport) + 3 + 2 * count
                && registers[..count] == RegistersRead(transport, m, 3, count)
    {
      hide ResponseHead, HeadUsed, BodyStatus, RegistersOf, ResponseUsed;
      var responseSize;
      err, responseSize := RecvCounted(m);
      if err != NONE {
        return;
      }
      ResponseEnds(m, old(msg.unit), old(msg.fc), old(msg.tid), Counted(transport, m, 0));
      err := TakeReadRecord(m, registers, count);
    }

    /** The rest of recv_read_file_record_res, once the counted bytes have come. */
    method TakeReadRecord(ghost m: Bytes, registers: array?<u16>, count: u16) returns (err: int)
      requires |m| >= Lead(transport) + Counted(transport, m, 0) && |m| > Lead(transport)
      requires At(m, Lead(transport) + Counted(transport, m, 0)) && bufIdx == Lead(transport) + 1
      requires Lead(transport) + Counted(transport, m, 0) + Tail(transport) <= BUFFER_SIZE
      requires ReadFileSized(transport, m) && (registers != null ==> count <= registers.Length)
      modifies this`incoming, this`bufIdx, buf, registers
      ensures err == ReadFileStatus(transport, readFails, m, if registers == null then None else Some(count))
      ensures incoming == m[Used(transport, m, Counted(transport, m, 0))..]
      ensures err == NONE && registers != null ==>
                && |m| >= Lead(transport) + 3 + 2 * count
                && registers[..count] == RegistersRead(transport, m, 3, count)
    {
      hide BodyStatus, RegistersOf, HostRegisters;
      ghost var p := bufIdx + m[Lead(transport)];
      var size := Get1(m, p);
      var subreqDataSize := (size - 1) % 256;
      var subreqReferenceType := Get1(m, p);
      var subreqRecordData := bufIdx;
      bufIdx := bufIdx + subreqDataSize;
      err := RecvMsgFooter(m);
      if err != NONE {
        return;
      }
      if registers != null {
        if subreqReferenceType != 6 {
          return INVALID_RESPONSE;
        }
        if count != subreqDataSize / 2 {
          return INVALID_RESPONSE;
        }
        SwapReceived(m, bufIdx, subreqRecordData, subreqDataSize / 2);
        CopyRegisters(subreqRecordData, count, registers);
      }
    }

    lemma ResponseEnds(m: Bytes, unit: byte, fc: byte, tid: u16, size: nat)
      requires ResponseHead(transport, readFails, unit, fc, tid, m) == NONE
      ensures ResponseUsed(m, unit, fc, tid, size) == Used(transport, m, size)
    {
    }

    /** swap_regs on registers of the message: afterwards the host reads them as meant. */
    method SwapReceived(ghost m: Bytes, ghost p: nat, start: nat, n: nat)
      requires p <= |m| && p <= buf.Length && buf[..p] == m[..p] && start + 2 * n <= p
      modifies buf
      ensures HostRegisters(buf[start..start + 2 * n]) == RegistersOf(m[start..start + 2 * n])
    {
      hide Swapped;
      ghost var data := m[start..start + 2 * n];
      assert buf[..][..p] == buf[..p];
      PrefixSlice(buf[..], m, p, start, start + 2 * n);
      SwapRegs(start, n);
      assert buf[start..start + 2 * n] == Swapped(data);
      SwappedIsHost(data);
    }

    /** memcpy of host registers out of the buffer. */
    method CopyRegisters(start: nat, n: nat, out: array<u16>)
      requires start + 2 * n <= buf.Length && n <= out.Length
      modifies out
      ensures out[..n] == HostRegisters(buf[start..start + 2 * n]) && out[n..] == old(out[n..])
    {
      forall i | 0 <= i < n {
        out[i] := Word16(buf[start + 2 * i + 1], buf[start + 2 * i]);
      }
    }

    method RecvWriteFileRecordRes(ghost m: Bytes, fileNumber: u16, recordNumber: u16, registers: Option<seq<u16>>)
      returns (err: int)
      requires Ready() && incoming == m
      requires ResponseFits(m, msg.unit, msg.fc, msg.tid, 1, 255)
      requires ResponseHead(transport, readFails, msg.unit, msg.fc, msg.tid, m) == NONE ==> WriteFileSized(transport, m)
      modifies this`incoming, this`bufIdx, this`msg, buf
      ensures !msg.ignored
      ensures var head := ResponseHead(transport, readFails, old(msg.unit), old(msg.fc), old(msg.tid), m);
              err == if head != NONE then head
                     else WriteFileStatus(transport, readFails, m, fileNumber, recordNumber, registers)
      ensures incoming == m[ResponseUsed(m, old(msg.unit), old(msg.fc), old(msg.tid), Counted(transport, m, 0))..]
    {
      hide ResponseHead, HeadUsed, BodyStatus, RegistersOf, ResponseUsed;
      var responseSize;
      err, responseSize := RecvCounted(m);
      if err != NONE {
        return;
      }
      ResponseEnds(m, old(msg.unit), old(msg.fc), old(msg.tid), Counted(transport, m, 0));
      err := TakeWrittenRecord(m, fileNumber, recordNumber, registers);
    }

    /** The rest of recv_write_file_record_res, once the counted bytes have come. */
    method TakeWrittenRecord(ghost m: Bytes, fileNumber: u16, recordNumber: u16, registers: Option<seq<u16>>)
      returns (err: int)
      requires |m| >= Lead(transport) + Counted(transport, m, 0) && |m| > Lead(transport)
      requires At(m, Lead(transport) + Counted(transport, m, 0)) && bufIdx == Lead(transport) + 1
      requires Lead(transport) + Counted(transport, m, 0) + Tail(transport) <= BUFFER_SIZE
      requires WriteFileSized(transport, m)
      modifies this`incoming, this`bufIdx, buf
      ensures err == WriteFileStatus(transport, readFails, m, fileNumber, recordNumber, registers)
      ensures incoming == m[Used(transport, m, Counted(transport, m, 0))..]
    {
      hide BodyStatus, RegistersOf, HostRegisters;
      ghost var p := bufIdx + m[Lead(transport)];
      var subreqReferenceType := Get1(m, p);
      var subreqFileNumber := Get2(m, p);
      var subreqRecordNumber := Get2(m, p);
      var subreqRecordLength := Get2(m, p);
      var subreqRecordData := bufIdx;
      bufIdx := bufIdx + 2 * subreqRecordLength;
      err := RecvMsgFooter(m);
      if err != NONE || registers.None? {
        return;
      }
      if subreqReferenceType != 6 {
        return INVALID_RESPONSE;
      }
      if subreqFileNumber != fileNumber {
        return INVALID_RESPONSE;
      }
      if subreqRecordNumber != recordNumber {
        return INVALID_RESPONSE;
      }
      if subreqRecordLength != |registers.value| {
        return INVALID_RESPONSE;
      }
      SwapReceived(m, bufIdx, subreqRecordData, subreqRecordLength);
      if HostRegisters(buf[subreqRecordData..subreqRecordData + 2 * subreqRecordLength]) != registers.value {
        return INVALID_RESPONSE;
      }
    }

    // ----- What a server does with a request -----

    /** Where a request's data puts the response that another server will send to it. */
    ghost function After(m: Bytes): Bytes
      requires |m| >= Lead(transport)
    {
      m[Used(transport, m, RequestSize(transport, FcOf(transport, m), m))..]
    }

    predicate ReplyFits(parts: seq<Part>) {
      (forall i :: 0 <= i < |parts| ==> GoodPart(parts[i], 124)) ==>
        Lead(transport) + 1 + ReadSize(parts) + Tail(transport) <= BUFFER_SIZE
    }

    /** Sizes a request declares that the handlers take on trust: they must fit the message buffer and the arrays. */
    predicate SizeFits(m: Bytes)
      requires |m| >= Lead(transport)
    {
      var fc := FcOf(transport, m);
      var n := RequestSize(transport, fc, m);
      && Lead(transport) + n + Tail(transport) <= BUFFER_SIZE
      && (fc == 15 && |m| > Lead(transport) + 4 ==> m[Lead(transport) + 4] <= 250)
      && (fc == 16 && |m| > Lead(transport) + 4 ==> m[Lead(transport) + 4] <= 246 && m[Lead(transport) + 4] % 2 == 0)
      && (fc == 23 && |m| > Lead(transport) + 8 ==> m[Lead(transport) + 8] % 2 == 0)
    }

    /** And the sub-requests of a file request, once it is there, must lie within it and have room for their replies. */
    predicate PartsFit(m: Bytes)
      requires |m| >= Lead(transport)
    {
      var fc := FcOf(transport, m);
      var n := RequestSize(transport, fc, m);
      BodyStatus(transport, readFails, m, n) == NONE ==>
        && (fc == 20 ==> ReplyFits(ReadParts(m[Lead(transport) + 1..Lead(transport) + n])))
        && (fc == 21 ==> n < 8 || n > 0xFC || Walkable(m[Lead(transport) + 1..Lead(transport) + n]))
    }

    predicate RequestFits(m: Bytes)
      requires |m| >= Lead(transport)
    {
      SizeFits(m) && PartsFit(m)
    }

    /** The response to a request for another server, which this one reads past, has sizes that agree. */
    ghost predicate OverheardFits(m: Bytes)
      requires |m| >= Lead(transport)
    {
      var unit, fc, tid := UnitOf(transport, m), FcOf(transport, m), TidOf(transport, m);
      && transport.Rtu?
      && (BodyStatus(transport, readFails, m, RequestSize(transport, fc, m)) == NONE ==>
            && WellSized(transport, readFails, fc, unit, tid, After(m))
            && (fc == 3 || fc == 4 ==> ResponseFits(After(m), unit, fc, tid, 2, 127)))
    }

    /** The result of reading past the response to a request for another server. */
    ghost function Overheard(m: Bytes): int
      requires Whole(transport, m) && OverheardFits(m)
      requires BodyStatus(transport, readFails, m, RequestSize(transport, FcOf(transport, m), m)) == NONE
    {
      var t, fc, l := transport, FcOf(transport, m), Lead(transport);
      var head := ResponseHead(t, readFails, UnitOf(t, m), fc, TidOf(t, m), After(m));
      if head != NONE then head
      else if fc <= 2 then BitsStatus(t, readFails, After(m))
      else if fc <= 4 then RegistersStatus(t, readFails, After(m), Word16(m[l + 2], m[l + 3]))
      else if fc <= 16 then EchoStatus(t, readFails, After(m), Word16(m[l], m[l + 1]), Word16(m[l + 2], m[l + 3]))
      else if fc == 20 then ReadFileStatus(t, readFails, After(m), None)
      else if fc == 21 then WriteFileStatus(t, readFails, After(m), 0, 0, None)
      else EchoStatus(t, readFails, After(m), Word16(m[l + 4], m[l + 5]), Word16(m[l + 6], m[l + 7]))
    }

    /** A known request whose header has been read. */
    ghost predicate Arrived(m: Bytes)
      reads this, buf
    {
      && Ready() && |m| >= Lead(transport) && At(m, bufIdx) && bufIdx == Lead(transport) && Known(msg.fc)
      && msg.unit == UnitOf(transport, m) && msg.fc == FcOf(transport, m) && msg.tid == TidOf(transport, m)
      && RequestFits(m) && (msg.ignored ==> OverheardFits(m))
    }

    lemma WholeRequest(m: Bytes)
      requires |m| >= Lead(transport) && Known(FcOf(transport, m)) && RequestFits(m)
      requires BodyStatus(transport, readFails, m, RequestSize(transport, FcOf(transport, m), m)) == NONE
      ensures Whole(transport, m)
    {
    }

    /** What an act for the request `m` adds to the earlier calls and to the line, and the handler's result. */
    predicate Performed(m: Bytes, act: Act, err: int, done: seq<Call>, line: Bytes)
      requires Whole(transport, m)
      reads this`calls, this`outgoing
    {
      && calls == done + act.calls
      && outgoing == line + Emitted(m, RequestSize(transport, FcOf(transport, m), m), act.verdict)
      && err == if act.verdict.Quiet? then NONE else writeStatus
    }

    method Invoke(c: Call) returns (a: Answer)
      modifies this`calls
      ensures a == server.app(old(calls), c) && calls == old(calls) + [c]
    {
      a := server.app(calls, c);
      calls := calls + [c];
    }

    /** The exception message for a callback that failed with `e`. */
    method SendFailure(e: int) returns (err: int)
      requires Ready() && e != NONE
      modifies this`bufIdx, this`outgoing, this`msg, buf
      ensures msg.ignored == old(msg.ignored)
      ensures err == writeStatus
      ensures outgoing == old(outgoing) +
                          if writeStatus != NONE then []
                          else Packet(transport, old(msg.tid), old(msg.unit), (old(msg.fc) + 0x80) % 256, 1,
                                      [if IsException(e) then e else SERVER_DEVICE_FAILURE])
    {
      if IsException(e) {
        err := SendExceptionMsg(e);
        return;
      }
      err := SendExceptionMsg(SERVER_DEVICE_FAILURE);
    }

    method PutBytes(data: Bytes)
      requires bufIdx + |data| <= buf.Length
      modifies this`bufIdx, buf
      ensures bufIdx == old(bufIdx) + |data| && bufIdx <= buf.Length && buf[..bufIdx] == old(buf[..bufIdx]) + data
    {
      for i := 0 to |data|
        invariant bufIdx == old(bufIdx) + i && bufIdx <= buf.Length && buf[..bufIdx] == old(buf[..bufIdx]) + data[..i]
      {
        Put1(data[i]);
      }
    }

    method PutWords(data: seq<u16>)
      requires bufIdx + 2 * |data| <= buf.Length
      modifies this`bufIdx, buf
      ensures bufIdx == old(bufIdx) + 2 * |data| && bufIdx <= buf.Length
      ensures buf[..bufIdx] == old(buf[..bufIdx]) + RegisterBytes(data)
    {
      hide BigEndian;
      for i := 0 to |data|
        invariant bufIdx == old(bufIdx) + 2 * i && bufIdx <= buf.Length
        invariant buf[..bufIdx] == old(buf[..bufIdx]) + RegisterBytes(data[..i])
      {
        Put2(data[i]);
        assert data[..i + 1][..i] == data[..i];
      }
      assert data[..|data|] == data;
    }

    /** Performed, from the bytes of a finished message. */
    lemma ReplyPerformed(m: Bytes, act: Act, err: int, done: seq<Call>, line: Bytes, sent: Bytes)
      requires Whole(transport, m) && act.verdict.Reply? && err == writeStatus
      requires sent == Header(transport, TidOf(transport, m), UnitOf(transport, m), FcOf(transport, m),
                              act.verdict.length) + act.verdict.data
      requires calls == done + act.calls
      requires outgoing == line + if writeStatus == NONE then Sealed(transport, sent) else []
      ensures Performed(m, act, err, done, line)
    {
    }

    lemma RaisePerformed(m: Bytes, act: Act, err: int, done: seq<Call>, line: Bytes)
      requires Whole(transport, m) && act.verdict.Raise? && err == writeStatus
      requires calls == done + act.calls
      requires outgoing == line +
                           if writeStatus != NONE then []
                           else Packet(transport, TidOf(transport, m), UnitOf(transport, m),
                                       (FcOf(transport, m) + 0x80) % 256, 1, [act.verdict.code])
      ensures Performed(m, act, err, done, line)
    {
    }

    lemma EchoPerformed(m: Bytes, act: Act, err: int, done: seq<Call>, line: Bytes)
      requires Whole(transport, m) && act.verdict.Echo? && err == writeStatus && calls == done + act.calls
      requires outgoing == line + if writeStatus != NONE then []
                                  else Sealed(transport, m[..Lead(transport) +
                                                             RequestSize(transport, FcOf(transport, m), m)])
      ensures Performed(m, act, err, done, line)
    {
    }

    lemma QuietPerformed(m: Bytes, act: Act, done: seq<Call>, line: Bytes)
      requires Whole(transport, m) && act.verdict.Quiet?
      requires calls == done + act.calls && outgoing == line
      ensures Performed(m, act, NONE, done, line)
    {
    }

    /** handle_read_discrete after the request was read. */
    method ReplyBits(ghost m: Bytes, address: u16, quantity: u16) returns (err: int)
      requires Ready() && Whole(transport, m) && !msg.ignored
      requires msg.unit == UnitOf(transport, m) && msg.fc == FcOf(transport, m) && msg.tid == TidOf(transport, m)
      modifies this`bufIdx, this`msg, this`outgoing, this`calls, buf
      ensures !msg.ignored
      ensures var act := ServeReadBits(server, old(calls), old(msg.broadcast), old(msg.unit), old(msg.fc), address,
                                       quantity);
              Performed(m, act, err, old(calls), old(outgoing))
    {
      hide Packet, Header, Sealed, Performed, Cells;
      ghost var act := ServeReadBits(server, calls, msg.broadcast, msg.unit, msg.fc, address, quantity);
      if quantity < 1 || quantity > 2000 {
        err := SendExceptionMsg(ILLEGAL_DATA_VALUE);
        RaisePerformed(m, act, err, old(calls), old(outgoing));
        return;
      }
      if address + quantity > 0xFFFF + 1 {
        err := SendExceptionMsg(ILLEGAL_DATA_ADDRESS);
        RaisePerformed(m, act, err, old(calls), old(outgoing));
        return;
      }
      if msg.fc in server.installed {
        var answer := Invoke(AskBits(msg.fc, address, quantity, msg.unit));
        if answer.err != NONE {
          err := SendFailure(answer.err);
          RaisePerformed(m, act, err, old(calls), old(outgoing));
          return;
        }
        if !msg.broadcast {
          var discreteBytes := (quantity + 7) / 8;
          var bitfield := Cells(answer.bits, discreteBytes, 0);
          PutMsgHeader(1 + discreteBytes);
          Put1(discreteBytes);
          PutBytes(bitfield);
          ghost var sent := buf[..bufIdx];
          err := SendMsg();
          ReplyPerformed(m, act, err, old(calls), old(outgoing), sent);
          return;
        }
        QuietPerformed(m, act, old(calls), old(outgoing));
      } else {
        err := SendExceptionMsg(ILLEGAL_FUNCTION);
        RaisePerformed(m, act, err, old(calls), old(outgoing));
        return;
      }
      return NONE;
    }

    /** What handling the known request `m` comes to, from the calls `done` and the line `line` before it. */
    ghost predicate Answers(m: Bytes, err: int, ignored: bool, quiet: bool, done: seq<Call>, line: Bytes)
      requires |m| >= Lead(transport) && Known(FcOf(transport, m)) && RequestFits(m)
      requires ignored ==> OverheardFits(m)
      reads this`calls, this`outgoing
    {
      var fc := FcOf(transport, m);
      var st := BodyStatus(transport, readFails, m, RequestSize(transport, fc, m));
      if st != NONE then err == st && calls == done && outgoing == line
      else
        WholeRequest(m);
        if ignored then err == Overheard(m) && calls == done && outgoing == line
        else Performed(m, React(transport, server, done, quiet, m), err, done, line)
    }

    /** And what it leaves to come: everything after the request, and after the response to it of another server. */
    ghost predicate Leaves(m: Bytes, ignored: bool)
      requires |m| >= Lead(transport)
      reads this
    {
      var fc := FcOf(transport, m);
      var listens := ignored && BodyStatus(transport, readFails, m, RequestSize(transport, fc, m)) == NONE;
      && msg.ignored == (ignored && !listens)
      && incoming ==
           if !listens then After(m)
           else After(m)[ResponseUsed(After(m), UnitOf(transport, m), fc, TidOf(transport, m),
                                      if fc <= 4 || fc == 20 || fc == 21 then Counted(transport, After(m), 0) else 4)..]
    }

    /** What the handlers of requests with two words of data come down to. */
    lemma ReactWords(m: Bytes, done: seq<Call>, quiet: bool)
      requires Whole(transport, m) && FcOf(transport, m) <= 6
      ensures var l, fc, unit := Lead(transport), FcOf(transport, m), UnitOf(transport, m);
              var a, v := Word16(m[l], m[l + 1]), Word16(m[l + 2], m[l + 3]);
              React(transport, server, done, quiet, m) ==
                if fc <= 2 then ServeReadBits(server, done, quiet, unit, fc, a, v)
                else if fc <= 4 then ServeReadRegisters(server, done, quiet, unit, fc, a, v)
                else if fc == 5 then ServeWriteCoil(server, done, quiet, unit, a, v)
                else ServeWriteRegister(server, done, quiet, unit, a, v)
    {
      hide ServeReadBits, ServeReadRegisters, ServeWriteCoil, ServeWriteRegister;
    }

    method HandleReadDiscrete(ghost m: Bytes) returns (err: int)
      requires Arrived(m) && (msg.fc == 1 || msg.fc == 2)
      modifies this`incoming, this`bufIdx, this`msg, this`outgoing, this`calls, buf
      ensures Answers(m, err, old(msg.ignored), old(msg.broadcast), old(calls), old(outgoing))
      ensures Leaves(m, old(msg.ignored))
    {
      hide Performed, React, Accepts, HeadUsed, ResponseHead, WellSized, ServeReadBits;
      err := Recv(m, 4);
      if err != NONE {
        return;
      }
      var address := Get2(m, bufIdx + 4);
      var quantity := Get2(m, bufIdx + 2);
      err := RecvMsgFooter(m);
      if err != NONE {
        return;
      }
      if !msg.ignored {
        WholeRequest(m);
        ReactWords(m, calls, msg.broadcast);
        err := ReplyBits(m, address, quantity);
      } else {
        err := RecvReadDiscreteRes(After(m), null);
      }
    }

    /** handle_read_registers after the request was read. */
    method ReplyRegisters(ghost m: Bytes, address: u16, quantity: u16) returns (err: int)
      requires Ready() && Whole(transport, m) && !msg.ignored
      requires msg.unit == UnitOf(transport, m) && msg.fc == FcOf(transport, m) && msg.tid == TidOf(transport, m)
      modifies this`bufIdx, this`msg, this`outgoing, this`calls, buf
      ensures !msg.ignored
      ensures var act := ServeReadRegisters(server, old(calls), old(msg.broadcast), old(msg.unit), old(msg.fc), address,
                                            quantity);
              Performed(m, act, err, old(calls), old(outgoing))
    {
      hide Packet, Header, Sealed, Performed, Cells, RegisterBytes;
      ghost var act := ServeReadRegisters(server, calls, msg.broadcast, msg.unit, msg.fc, address, quantity);
      if quantity < 1 || quantity > 125 {
        err := SendExceptionMsg(ILLEGAL_DATA_VALUE);
        RaisePerformed(m, act, err, old(calls), old(outgoing));
        return;
      }
      if address + quantity > 0xFFFF + 1 {
        err := SendExceptionMsg(ILLEGAL_DATA_ADDRESS);
        RaisePerformed(m, act, err, old(calls), old(outgoing));
        return;
      }
      if msg.fc in server.installed {
        var answer := Invoke(AskRegisters(msg.fc, address, quantity, msg.unit));
        if answer.err != NONE {
          err := SendFailure(answer.err);
          RaisePerformed(m, act, err, old(calls), old(outgoing));
          return;
        }
        if !msg.broadcast {
          var regsBytes := quantity * 2;
          var regs := Cells(answer.registers, quantity, 0);
          PutMsgHeader(1 + regsBytes);
          Put1(regsBytes);
          PutWords(regs);
          ghost var sent := buf[..bufIdx];
          err := SendMsg();
          ReplyPerformed(m, act, err, old(calls), old(outgoing), sent);
          return;
        }
        QuietPerformed(m, act, old(calls), old(outgoing));
      } else {
        err := SendExceptionMsg(ILLEGAL_FUNCTION);
        RaisePerformed(m, act, err, old(calls), old(outgoing));
        return;
      }
      return NONE;
    }

    method HandleReadRegisters(ghost m: Bytes) returns (err: int)
      requires Arrived(m) && (msg.fc == 3 || msg.fc == 4)
      modifies this`incoming, this`bufIdx, this`msg, this`outgoing, this`calls, buf
      ensures Answers(m, err, old(msg.ignored), old(msg.broadcast), old(calls), old(outgoing))
      ensures Leaves(m, old(msg.ignored))
    {
      hide Performed, React, Accepts, HeadUsed, ResponseHead, WellSized, ServeReadRegisters;
      err := Recv(m, 4);
      if err != NONE {
        return;
      }
      var address := Get2(m, bufIdx + 4);
      var quantity := Get2(m, bufIdx + 2);
      err := RecvMsgFooter(m);
      if err != NONE {
        return;
      }
      if !msg.ignored {
        WholeRequest(m);
        ReactWords(m, calls, msg.broadcast);
        err := ReplyRegisters(m, address, quantity);
      } else {
        err := RecvReadRegistersRes(After(m), quantity, null);
      }
    }

    /** handle_write_single_coil after the request was read. */
    method ReplyWriteSingleCoil(ghost m: Bytes, address: u16, value: u16) returns (err: int)
      requires Ready() && Whole(transport, m) && !msg.ignored
      requires msg.unit == UnitOf(transport, m) && msg.fc == FcOf(transport, m) && msg.tid == TidOf(transport, m)
      modifies this`bufIdx, this`msg, this`outgoing, this`calls, buf
      ensures !msg.ignored
      ensures var act := ServeWriteCoil(server, old(calls), old(msg.broadcast), old(msg.unit), address, value);
              Performed(m, act, err, old(calls), old(outgoing))
    {
      hide Packet, Header, Sealed, Performed, BigEndian;
      ghost var act := ServeWriteCoil(server, calls, msg.broadcast, msg.unit, address, value);
      if 5 in server.installed {
        if value != 0 && value != 0xFF00 {
          err := SendExceptionMsg(ILLEGAL_DATA_VALUE);
          RaisePerformed(m, act, err, old(calls), old(outgoing));
          return;
        }
        var answer := Invoke(SetCoil(address, value != 0, msg.unit));
        if answer.err != NONE {
          err := SendFailure(answer.err);
          RaisePerformed(m, act, err, old(calls), old(outgoing));
          return;
        }
        if !msg.broadcast {
          PutMsgHeader(4);
          Put2(address);
          Put2(value);
          ghost var sent := buf[..bufIdx];
          err := SendMsg();
          ReplyPerformed(m, act, err, old(calls), old(outgoing), sent);
          return;
        }
        QuietPerformed(m, act, old(calls), old(outgoing));
      } else {
        err := SendExceptionMsg(ILLEGAL_FUNCTION);
        RaisePerformed(m, act, err, old(calls), old(outgoing));
        return;
      }
      return NONE;
    }

    method HandleWriteSingleCoil(ghost m: Bytes) returns (err: int)
      requires Arrived(m) && msg.fc == 5
      modifies this`incoming, this`bufIdx, this`msg, this`outgoing, this`calls, buf
      ensures Answers(m, err, old(msg.ignored), old(msg.broadcast), old(calls), old(outgoing))
      ensures Leaves(m, old(msg.ignored))
    {
      hide Performed, React, Accepts, HeadUsed, ResponseHead, WellSized, ServeWriteCoil;
      err := Recv(m, 4);
      if err != NONE {
        return;
      }
      var address := Get2(m, bufIdx + 4);
      var value := Get2(m, bufIdx + 2);
      err := RecvMsgFooter(m);
      if err != NONE {
        return;
      }
      if !msg.ignored {
        WholeRequest(m);
        ReactWords(m, calls, msg.broadcast);
        err := ReplyWriteSingleCoil(m, address, value);
      } else {
        err := RecvEchoRes(After(m), address, value);
      }
    }

    /** handle_write_single_register after the request was read. */
    method ReplyWriteSingleRegister(ghost m: Bytes, address: u16, value: u16) returns (err: int)
      requires Ready() && Whole(transport, m) && !msg.ignored
      requires msg.unit == UnitOf(transport, m) && msg.fc == FcOf(transport, m) && msg.tid == TidOf(transport, m)
      modifies this`bufIdx, this`msg, this`outgoing, this`calls, buf
      ensures !msg.ignored
      ensures var act := ServeWriteRegister(server, old(calls), old(msg.broadcast), old(msg.unit), address, value);
              Performed(m, act, err, old(calls), old(outgoing))
    {
      hide Packet, Header, Sealed, Performed, BigEndian;
      ghost var act := ServeWriteRegister(server, calls, msg.broadcast, msg.unit, address, value);
      if 6 in server.installed {
        var answer := Invoke(SetRegister(address, value, msg.unit));
        if answer.err != NONE {
          err := SendFailure(answer.err);
          RaisePerformed(m, act, err, old(calls), old(outgoing));
          return;
        }
        if !msg.broadcast {
          PutMsgHeader(4);
          Put2(address);
          Put2(value);
          ghost var sent := buf[..bufIdx];
          err := SendMsg();
          ReplyPerformed(m, act, err, old(calls), old(outgoing), sent);
          return;
        }
        QuietPerformed(m, act, old(calls), old(outgoing));
      } else {
        err := SendExceptionMsg(ILLEGAL_FUNCTION);
        RaisePerformed(m, act, err, old(calls), old(outgoing));
        return;
      }
      return NONE;
    }

    method HandleWriteSingleRegister(ghost m: Bytes) returns (err: int)
      requires Arrived(m) && msg.fc == 6
      modifies this`incoming, this`bufIdx, this`msg, this`outgoing, this`calls, buf
      ensures Answers(m, err, old(msg.ignored), old(msg.broadcast), old(calls), old(outgoing))
      ensures Leaves(m, old(msg.ignored))
    {
      hide Performed, React, Accepts, HeadUsed, ResponseHead, WellSized, ServeWriteRegister;
      err := Recv(m, 4);
      if err != NONE {
        return;
      }
      var address := Get2(m, bufIdx + 4);
      var value := Get2(m, bufIdx + 2);
      err := RecvMsgFooter(m);
      if err != NONE {
        return;
      }
      if !msg.ignored {
        WholeRequest(m);
        ReactWords(m, calls, msg.broadcast);
        err := ReplyWriteSingleRegister(m, address, value);
      } else {
        err := RecvEchoRes(After(m), address, value);
      }
    }

    /** handle_write_multiple_coils after the request was read. */
    method ReplyWriteMultipleCoils(ghost m: Bytes, address: u16, quantity: u16, coilsBytes: byte, coils: Bytes,
                                   ghost sentCoils: Bytes) returns (err: int)
      requires Ready() && Whole(transport, m) && !msg.ignored
      requires msg.unit == UnitOf(transport, m) && msg.fc == FcOf(transport, m) && msg.tid == TidOf(transport, m)
      requires |sentCoils| == coilsBytes && coils == Cells(sentCoils, 250, 0)
      modifies this`bufIdx, this`msg, this`outgoing, this`calls, buf
      ensures !msg.ignored
      ensures var act := ServeWriteCoils(server, old(calls), old(msg.broadcast), old(msg.unit), address, quantity,
                                         sentCoils);
              Performed(m, act, err, old(calls), old(outgoing))
    {
      hide Packet, Header, Sealed, Performed, BigEndian, Cells, RegistersOf;
      ghost var act := ServeWriteCoils(server, calls, msg.broadcast, msg.unit, address, quantity, sentCoils);
      if quantity < 1 || quantity > 0x07B0 {
        err := SendExceptionMsg(ILLEGAL_DATA_VALUE);
        RaisePerformed(m, act, err, old(calls), old(outgoing));
        return;
      }
      if address + quantity > 0xFFFF + 1 {
        err := SendExceptionMsg(ILLEGAL_DATA_ADDRESS);
        RaisePerformed(m, act, err, old(calls), old(outgoing));
        return;
      }
      if coilsBytes == 0 {
        err := SendExceptionMsg(ILLEGAL_DATA_VALUE);
        RaisePerformed(m, act, err, old(calls), old(outgoing));
        return;
      }
      if (quantity + 7) / 8 != coilsBytes {
        err := SendExceptionMsg(ILLEGAL_DATA_VALUE);
        RaisePerformed(m, act, err, old(calls), old(outgoing));
        return;
      }
      if 15 in server.installed {
        var answer := Invoke(SetCoils(address, quantity, coils, msg.unit));
        if answer.err != NONE {
          err := SendFailure(answer.err);
          RaisePerformed(m, act, err, old(calls), old(outgoing));
          return;
        }
        if !msg.broadcast {
          PutMsgHeader(4);
          Put2(address);
          Put2(quantity);
          ghost var sent := buf[..bufIdx];
          err := SendMsg();
          ReplyPerformed(m, act, err, old(calls), old(outgoing), sent);
          return;
        }
        QuietPerformed(m, act, old(calls), old(outgoing));
      } else {
        err := SendExceptionMsg(ILLEGAL_FUNCTION);
        RaisePerformed(m, act, err, old(calls), old(outgoing));
        return;
      }
      return NONE;
    }

    /** `n` bytes of coils into a bitfield of zeros. */
    method GetCoils(ghost m: Bytes, ghost p: nat, n: byte) returns (coils: Bytes)
      requires At(m, p) && bufIdx + n <= p && n <= 250
      modifies this`bufIdx
      ensures bufIdx == old(bufIdx) + n && At(m, p)
      ensures coils == Cells(m[old(bufIdx)..old(bufIdx) + n], 250, 0)
    {
      hide Cells;
      ghost var start := bufIdx;
      var bitfield := new byte[250](i => 0);
      GetBytes(m, p, n, bitfield);
      coils := bitfield[..];
      assert forall i :: n <= i < 250 ==> coils[i] == bitfield[n..][i - n];
      CoilsAreCells(coils, m[start..start + n]);
    }

    /** The first five bytes of data of a write of several cells, and the bytes they count. */
    method TakeRange(ghost m: Bytes) returns (err: int, address: u16, quantity: u16, count: byte)
      requires Arrived(m) && (msg.fc == 15 || msg.fc == 16)
      modifies this`incoming, this`bufIdx, buf
      ensures err != NONE ==>
                err == BodyStatus(transport, readFails, m, Counted(transport, m, 4)) && incoming == After(m)
      ensures err == NONE ==>
                var l := Lead(transport);
                && |m| >= l + 5 + count && count == m[l + 4] && bufIdx == l + 5 && At(m, l + 5 + count)
                && address == Word16(m[l], m[l + 1]) && quantity == Word16(m[l + 2], m[l + 3])
    {
      hide Accepts, OverheardFits, PartsFit, Word16;
      address, quantity, count := 0, 0, 0;
      err := Recv(m, 5);
      if err != NONE {
        return;
      }
      address := Get2(m, bufIdx + 5);
      quantity := Get2(m, bufIdx + 3);
      count := Get1(m, bufIdx + 1);
      err := Recv(m, count);
    }

    /** handle_write_multiple_coils up to the end of the request. */
    method TakeCoils(ghost m: Bytes) returns (err: int, address: u16, quantity: u16, count: byte, coils: Bytes)
      requires Arrived(m) && msg.fc == 15
      modifies this`incoming, this`bufIdx, buf
      ensures err == BodyStatus(transport, readFails, m, Counted(transport, m, 4)) && incoming == After(m)
      ensures err == NONE ==>
                var l := Lead(transport);
                && |m| >= l + 5 + count && count == m[l + 4] && coils == Cells(m[l + 5..l + 5 + count], 250, 0)
                && address == Word16(m[l], m[l + 1]) && quantity == Word16(m[l + 2], m[l + 3])
    {
      hide Accepts, Cells, OverheardFits, PartsFit, Word16;
      coils := [];
      err, address, quantity, count := TakeRange(m);
      if err != NONE {
        return;
      }
      coils := GetCoils(m, bufIdx + count, count);
      err := RecvMsgFooter(m);
    }

    method HandleWriteMultipleCoils(ghost m: Bytes) returns (err: int)
      requires Arrived(m) && msg.fc == 15
      modifies this`incoming, this`bufIdx, this`msg, this`outgoing, this`calls, buf
      ensures Answers(m, err, old(msg.ignored), old(msg.broadcast), old(calls), old(outgoing))
      ensures Leaves(m, old(msg.ignored))
    {
      hide Performed, Accepts, HeadUsed, ResponseHead, WellSized, ServeWriteCoils, Cells, ResponseUsed;
      var address, quantity, count, coils;
      err, address, quantity, count, coils := TakeCoils(m);
      if err != NONE {
        return;
      }
      if !msg.ignored {
        ghost var d := Data(transport, m, 5 + count);
        assert d[5..] == m[Lead(transport) + 5..Lead(transport) + 5 + count];
        err := ReplyWriteMultipleCoils(m, address, quantity, count, coils, d[5..]);
      } else {
        err := RecvEchoRes(After(m), address, quantity);
      }
    }

    /** handle_write_multiple_registers after the request was read. */
    method ReplyWriteMultipleRegisters(ghost m: Bytes, address: u16, quantity: u16, registersBytes: byte,
                                       registers: seq<u16>, ghost values: Bytes) returns (err: int)
      requires Ready() && Whole(transport, m) && !msg.ignored
      requires msg.unit == UnitOf(transport, m) && msg.fc == FcOf(transport, m) && msg.tid == TidOf(transport, m)
      requires |values| == registersBytes && registers == RegistersOf(values)
      modifies this`bufIdx, this`msg, this`outgoing, this`calls, buf
      ensures !msg.ignored
      ensures var act := ServeWriteRegisters(server, old(calls), old(msg.broadcast), old(msg.unit), address, quantity,
                                             values);
              Performed(m, act, err, old(calls), old(outgoing))
    {
      hide Packet, Header, Sealed, Performed, BigEndian, Cells, RegistersOf;
      ghost var act := ServeWriteRegisters(server, calls, msg.broadcast, msg.unit, address, quantity, values);
      if quantity < 1 || quantity > 0x007B {
        err := SendExceptionMsg(ILLEGAL_DATA_VALUE);
        RaisePerformed(m, act, err, old(calls), old(outgoing));
        return;
      }
      if address + quantity > 0xFFFF + 1 {
        err := SendExceptionMsg(ILLEGAL_DATA_ADDRESS);
        RaisePerformed(m, act, err, old(calls), old(outgoing));
        return;
      }
      if registersBytes == 0 {
        err := SendExceptionMsg(ILLEGAL_DATA_VALUE);
        RaisePerformed(m, act, err, old(calls), old(outgoing));
        return;
      }
      if registersBytes != quantity * 2 {
        err := SendExceptionMsg(ILLEGAL_DATA_VALUE);
        RaisePerformed(m, act, err, old(calls), old(outgoing));
        return;
      }
      if 16 in server.installed {
        var answer := Invoke(SetRegisters(address, registers, msg.unit));
        if answer.err != NONE {
          err := SendFailure(answer.err);
          RaisePerformed(m, act, err, old(calls), old(outgoing));
          return;
        }
        if !msg.broadcast {
          PutMsgHeader(4);
          Put2(address);
          Put2(quantity);
          ghost var sent := buf[..bufIdx];
          err := SendMsg();
          ReplyPerformed(m, act, err, old(calls), old(outgoing), sent);
          return;
        }
        QuietPerformed(m, act, old(calls), old(outgoing));
      } else {
        err := SendExceptionMsg(ILLEGAL_FUNCTION);
        RaisePerformed(m, act, err, old(calls), old(outgoing));
        return;
      }
      return NONE;
    }

    /** `count` bytes of registers into an array with room for them. */
    method GetWords(ghost m: Bytes, ghost p: nat, count: byte, room: nat) returns (registers: seq<u16>)
      requires At(m, p) && bufIdx + count <= p && count % 2 == 0 && count / 2 <= room
      modifies this`bufIdx
      ensures bufIdx == old(bufIdx) + count && At(m, p)
      ensures registers == RegistersOf(m[old(bufIdx)..old(bufIdx) + count])
    {
      hide RegistersOf;
      var half := count / 2;
      assert count == 2 * half;
      var words := new u16[room];
      GetRegisters(m, p, half, words);
      registers := words[..half];
    }

    /** handle_write_multiple_registers up to the end of the request. */
    method TakeRegisters(ghost m: Bytes)
      returns (err: int, address: u16, quantity: u16, count: byte, registers: seq<u16>)
      requires Arrived(m) && msg.fc == 16
      modifies this`incoming, this`bufIdx, buf
      ensures err == BodyStatus(transport, readFails, m, Counted(transport, m, 4)) && incoming == After(m)
      ensures err == NONE ==>
                var l := Lead(transport);
                && |m| >= l + 5 + count && count == m[l + 4] && registers == RegistersOf(m[l + 5..l + 5 + count])
                && address == Word16(m[l], m[l + 1]) && quantity == Word16(m[l + 2], m[l + 3])
    {
      hide Accepts, RegistersOf, OverheardFits, PartsFit, Word16;
      registers := [];
      err, address, quantity, count := TakeRange(m);
      if err != NONE {
        return;
      }
      registers := GetWords(m, bufIdx + count, count, 0x007B);
      err := RecvMsgFooter(m);
    }

    method HandleWriteMultipleRegisters(ghost m: Bytes) returns (err: int)
      requires Arrived(m) && msg.fc == 16
      modifies this`incoming, this`bufIdx, this`msg, this`outgoing, this`calls, buf
      ensures Answers(m, err, old(msg.ignored), old(msg.broadcast), old(calls), old(outgoing))
      ensures Leaves(m, old(msg.ignored))
    {
      hide Performed, Accepts, HeadUsed, ResponseHead, WellSized, ServeWriteRegisters, RegistersOf, ResponseUsed;
      var address, quantity, count, registers;
      err, address, quantity, count, registers := TakeRegisters(m);
      if err != NONE {
        return;
      }
      if !msg.ignored {
        ghost var d := Data(transport, m, 5 + count);
        assert d[5..] == m[Lead(transport) + 5..Lead(transport) + 5 + count];
        err := ReplyWriteMultipleRegisters(m, address, quantity, count, registers, d[5..]);
      } else {
        err := RecvEchoRes(After(m), address, quantity);
      }
    }

    method GetRanges(ghost m: Bytes, ghost p: nat) returns (a: u16, b: u16, c: u16, d: u16)
      requires At(m, p) && bufIdx + 8 <= p
      modifies this`bufIdx
      ensures At(m, p) && bufIdx == old(bufIdx) + 8
      ensures var i := old(bufIdx);
              && a == Word16(m[i], m[i + 1]) && b == Word16(m[i + 2], m[i + 3])
              && c == Word16(m[i + 4], m[i + 5]) && d == Word16(m[i + 6], m[i + 7])
    {
      hide Word16;
      a := Get2(m, p);
      b := Get2(m, p);
      c := Get2(m, p);
      d := Get2(m, p);
    }

    /** handle_read_write_registers up to the end of the request. */
    method TakeReadWrite(ghost m: Bytes)
      returns (err: int, readAddress: u16, readQuantity: u16, writeAddress: u16, writeQuantity: u16, count: byte,
               registers: seq<u16>)
      requires Arrived(m) && msg.fc == 23
      modifies this`incoming, this`bufIdx, buf
      ensures err == BodyStatus(transport, readFails, m, Counted(transport, m, 8)) && incoming == After(m)
      ensures err == NONE ==>
                var l := Lead(transport);
                && |m| >= l + 9 + count && count == m[l + 8] && registers == RegistersOf(m[l + 9..l + 9 + count])
                && readAddress == Word16(m[l], m[l + 1]) && readQuantity == Word16(m[l + 2], m[l + 3])
                && writeAddress == Word16(m[l + 4], m[l + 5]) && writeQuantity == Word16(m[l + 6], m[l + 7])
    {
      hide Accepts, RegistersOf, OverheardFits, PartsFit, Word16;
      readAddress, readQuantity, writeAddress, writeQuantity, count, registers := 0, 0, 0, 0, 0, [];
      err := Recv(m, 9);
      if err != NONE {
        return;
      }
      ghost var p := bufIdx + 9;
      readAddress, readQuantity, writeAddress, writeQuantity := GetRanges(m, p);
      count := Get1(m, p);
      ghost var start := bufIdx;
      assert start == Lead(transport) + 9 && Counted(transport, m, 8) == 9 + count;
      err := Recv(m, count);
      if err != NONE {
        return;
      }
      registers := GetWords(m, start + count, count, count / 2);
      assert bufIdx == Lead(transport) + Counted(transport, m, 8);
      err := RecvMsgFooter(m);
    }

    /** handle_read_write_registers after the request was read. */
    method ReplyReadWrite(ghost m: Bytes, readAddress: u16, readQuantity: u16, writeAddress: u16, writeQuantity: u16,
                          count: byte, registers: seq<u16>, ghost values: Bytes) returns (err: int)
      requires Ready() && Whole(transport, m) && !msg.ignored
      requires msg.unit == UnitOf(transport, m) && msg.fc == FcOf(transport, m) && msg.tid == TidOf(transport, m)
      requires |values| == count && registers == RegistersOf(values)
      modifies this`bufIdx, this`msg, this`outgoing, this`calls, buf
      ensures !msg.ignored
      ensures var act := ServeReadWrite(server, old(calls), old(msg.broadcast), old(msg.unit), readAddress,
                                        readQuantity, writeAddress, writeQuantity, values);
              Performed(m, act, err, old(calls), old(outgoing))
    {
      hide Packet, Header, Sealed, Performed, Cells, RegisterBytes, RegistersOf;
      ghost var act := ServeReadWrite(server, calls, msg.broadcast, msg.unit, readAddress, readQuantity,
                                      writeAddress, writeQuantity, values);
      if readQuantity < 1 || readQuantity > 0x007D {
        err := SendExceptionMsg(ILLEGAL_DATA_VALUE);
        RaisePerformed(m, act, err, old(calls), old(outgoing));
        return;
      }
      if writeQuantity < 1 || writeQuantity > 0x007B {
        err := SendExceptionMsg(ILLEGAL_DATA_VALUE);
        RaisePerformed(m, act, err, old(calls), old(outgoing));
        return;
      }
      if count != writeQuantity * 2 {
        err := SendExceptionMsg(ILLEGAL_DATA_VALUE);
        RaisePerformed(m, act, err, old(calls), old(outgoing));
        return;
      }
      if readAddress + readQuantity > 0xFFFF + 1 {
        err := SendExceptionMsg(ILLEGAL_DATA_ADDRESS);
        RaisePerformed(m, act, err, old(calls), old(outgoing));
        return;
      }
      if writeAddress + writeQuantity > 0xFFFF + 1 {
        err := SendExceptionMsg(ILLEGAL_DATA_ADDRESS);
        RaisePerformed(m, act, err, old(calls), old(outgoing));
        return;
      }
      if 16 !in server.installed || 3 !in server.installed {
        err := SendExceptionMsg(ILLEGAL_FUNCTION);
        RaisePerformed(m, act, err, old(calls), old(outgoing));
        return;
      }
      var written := Invoke(SetRegisters(writeAddress, registers, msg.unit));
      if written.err != NONE {
        err := SendFailure(written.err);
        RaisePerformed(m, act, err, old(calls), old(outgoing));
        return;
      }
      if !msg.broadcast {
        var answer := Invoke(AskRegisters(3, readAddress, readQuantity, msg.unit));
        assert calls == old(calls) + act.calls;
        if answer.err != NONE {
          err := SendFailure(answer.err);
          RaisePerformed(m, act, err, old(calls), old(outgoing));
          return;
        }
        var regsBytes := readQuantity * 2;
        var regs := Cells(answer.registers, readQuantity, 0);
        PutMsgHeader(1 + regsBytes);
        Put1(regsBytes);
        PutWords(regs);
        ghost var sent := buf[..bufIdx];
        err := SendMsg();
        ReplyPerformed(m, act, err, old(calls), old(outgoing), sent);
        return;
      }
      QuietPerformed(m, act, old(calls), old(outgoing));
      return NONE;
    }

    method HandleReadWriteRegisters(ghost m: Bytes) returns (err: int)
      requires Arrived(m) && msg.fc == 23
      modifies this`incoming, this`bufIdx, this`msg, this`outgoing, this`calls, buf
      ensures Answers(m, err, old(msg.ignored), old(msg.broadcast), old(calls), old(outgoing))
      ensures Leaves(m, old(msg.ignored))
    {
      hide Performed, Accepts, HeadUsed, ResponseHead, WellSized, ServeReadWrite, RegistersOf, ResponseUsed, Word16;
      var readAddress, readQuantity, writeAddress, writeQuantity, count, registers;
      err, readAddress, readQuantity, writeAddress, writeQuantity, count, registers := TakeReadWrite(m);
      if err != NONE {
        return;
      }
      if !msg.ignored {
        ghost var d := Data(transport, m, 9 + count);
        assert d[9..] == m[Lead(transport) + 9..Lead(transport) + 9 + count];
        err := ReplyReadWrite(m, readAddress, readQuantity, writeAddress, writeQuantity, count, registers, d[9..]);
      } else {
        err := RecvEchoRes(After(m), writeAddress, writeQuantity);
      }
    }

    method GetPart(ghost m: Bytes, ghost p: nat) returns (part: Part)
      requires At(m, p) && bufIdx + PART_HEADER <= p
      modifies this`bufIdx
      ensures At(m, p) && bufIdx == old(bufIdx) + PART_HEADER && part == PartAt(m, old(bufIdx))
    {
      hide Word16;
      var kind := Get1(m, p);
      var file := Get2(m, p);
      var record := Get2(m, p);
      var length := Get2(m, p);
      part := Part(kind, file, record, length);
    }

    /** The sub-requests in the `size` bytes from the index on, and the size of the reply as an 8-bit sum. */
    method GetParts(ghost m: Bytes, ghost p: nat, size: byte) returns (parts: seq<Part>, responseDataSize: byte)
      requires At(m, p) && bufIdx + size == p
      modifies this`bufIdx
      ensures At(m, p) && bufIdx == p - size % 7
      ensures parts == ReadParts(m[p - size..p]) && responseDataSize == ReadSize(parts) % 256
    {
      hide ReadParts, Word16;
      parts, responseDataSize := [], 0;
      ghost var start := bufIdx;
      ghost var b := m[start..p];
      for i := 0 to size / 7
        invariant bufIdx == start + 7 * i && At(m, p) && |parts| == i
        invariant forall k :: 0 <= k < i ==> parts[k] == ReadParts(b)[k]
        invariant responseDataSize == ReadSize(parts) % 256
      {
        ghost var known := parts;
        ReadPartsAt(b, i);
        var part := GetPart(m, p);
        assert PartAt(b, 7 * i) == part;
        parts := parts + [part];
        assert parts[..i] == known;
        SizeGrows(ReadSize(known), part.length);
        responseDataSize := (responseDataSize + 2 + 2 * (part.length as int)) % 256;
      }
    }

    /** handle_read_file_record up to the end of the request. */
    method TakeReadParts(ghost m: Bytes)
      returns (err: int, requestSize: byte, parts: seq<Part>, responseDataSize: byte)
      requires Arrived(m) && msg.fc == 20
      modifies this`incoming, this`bufIdx, buf
      ensures err == BodyStatus(transport, readFails, m, Counted(transport, m, 0)) && incoming == After(m)
      ensures err == NONE ==>
                var l := Lead(transport);
                && |m| >= l + 1 + requestSize && requestSize == m[l]
                && parts == ReadParts(m[l + 1..l + 1 + requestSize]) && responseDataSize == ReadSize(parts) % 256
    {
      hide Accepts, ReadParts, OverheardFits, PartsFit, Word16;
      requestSize, parts, responseDataSize := 0, [], 0;
      err := Recv(m, 1);
      if err != NONE {
        return;
      }
      requestSize := Get1(m, bufIdx + 1);
      ghost var start := bufIdx;
      ghost var p := start + requestSize;
      err := Recv(m, requestSize);
      if err != NONE {
        return;
      }
      parts, responseDataSize := GetParts(m, p, requestSize);
      bufIdx := bufIdx + requestSize % 7;
      err := RecvMsgFooter(m);
    }

    /** A callback's registers in the host's order, and the swap that puts them in the message's. */
    method PutAnswer(regs: seq<u16>)
      requires bufIdx + 2 * |regs| <= buf.Length
      modifies this`bufIdx, buf
      ensures bufIdx == old(bufIdx) + 2 * |regs| && bufIdx <= buf.Length
      ensures buf[..bufIdx] == old(buf[..bufIdx]) + RegisterBytes(regs)
    {
      hide HostBytes, Swapped, RegisterBytes;
      var data := bufIdx;
      ghost var before := buf[..bufIdx];
      bufIdx := bufIdx + 2 * |regs|;
      StoreRegisters(data, regs);
      assert buf[..data] == before;
      HostBytesSwapped(regs);
      SwapRegs(data, |regs|);
      assert buf[..bufIdx] == before + RegisterBytes(regs);
    }

    method StoreRegisters(start: nat, regs: seq<u16>)
      requires start + 2 * |regs| <= buf.Length
      modifies buf
      ensures buf[..start] == old(buf[..start]) && buf[start..start + 2 * |regs|] == HostBytes(regs)
    {
      for i := |regs| downto 0
        invariant buf[..start] == old(buf[..start])
        invariant buf[start + 2 * i..start + 2 * |regs|] == HostBytes(regs[i..])
      {
        ghost var was := buf[..];
        StoreHost(start + 2 * i, regs[i]);
        assert buf[..start] == was[..start];
        assert buf[start + 2 * i + 2..start + 2 * |regs|] == was[start + 2 * i + 2..start + 2 * |regs|];
        assert buf[start + 2 * i..start + 2 * |regs|]
            == [regs[i] % 256, regs[i] / 256] + buf[start + 2 * i + 2..start + 2 * |regs|];
        assert regs[i..][1..] == regs[i + 1..];
      }
    }

    /** One record of a file read: the call for it, and its data behind what is in the buffer. */
    method PutRecord(p: Part) returns (failure: int)
      requires bufIdx + 2 + 2 * p.length <= buf.Length
      modifies this`bufIdx, this`calls, buf
      ensures var c := AskFile(p.file, p.record, p.length, msg.unit);
              && calls == old(calls) + [c] && failure == server.app(old(calls), c).err
              && (failure == NONE ==>
                    && bufIdx == old(bufIdx) + 2 + 2 * p.length && bufIdx <= buf.Length
                    && buf[..bufIdx] == old(buf[..bufIdx]) + ([(2 * p.length + 1) % 256, 6] +
                                        RegisterBytes(RegistersGiven(server, old(calls), c, p.length))))
    {
      hide RegisterBytes, Cells;
      ghost var before := buf[..bufIdx];
      Put1((2 * p.length + 1) % 256);
      Put1(6);
      assert buf[..bufIdx] == before + [(2 * p.length + 1) % 256, 6];
      var answer := Invoke(AskFile(p.file, p.record, p.length, msg.unit));
      failure := answer.err;
      if failure != NONE {
        return;
      }
      PutAnswer(Cells(answer.registers, p.length, 0));
    }

    /** The records of a file read, up to the first callback that fails. */
    method PutRecords(parts: seq<Part>) returns (failure: int)
      requires Ready() && bufIdx + ReadSize(parts) <= buf.Length
      modifies this`bufIdx, this`calls, buf
      ensures var (made, verdict) := ReadRecords(server, old(calls), msg.unit, parts);
              && calls == old(calls) + made
              && if failure == NONE then
                   && verdict.Reply? && bufIdx <= buf.Length && bufIdx == old(bufIdx) + ReadSize(parts)
                   && buf[..bufIdx] == old(buf[..bufIdx]) + verdict.data
                 else verdict == Raise(if IsException(failure) then failure else SERVER_DEVICE_FAILURE)
    {
      hide RegisterBytes, RegistersGiven, Code, ReadRecords;
      failure := NONE;
      ghost var made: seq<Call>, data: Bytes := [], [];
      ReadRecordsNone(server, old(calls), msg.unit, parts[..0]);
      for i := 0 to |parts|
        invariant bufIdx == old(bufIdx) + ReadSize(parts[..i]) && bufIdx <= buf.Length
        invariant buf[..bufIdx] == old(buf[..bufIdx]) + data
        invariant calls == old(calls) + made && failure == NONE
        invariant ReadRecords(server, old(calls), msg.unit, parts[..i]) == (made, Reply(0, data))
      {
        assert parts[..i + 1][..i] == parts[..i];
        ReadSizeGrows(parts, i + 1);
        ReadRecordsNext(server, old(calls), msg.unit, parts, i, made, data);
        ghost var c := AskFile(parts[i].file, parts[i].record, parts[i].length, msg.unit);
        ghost var record := [(2 * parts[i].length + 1) % 256, 6] +
                            RegisterBytes(RegistersGiven(server, calls, c, parts[i].length));
        failure := PutRecord(parts[i]);
        made := made + [c];
        if failure != NONE {
          ReadRecordsStop(server, old(calls), msg.unit, parts, i + 1);
          return;
        }
        data := data + record;
      }
      assert parts[..|parts|] == parts;
    }

    /** handle_read_file_record after the request was read. */
    method ReplyReadFile(ghost m: Bytes, requestSize: byte, parts: seq<Part>, responseDataSize: byte, ghost b: Bytes)
      returns (err: int)
      requires Ready() && Whole(transport, m) && !msg.ignored
      requires msg.unit == UnitOf(transport, m) && msg.fc == FcOf(transport, m) && msg.tid == TidOf(transport, m)
      requires |b| == requestSize && parts == ReadParts(b) && responseDataSize == ReadSize(parts) % 256
      requires ReplyFits(parts)
      modifies this`bufIdx, this`msg, this`outgoing, this`calls, buf
      ensures !msg.ignored
      ensures var act := ServeReadFile(server, old(calls), old(msg.broadcast), old(msg.unit), b);
              Performed(m, act, err, old(calls), old(outgoing))
    {
      hide Packet, Header, Sealed, Performed, ReadRecords, ReadParts, ReadSize, GoodPart;
      ghost var act := ServeReadFile(server, calls, msg.broadcast, msg.unit, b);
      if requestSize % 7 != 0 {
        err := SendExceptionMsg(ILLEGAL_DATA_VALUE);
        RaisePerformed(m, act, err, old(calls), old(outgoing));
        return;
      }
      if requestSize < 0x07 || requestSize > 0xF5 {
        err := SendExceptionMsg(ILLEGAL_DATA_VALUE);
        RaisePerformed(m, act, err, old(calls), old(outgoing));
        return;
      }
      var good := CheckReadParts(parts);
      if !good {
        err := SendExceptionMsg(ILLEGAL_DATA_ADDRESS);
        RaisePerformed(m, act, err, old(calls), old(outgoing));
        return;
      }
      PutMsgHeader(responseDataSize);
      Put1(responseDataSize);
      if 20 in server.installed {
        var failure := PutRecords(parts);
        if failure != NONE {
          err := SendFailure(failure);
          RaisePerformed(m, act, err, old(calls), old(outgoing));
          return;
        }
      } else {
        err := SendExceptionMsg(ILLEGAL_FUNCTION);
        RaisePerformed(m, act, err, old(calls), old(outgoing));
        return;
      }
      if !msg.broadcast {
        ghost var sent := buf[..bufIdx];
        err := SendMsg();
        ReplyPerformed(m, act, err, old(calls), old(outgoing), sent);
        return;
      }
      QuietPerformed(m, act, old(calls), old(outgoing));
      return NONE;
    }

    method CheckReadParts(parts: seq<Part>) returns (good: bool)
      ensures good <==> forall i :: 0 <= i < |parts| ==> GoodPart(parts[i], 124)
    {
      for i := 0 to |parts|
        invariant forall k :: 0 <= k < i ==> GoodPart(parts[k], 124)
      {
        if parts[i].kind != 0x06 {
          return false;
        }
        if parts[i].file == 0x0000 {
          return false;
        }
        if parts[i].record > 0x270F {
          return false;
        }
        if parts[i].length > 124 {
          return false;
        }
      }
      return true;
    }

    method HandleReadFileRecord(ghost m: Bytes) returns (err: int)
      requires Arrived(m) && msg.fc == 20
      modifies this`incoming, this`bufIdx, this`msg, this`outgoing, this`calls, buf
      ensures Answers(m, err, old(msg.ignored), old(msg.broadcast), old(calls), old(outgoing))
      ensures Leaves(m, old(msg.ignored))
    {
      hide Performed, Accepts, HeadUsed, ResponseHead, ServeReadFile, ReadParts, ReadSize, ResponseUsed;
      var requestSize, parts, responseDataSize;
      err, requestSize, parts, responseDataSize := TakeReadParts(m);
      if err != NONE {
        return;
      }
      if !msg.ignored {
        ghost var d := Data(transport, m, 1 + (requestSize as nat));
        assert d[1..] == m[Lead(transport) + 1..Lead(transport) + 1 + requestSize];
        err := ReplyReadFile(m, requestSize, parts, responseDataSize, d[1..]);
      } else {
        err := RecvReadFileRecordRes(After(m), null, 0);
      }
    }

    /** handle_write_file_record up to the end of the request, the data left in the buffer. */
    method TakeWriteFile(ghost m: Bytes) returns (err: int, requestSize: byte)
      requires Arrived(m) && msg.fc == 21
      modifies this`incoming, this`bufIdx, buf
      ensures err == BodyStatus(transport, readFails, m, Counted(transport, m, 0)) && incoming == After(m)
      ensures err == NONE ==>
                && |m| > Lead(transport) && requestSize == m[Lead(transport)]
                && At(m, Lead(transport) + Counted(transport, m, 0) + Tail(transport))
    {
      hide Accepts, OverheardFits, PartsFit;
      requestSize := 0;
      err := Recv(m, 1);
      if err != NONE {
        return;
      }
      requestSize := Get1(m, bufIdx + 1);
      err := Recv(m, requestSize);
      if err != NONE {
        return;
      }
      bufIdx := bufIdx + requestSize;
      err := RecvMsgFooter(m);
    }

    /** The first pass over the sub-requests of a file write. */
    method CheckWrittenParts(ghost m: Bytes, ghost p: nat, requestSize: byte) returns (code: byte)
      requires At(m, p) && bufIdx + requestSize <= p && Walkable(m[bufIdx..bufIdx + requestSize])
      modifies this`bufIdx
      ensures At(m, p) && code == CheckParts(m[old(bufIdx)..old(bufIdx) + requestSize])
    {
      assert requestSize >= PART_HEADER;
      hide PartAt, CheckParts, Walkable;
      ghost var e := bufIdx + requestSize;
      ghost var verdict := CheckParts(m[bufIdx..e]);
      var size: nat := requestSize;
      var more := true;
      while more
        invariant At(m, p) && bufIdx + size == e
        invariant more ==> size >= PART_HEADER && Walkable(m[bufIdx..e]) && verdict == CheckParts(m[bufIdx..e])
        invariant !more ==> size < PART_HEADER && verdict == if size != 0 then ILLEGAL_DATA_VALUE else 0
        decreases more, size
      {
        CheckNext(m, bufIdx, e);
        var part := GetPart(m, p);
        bufIdx := bufIdx + 2 * part.length;
        if part.kind != 0x06 {
          return ILLEGAL_DATA_ADDRESS;
        }
        if part.file == 0x0000 {
          return ILLEGAL_DATA_ADDRESS;
        }
        if part.record > 0x270F {
          return ILLEGAL_DATA_ADDRESS;
        }
        if part.length > 122 {
          return ILLEGAL_DATA_ADDRESS;
        }
        size := size - (PART_HEADER + 2 * part.length);
        more := size >= PART_HEADER;
      }
      if size != 0 {
        return ILLEGAL_DATA_VALUE;
      }
      return 0;
    }

    /**
     The host registers at `start`, exchanged in place for the callback `SetFile`, and exchanged back if it succeeds.
     */
    method CallWithRegisters(ghost m: Bytes, ghost p: nat, start: nat, file: u16, record: u16, length: u16)
      returns (err: int)
      requires At(m, p) && start + 2 * length <= p
      modifies this`calls, buf
      ensures var c := SetFile(file, record, RegistersOf(m[start..start + 2 * length]), msg.unit);
              calls == old(calls) + [c] && err == server.app(old(calls), c).err
      ensures err == NONE ==> At(m, p)
    {
      hide Swapped, RegistersOf, HostRegisters;
      ghost var was := buf[..];
      ghost var data := was[start..start + 2 * length];
      SwappedTwice(was, start, length);
      assert was[..p] == buf[..p];
      PrefixSlice(was, m, p, start, start + 2 * length);
      SwapRegs(start, length);
      assert buf[start..start + 2 * length] == Swapped(data);
      SwappedIsHost(data);
      var answer := Invoke(SetFile(file, record, HostRegisters(buf[start..start + 2 * length]), msg.unit));
      err := answer.err;
      if err == NONE {
        ghost var once := buf[..];
        SwapRegs(start, length);
        assert once[start..start + 2 * length] == Swapped(data);
        assert buf[..] == was;
        assert buf[..p] == was[..p];
      }
    }

    /** One sub-request of the second pass. */
    method WritePart(ghost m: Bytes, ghost p: nat) returns (code: byte, length: u16)
      requires At(m, p) && bufIdx + PART_HEADER <= p && bufIdx + PART_HEADER + 2 * PartAt(m, bufIdx).length <= p
      modifies this`bufIdx, this`calls, buf
      ensures length == PartAt(m, old(bufIdx)).length && bufIdx == old(bufIdx) + PART_HEADER + 2 * length
      ensures if 21 !in server.installed then code == ILLEGAL_FUNCTION && calls == old(calls)
              else
                var i := old(bufIdx);
                var c := SetFile(PartAt(m, i).file, PartAt(m, i).record,
                                 RegistersOf(m[i + PART_HEADER..i + PART_HEADER + 2 * length]), msg.unit);
                calls == old(calls) + [c] && code == Code(server, old(calls), c)
      ensures code == 0 ==> At(m, p)
    {
      hide RegistersOf, Word16;
      bufIdx := bufIdx + 1;
      var file := Get2(m, p);
      var record := Get2(m, p);
      length := Get2(m, p);
      var data := bufIdx;
      bufIdx := bufIdx + 2 * length;
      if 21 in server.installed {
        var err := CallWithRegisters(m, p, data, file, record, length);
        code := if err == NONE then 0 else if IsException(err) then err else SERVER_DEVICE_FAILURE;
      } else {
        code := ILLEGAL_FUNCTION;
      }
    }

    /** One turn of the second pass, over what is left of the request up to `e`. */
    method WriteNextPart(ghost m: Bytes, ghost p: nat, ghost e: nat) returns (code: byte, length: u16)
      requires At(m, p) && bufIdx + PART_HEADER <= e <= p && Walkable(m[bufIdx..e])
      modifies this`bufIdx, this`calls, buf
      ensures bufIdx == old(bufIdx) + PART_HEADER + 2 * length && bufIdx <= e
      ensures var whole := WriteRecords(server, old(calls), msg.unit, m[old(bufIdx)..e]);
              if code != 0 || e - bufIdx < PART_HEADER then calls == old(calls) + whole.0 && whole.1 == code
              else
                && Walkable(m[bufIdx..e])
                && calls + WriteRecords(server, calls, msg.unit, m[bufIdx..e]).0 == old(calls) + whole.0
                && WriteRecords(server, calls, msg.unit, m[bufIdx..e]).1 == whole.1
      ensures code == 0 ==> At(m, p)
    {
      hide RegistersOf, PartAt, Code, WriteRecords, Walkable;
      WriteNext(server, calls, msg.unit, m, bufIdx, e);
      ghost var before, made := calls, WriteRecords(server, calls, msg.unit, m[bufIdx..e]).0;
      code, length := WritePart(m, p);
      if code == 0 {
        assert made[..1] == calls[|before|..];
        assert before + made == calls + made[1..];
      }
    }

    /** The second pass: the callbacks, up to the first that fails; without a failure the message is as it was. */
    method WriteParts(ghost m: Bytes, ghost p: nat, requestSize: byte) returns (code: byte)
      requires At(m, p) && bufIdx + requestSize <= p && Walkable(m[bufIdx..bufIdx + requestSize])
      modifies this`bufIdx, this`calls, buf
      ensures var b := m[old(bufIdx)..old(bufIdx) + requestSize];
              var (made, verdict) := WriteRecords(server, old(calls), msg.unit, b);
              calls == old(calls) + made && code == verdict
      ensures code == 0 ==> At(m, p)
    {
      assert requestSize >= PART_HEADER;
      hide RegistersOf, PartAt, WriteRecords, Walkable;
      ghost var e := bufIdx + requestSize;
      ghost var whole := WriteRecords(server, calls, msg.unit, m[bufIdx..e]);
      ghost var total := calls + whole.0;
      var size: nat := requestSize;
      var more := true;
      while more
        invariant At(m, p) && bufIdx + size == e
        invariant more ==>
                    && size >= PART_HEADER && Walkable(m[bufIdx..e])
                    && total == calls + WriteRecords(server, calls, msg.unit, m[bufIdx..e]).0
                    && whole.1 == WriteRecords(server, calls, msg.unit, m[bufIdx..e]).1
        invariant !more ==> total == calls && whole.1 == 0
        decreases more, size
      {
        var length;
        code, length := WriteNextPart(m, p, e);
        if code != 0 {
          return;
        }
        size := size - (PART_HEADER + 2 * length);
        more := size >= PART_HEADER;
      }
      code := 0;
    }

    /** handle_write_file_record after the request was read. */
    method ReplyWriteFile(ghost m: Bytes, requestSize: byte) returns (err: int)
      requires Ready() && Whole(transport, m) && !msg.ignored && FcOf(transport, m) == 21
      requires msg.unit == UnitOf(transport, m) && msg.fc == FcOf(transport, m) && msg.tid == TidOf(transport, m)
      requires requestSize == m[Lead(transport)]
      requires At(m, Lead(transport) + 1 + requestSize + Tail(transport))
      modifies this`bufIdx, this`msg, this`outgoing, this`calls, buf
      ensures !msg.ignored
      ensures var b := m[Lead(transport) + 1..Lead(transport) + 1 + requestSize];
              var act := ServeWriteFile(server, old(calls), old(msg.broadcast), old(msg.unit), b);
              Performed(m, act, err, old(calls), old(outgoing))
    {
      hide Packet, Sealed, Performed, WriteRecords, CheckParts, Walkable, Emitted;
      ghost var p := Lead(transport) + 1 + requestSize + Tail(transport);
      ghost var b := m[Lead(transport) + 1..Lead(transport) + 1 + requestSize];
      ghost var act := ServeWriteFile(server, calls, msg.broadcast, msg.unit, b);
      var msgBufIdx := Lead(transport) + 1;
      bufIdx := msgBufIdx;
      if requestSize < 0x07 || requestSize > 0xFB {
        err := SendExceptionMsg(ILLEGAL_DATA_VALUE);
        RaisePerformed(m, act, err, old(calls), old(outgoing));
        return;
      }
      var code := CheckWrittenParts(m, p, requestSize);
      if code != 0 {
        err := SendExceptionMsg(code);
        RaisePerformed(m, act, err, old(calls), old(outgoing));
        return;
      }
      bufIdx := msgBufIdx;
      code := WriteParts(m, p, requestSize);
      if code != 0 {
        err := SendExceptionMsg(code);
        RaisePerformed(m, act, err, old(calls), old(outgoing));
        return;
      }
      if !msg.broadcast {
        bufIdx := msgBufIdx;
        bufIdx := bufIdx + requestSize;
        assert buf[..bufIdx] == buf[..p][..bufIdx] == m[..p][..bufIdx] == m[..bufIdx];
        err := SendMsg();
        EchoPerformed(m, act, err, old(calls), old(outgoing));
        return;
      }
      QuietPerformed(m, act, old(calls), old(outgoing));
      return NONE;
    }

    method HandleWriteFileRecord(ghost m: Bytes) returns (err: int)
      requires Arrived(m) && msg.fc == 21
      modifies this`incoming, this`bufIdx, this`msg, this`outgoing, this`calls, buf
      ensures Answers(m, err, old(msg.ignored), old(msg.broadcast), old(calls), old(outgoing))
      ensures Leaves(m, old(msg.ignored))
    {
      hide Performed, Accepts, HeadUsed, ResponseHead, ServeWriteFile, Walkable, ResponseUsed, Word16;
      var requestSize;
      err, requestSize := TakeWriteFile(m);
      if err != NONE {
        return;
      }
      WholeRequest(m);
      if !msg.ignored {
        ghost var d := Data(transport, m, 1 + (requestSize as nat));
        assert d[1..] == m[Lead(transport) + 1..Lead(transport) + 1 + requestSize];
        err := ReplyWriteFile(m, requestSize);
      } else {
        err := RecvWriteFileRecordRes(After(m), 0, 0, None);
      }
    }

    /** handle_req_fc. */
    method HandleReqFc(ghost m: Bytes) returns (err: int)
      requires Known(msg.fc) ==> Arrived(m)
      modifies this`incoming, this`bufIdx, this`msg, this`outgoing, this`calls, buf
      ensures old(Known(msg.fc)) ==>
                && Answers(m, err, old(msg.ignored), old(msg.broadcast), old(calls), old(outgoing))
                && Leaves(m, old(msg.ignored))
      ensures !old(Known(msg.fc)) ==>
                err == ILLEGAL_FUNCTION && calls == old(calls) && outgoing == old(outgoing) && incoming == old(incoming)
    {
      hide Answers, Leaves;
      match msg.fc
      case 1 => err := HandleReadDiscrete(m);
      case 2 => err := HandleReadDiscrete(m);
      case 3 => err := HandleReadRegisters(m);
      case 4 => err := HandleReadRegisters(m);
      case 5 => err := HandleWriteSingleCoil(m);
      case 6 => err := HandleWriteSingleRegister(m);
      case 15 => err := HandleWriteMultipleCoils(m);
      case 16 => err := HandleWriteMultipleRegisters(m);
      case 20 => err := HandleReadFileRecord(m);
      case 21 => err := HandleWriteFileRecord(m);
      case 23 => err := HandleReadWriteRegisters(m);
      case _ => err := ILLEGAL_FUNCTION;
    }

    /** recv_req_header: on the serial line a request is a broadcast, for another server, or for this one. */
    predicate Broadcast(m: Bytes)
      requires |m| >= Lead(transport)
    {
      transport.Rtu? && UnitOf(transport, m) == 0
    }

    predicate ForOther(m: Bytes)
      requires |m| >= Lead(transport)
    {
      transport.Rtu? && UnitOf(transport, m) != 0 && UnitOf(transport, m) != addressRtu
    }

    method RecvReqHeader(ghost m: Bytes) returns (err: int, firstByteReceived: bool)
      requires Ready() && incoming == m
      modifies this`incoming, this`bufIdx, this`msg, buf
      ensures err == HeaderStatus(transport, readFails, m) && firstByteReceived == (|m| > 0)
      ensures incoming == m[if |m| < Lead(transport) then |m| else Lead(transport)..]
      ensures err == NONE ==>
                bufIdx == Lead(transport) && At(m, bufIdx) &&
                msg == Msg(UnitOf(transport, m), FcOf(transport, m), TidOf(transport, m), Broadcast(m), ForOther(m))
    {
      err, firstByteReceived := RecvMsgHeader(m);
      if err != NONE {
        return;
      }
      if transport == Rtu {
        if msg.unit == 0 {
          msg := msg.(broadcast := true);
        } else if msg.unit != addressRtu {
          msg := msg.(ignored := true);
        } else {
          msg := msg.(ignored := false);
        }
      }
    }

    /** The sizes declared by a request that is served are within bounds, also those of an overheard response. */
    ghost predicate Pollable(m: Bytes) {
      HeaderStatus(transport, readFails, m) == NONE && Known(FcOf(transport, m)) ==>
        RequestFits(m) && (ForOther(m) ==> OverheardFits(m))
    }

    /** What a flush leaves after a request for another server that came damaged. */
    function Flushed(m: Bytes): Bytes { m[if |m| < BUFFER_SIZE then |m| else BUFFER_SIZE..] }

    /**
     nmbs_server_poll. `handled` is the handler's own result; exceptions and a silent line are no errors of the poll.
     */
    method Poll() returns (err: int, ghost handled: int)
      requires Ready() && Pollable(incoming)
      modifies this`incoming, this`bufIdx, this`msg, this`outgoing, this`calls, buf
      ensures var m := old(incoming);
              var h := HeaderStatus(transport, readFails, m);
              if h != NONE then
                && err == (if |m| == 0 && h == TIMEOUT then NONE else h)
                && calls == old(calls) && outgoing == old(outgoing)
                && incoming == m[if |m| < Lead(transport) then |m| else Lead(transport)..]
              else if !Known(FcOf(transport, m)) then
                err == NONE && calls == old(calls) && outgoing == old(outgoing) && incoming == m[Lead(transport)..]
              else
                && Answers(m, handled, ForOther(m), Broadcast(m), old(calls), old(outgoing))
                && err == (if IsException(handled) then NONE else handled)
                && if err != NONE && err != TIMEOUT && msg.ignored then incoming == Flushed(After(m))
                   else Leaves(m, ForOther(m))
      ensures old(incoming) == [] ==> err == if readFails then -4 else 0
    {
      hide Answers, RequestFits, OverheardFits, ReadParts;
      ghost var m := incoming;
      handled := NONE;
      MsgStateReset();
      var firstByteReceived;
      err, firstByteReceived := RecvReqHeader(m);
      if err != NONE {
        if !firstByteReceived && err == TIMEOUT {
          return NONE, NONE;
        }
        return;
      }
      err := HandleReqFc(m);
      handled := err;
      if err != NONE && !IsException(err) {
        if transport == Rtu && err != TIMEOUT && msg.ignored {
          var n := Read(0, BUFFER_SIZE);
        }
        return;
      }
      return NONE, handled;
    }

    // ----- The client's functions -----

    function NextTid(): u16
      reads this`currentTid
    {
      if currentTid == 65535 then 1 else currentTid + 1
    }

    /** Whether the client waits for a response: not to a broadcast, except that plain reads always wait. */
    predicate Awaited(r: Request) {
      !(transport.Rtu? && destAddressRtu == 0) || r.ReadBits? || r.ReadRegisters?
    }

    function ReplySize(r: Request, m: Bytes): nat {
      if r.WriteCoil? || r.WriteRegister? || r.WriteCoils? || r.WriteRegisters? then 4 else Counted(transport, m, 0)
    }

    /** A response to `r` with sizes that agree and fit the message buffer and an output of `room` cells. */
    predicate ReplyWithin(r: Request, tid: u16, m: Bytes, room: nat) {
      var fc := Function(r);
      Acceptable(r) ==>
      && WellSized(transport, readFails, fc, destAddressRtu, tid, m)
      && (r.ReadBits? || r.ReadFile? || r.WriteFile? ==> ResponseFits(m, destAddressRtu, fc, tid, 1, room))
      && (r.ReadRegisters? || r.ReadWrite? ==> ResponseFits(m, destAddressRtu, fc, tid, 2, room))
    }

    /** The outcome of an acceptable request that met the bytes `m` on the line. */
    ghost predicate Asked(r: Request, err: int, tid: u16, line: Bytes, m: Bytes)
      requires Acceptable(r) && WellSized(transport, readFails, Function(r), destAddressRtu, tid, m)
      reads this`currentTid, this`outgoing, this`incoming
    {
      && currentTid == tid
      && outgoing == line + (if writeStatus == NONE then RequestPacket(transport, tid, destAddressRtu, r) else [])
      && if writeStatus != NONE then err == writeStatus && incoming == m
         else if !Awaited(r) then err == NONE && incoming == m
         else
           && err == ClientStatus(transport, readFails, r, destAddressRtu, tid, m)
           && incoming == m[ResponseUsed(m, destAddressRtu, Function(r), tid, ReplySize(r, m))..]
    }

    method MsgStateReq(fc: byte)
      modifies this`currentTid, this`bufIdx, this`msg
      ensures currentTid == old(NextTid()) && bufIdx == 0
      ensures msg == Msg(destAddressRtu, fc, currentTid, transport.Rtu? && destAddressRtu == 0, false)
    {
      if currentTid == 65535 {
        currentTid := 1;
      } else {
        currentTid := currentTid + 1;
      }
      MsgStateReset();
      msg := msg.(unit := destAddressRtu, fc := fc, tid := currentTid);
      if msg.unit == 0 && transport == Rtu {
        msg := msg.(broadcast := true);
      }
    }

    lemma NotAnswered(r: Request, err: int, tid: u16, line: Bytes, m: Bytes)
      requires Acceptable(r) && WellSized(transport, readFails, Function(r), destAddressRtu, tid, m)
      requires currentTid == tid && incoming == m && err == writeStatus && (err == NONE ==> !Awaited(r))
      requires outgoing == line + if writeStatus == NONE then RequestPacket(transport, tid, destAddressRtu, r) else []
      ensures Asked(r, err, tid, line, m)
    {
    }

    lemma AnswerTaken(r: Request, err: int, tid: u16, line: Bytes, m: Bytes)
      requires Acceptable(r) && WellSized(transport, readFails, Function(r), destAddressRtu, tid, m)
      requires currentTid == tid && writeStatus == NONE && Awaited(r)
      requires outgoing == line + RequestPacket(transport, tid, destAddressRtu, r)
      requires err == ClientStatus(transport, readFails, r, destAddressRtu, tid, m)
      requires incoming == m[ResponseUsed(m, destAddressRtu, Function(r), tid, ReplySize(r, m))..]
      ensures Asked(r, err, tid, line, m)
    {
    }

    method ReadDiscrete(inputs: bool, address: u16, quantity: u16, values: array?<byte>) returns (err: int)
      requires Ready() && values != buf
      requires ReplyWithin(ReadBits(inputs, address, quantity), NextTid(), incoming,
                           if values == null then 255 else values.Length)
      modifies this`incoming, this`bufIdx, this`msg, this`outgoing, this`currentTid, buf, values
      ensures var r := ReadBits(inputs, address, quantity);
              if Acceptable(r) then Asked(r, err, old(NextTid()), old(outgoing), old(incoming))
              else err == INVALID_ARGUMENT && unchanged(this) && unchanged(buf)
      ensures err == NONE && values != null ==>
                && old(|incoming|) >= Lead(transport) + Counted(transport, old(incoming), 0)
                && old(|incoming|) > Lead(transport) && values.Length >= old(incoming)[Lead(transport)]
                && values[..old(incoming)[Lead(transport)]] == BitsRead(transport, old(incoming))
    {
      hide Asked, Header, BigEndian, Sealed, RegisterBytes, BodyStatus, HeadUsed, RegistersRead, BitsRead, ResponseHead;
      ghost var m, r, tid := incoming, ReadBits(inputs, address, quantity), NextTid();
      if quantity < 1 || quantity > 2000 {
        return INVALID_ARGUMENT;
      }
      if address + quantity > 0xFFFF + 1 {
        return INVALID_ARGUMENT;
      }
      MsgStateReq(if inputs then 2 else 1);
      PutMsgHeader(4);
      Put2(address);
      Put2(quantity);
      ghost var sent := buf[..bufIdx];
      assert sent == Header(transport, tid, destAddressRtu, Function(r), |Body(r)|) + Body(r);
      err := SendMsg();
      if err != NONE {
        NotAnswered(r, err, tid, old(outgoing), m);
        return;
      }
      err := RecvReadDiscreteRes(m, values);
      AnswerTaken(r, err, tid, old(outgoing), m);
    }

    method ReadRegisters(inputs: bool, address: u16, quantity: u16, registers: array?<u16>) returns (err: int)
      requires Ready()
      requires ReplyWithin(Request.ReadRegisters(inputs, address, quantity), NextTid(), incoming,
                           if registers == null then 127 else registers.Length)
      modifies this`incoming, this`bufIdx, this`msg, this`outgoing, this`currentTid, buf, registers
      ensures var r := Request.ReadRegisters(inputs, address, quantity);
              if Acceptable(r) then Asked(r, err, old(NextTid()), old(outgoing), old(incoming))
              else err == INVALID_ARGUMENT && unchanged(this) && unchanged(buf)
      ensures err == NONE && registers != null ==>
                && old(|incoming|) >= Lead(transport) + 1 + 2 * quantity && registers.Length >= quantity
                && registers[..quantity] == RegistersRead(transport, old(incoming), 1, quantity)
    {
      hide Asked, Header, BigEndian, Sealed, RegisterBytes, BodyStatus, HeadUsed, RegistersRead, BitsRead, ResponseHead;
      ghost var m, r, tid := incoming, Request.ReadRegisters(inputs, address, quantity), NextTid();
      if quantity < 1 || quantity > 125 {
        return INVALID_ARGUMENT;
      }
      if address + quantity > 0xFFFF + 1 {
        return INVALID_ARGUMENT;
      }
      MsgStateReq(if inputs then 4 else 3);
      PutMsgHeader(4);
      Put2(address);
      Put2(quantity);
      ghost var sent := buf[..bufIdx];
      assert sent == Header(transport, tid, destAddressRtu, Function(r), |Body(r)|) + Body(r);
      err := SendMsg();
      if err != NONE {
        NotAnswered(r, err, tid, old(outgoing), m);
        return;
      }
      err := RecvReadRegistersRes(m, quantity, registers);
      AnswerTaken(r, err, tid, old(outgoing), m);
    }

    method WriteSingleCoil(address: u16, value: bool) returns (err: int)
      requires Ready()
      requires ReplyWithin(WriteCoil(address, value), NextTid(), incoming, 0)
      modifies this`incoming, this`bufIdx, this`msg, this`outgoing, this`currentTid, buf
      ensures var r := WriteCoil(address, value);
              if Acceptable(r) then Asked(r, err, old(NextTid()), old(outgoing), old(incoming))
              else err == INVALID_ARGUMENT && unchanged(this) && unchanged(buf)
    {
      hide Asked, Header, BigEndian, Sealed, RegisterBytes, BodyStatus, HeadUsed, RegistersRead, BitsRead, ResponseHead;
      ghost var m, r, tid := incoming, WriteCoil(address, value), NextTid();
      MsgStateReq(5);
      PutMsgHeader(4);
      var valueReq := if value then 0xFF00 else 0;
      Put2(address);
      Put2(valueReq);
      ghost var sent := buf[..bufIdx];
      assert sent == Header(transport, tid, destAddressRtu, Function(r), |Body(r)|) + Body(r);
      err := SendMsg();
      if err != NONE {
        NotAnswered(r, err, tid, old(outgoing), m);
        return;
      }
      if !msg.broadcast {
        err := RecvEchoRes(m, address, valueReq);
        AnswerTaken(r, err, tid, old(outgoing), m);
      } else {
        NotAnswered(r, err, tid, old(outgoing), m);
      }
    }

    method WriteSingleRegister(address: u16, value: u16) returns (err: int)
      requires Ready()
      requires ReplyWithin(WriteRegister(address, value), NextTid(), incoming, 0)
      modifies this`incoming, this`bufIdx, this`msg, this`outgoing, this`currentTid, buf
      ensures var r := WriteRegister(address, value);
              if Acceptable(r) then Asked(r, err, old(NextTid()), old(outgoing), old(incoming))
              else err == INVALID_ARGUMENT && unchanged(this) && unchanged(buf)
    {
      hide Asked, Header, BigEndian, Sealed, RegisterBytes, BodyStatus, HeadUsed, RegistersRead, BitsRead, ResponseHead;
      ghost var m, r, tid := incoming, WriteRegister(address, value), NextTid();
      MsgStateReq(6);
      PutMsgHeader(4);
      Put2(address);
      Put2(value);
      ghost var sent := buf[..bufIdx];
      assert sent == Header(transport, tid, destAddressRtu, Function(r), |Body(r)|) + Body(r);
      err := SendMsg();
      if err != NONE {
        NotAnswered(r, err, tid, old(outgoing), m);
        return;
      }
      if !msg.broadcast {
        err := RecvEchoRes(m, address, value);
        AnswerTaken(r, err, tid, old(outgoing), m);
      } else {
        NotAnswered(r, err, tid, old(outgoing), m);
      }
    }

    /** The request of nmbs_write_multiple_coils. */
    method PutCoilsRequest(address: u16, quantity: u16, coilsBytes: byte, coils: Bytes)
      requires Ready() && msg.fc == 15 && Acceptable(WriteCoils(address, quantity, coils))
      requires coilsBytes == |coils|
      modifies this`bufIdx, buf
      ensures 0 < bufIdx && bufIdx + Tail(transport) <= BUFFER_SIZE
      ensures var r := WriteCoils(address, quantity, coils);
              buf[..bufIdx] == Header(transport, msg.tid, msg.unit, 15, |Body(r)|) + Body(r)
    {
      hide Header, BigEndian, Body, RegisterBytes;
      BodyPieces(WriteCoils(address, quantity, coils));
      PutMsgHeader(5 + coilsBytes);
      Put2(address);
      Put2(quantity);
      Put1(coilsBytes);
      PutBytes(coils);
    }

    method WriteMultipleCoils(address: u16, quantity: u16, coils: Bytes) returns (err: int)
      requires Ready() && |coils| == BitBytes(quantity)
      requires ReplyWithin(WriteCoils(address, quantity, coils), NextTid(), incoming, 0)
      modifies this`incoming, this`bufIdx, this`msg, this`outgoing, this`currentTid, buf
      ensures var r := WriteCoils(address, quantity, coils);
              if Acceptable(r) then Asked(r, err, old(NextTid()), old(outgoing), old(incoming))
              else err == INVALID_ARGUMENT && unchanged(this) && unchanged(buf)
    {
      hide Asked, Header, BigEndian, Sealed, RegisterBytes, BodyStatus, HeadUsed, RegistersRead, BitsRead, ResponseHead;
      hide Body;
      ghost var m, r, tid := incoming, WriteCoils(address, quantity, coils), NextTid();
      if quantity < 1 || quantity > 0x07B0 {
        return INVALID_ARGUMENT;
      }
      if address + quantity > 0xFFFF + 1 {
        return INVALID_ARGUMENT;
      }
      var coilsBytes := (quantity + 7) / 8;
      MsgStateReq(15);
      PutCoilsRequest(address, quantity, coilsBytes, coils);
      err := SendMsg();
      if err != NONE {
        NotAnswered(r, err, tid, old(outgoing), m);
        return;
      }
      if !msg.broadcast {
        err := RecvEchoRes(m, address, quantity);
        AnswerTaken(r, err, tid, old(outgoing), m);
      } else {
        NotAnswered(r, err, tid, old(outgoing), m);
      }
    }

    method WriteMultipleRegisters(address: u16, quantity: u16, registers: seq<u16>) returns (err: int)
      requires Ready() && |registers| == quantity
      requires ReplyWithin(WriteRegisters(address, registers), NextTid(), incoming, 0)
      modifies this`incoming, this`bufIdx, this`msg, this`outgoing, this`currentTid, buf
      ensures var r := WriteRegisters(address, registers);
              if Acceptable(r) then Asked(r, err, old(NextTid()), old(outgoing), old(incoming))
              else err == INVALID_ARGUMENT && unchanged(this) && unchanged(buf)
    {
      hide Asked, Header, BigEndian, Sealed, RegisterBytes, BodyStatus, HeadUsed, RegistersRead, BitsRead, ResponseHead;
      ghost var m, r, tid := incoming, WriteRegisters(address, registers), NextTid();
      if quantity < 1 || quantity > 0x007B {
        return INVALID_ARGUMENT;
      }
      if address + quantity > 0xFFFF + 1 {
        return INVALID_ARGUMENT;
      }
      var registersBytes := quantity * 2;
      MsgStateReq(16);
      PutMsgHeader(5 + registersBytes);
      Put2(address);
      Put2(quantity);
      Put1(registersBytes);
      PutWords(registers);
      ghost var sent := buf[..bufIdx];
      assert sent == Header(transport, tid, destAddressRtu, Function(r), |Body(r)|) + Body(r);
      err := SendMsg();
      if err != NONE {
        NotAnswered(r, err, tid, old(outgoing), m);
        return;
      }
      if !msg.broadcast {
        err := RecvEchoRes(m, address, quantity);
        AnswerTaken(r, err, tid, old(outgoing), m);
      } else {
        NotAnswered(r, err, tid, old(outgoing), m);
      }
    }

    /** The reference type, which is always 6, and the three words of a file sub-request. */
    method PutPart(fileNumber: u16, recordNumber: u16, count: u16)
      requires bufIdx + PART_HEADER <= buf.Length
      modifies this`bufIdx, buf
      ensures bufIdx == old(bufIdx) + PART_HEADER && bufIdx <= buf.Length
      ensures buf[..bufIdx] == old(buf[..bufIdx]) +
                               ([6] + BigEndian(fileNumber) + BigEndian(recordNumber) + BigEndian(count))
    {
      hide BigEndian;
      Put1(6);
      Put2(fileNumber);
      Put2(recordNumber);
      Put2(count);
    }

    method ReadFileRecord(fileNumber: u16, recordNumber: u16, registers: array<u16>, count: u16) returns (err: int)
      requires Ready() && count <= registers.Length
      requires ReplyWithin(ReadFile(fileNumber, recordNumber, count), NextTid(), incoming, 255)
      modifies this`incoming, this`bufIdx, this`msg, this`outgoing, this`currentTid, buf, registers
      ensures var r := ReadFile(fileNumber, recordNumber, count);
              if Acceptable(r) then Asked(r, err, old(NextTid()), old(outgoing), old(incoming))
              else err == INVALID_ARGUMENT && unchanged(this) && unchanged(buf)
      ensures err == NONE && writeStatus == NONE && Awaited(ReadFile(fileNumber, recordNumber, count)) ==>
                && old(|incoming|) >= Lead(transport) + 3 + 2 * count
                && registers[..count] == RegistersRead(transport, old(incoming), 3, count)
    {
      hide Asked, Header, BigEndian, Sealed, RegisterBytes, BodyStatus, HeadUsed, RegistersRead, BitsRead, ResponseHead;
      ghost var m, r, tid := incoming, ReadFile(fileNumber, recordNumber, count), NextTid();
      if fileNumber == 0x0000 {
        return INVALID_ARGUMENT;
      }
      if recordNumber > 0x270F {
        return INVALID_ARGUMENT;
      }
      if count > 124 {
        return INVALID_ARGUMENT;
      }
      MsgStateReq(20);
      PutMsgHeader(8);
      Put1(7);
      PutPart(fileNumber, recordNumber, count);
      ghost var sent := buf[..bufIdx];
      assert sent == Header(transport, tid, destAddressRtu, Function(r), |Body(r)|) + Body(r);
      err := SendMsg();
      if err != NONE {
        NotAnswered(r, err, tid, old(outgoing), m);
        return;
      }
      if !msg.broadcast {
        err := RecvReadFileRecordRes(m, registers, count);
        AnswerTaken(r, err, tid, old(outgoing), m);
      } else {
        NotAnswered(r, err, tid, old(outgoing), m);
      }
    }

    /** The request of nmbs_write_file_record. */
    method PutFileRequest(fileNumber: u16, recordNumber: u16, registers: seq<u16>, count: u16, dataSize: nat)
      requires Ready() && msg.fc == 21 && Acceptable(WriteFile(fileNumber, recordNumber, registers))
      requires count == |registers| && dataSize == 2 * count
      modifies this`bufIdx, buf
      ensures 0 < bufIdx && bufIdx + Tail(transport) <= BUFFER_SIZE
      ensures var r := WriteFile(fileNumber, recordNumber, registers);
              buf[..bufIdx] == Header(transport, msg.tid, msg.unit, 21, |Body(r)|) + Body(r)
    {
      hide Header, BigEndian, Body, RegisterBytes;
      BodyPieces(WriteFile(fileNumber, recordNumber, registers));
      PutMsgHeader(8 + dataSize);
      Put1(7 + dataSize);
      PutPart(fileNumber, recordNumber, count);
      PutRegs(registers);
    }

    method WriteFileRecord(fileNumber: u16, recordNumber: u16, registers: seq<u16>, count: u16) returns (err: int)
      requires Ready() && |registers| == count
      requires ReplyWithin(WriteFile(fileNumber, recordNumber, registers), NextTid(), incoming, 255)
      modifies this`incoming, this`bufIdx, this`msg, this`outgoing, this`currentTid, buf
      ensures var r := WriteFile(fileNumber, recordNumber, registers);
              if Acceptable(r) then Asked(r, err, old(NextTid()), old(outgoing), old(incoming))
              else err == INVALID_ARGUMENT && unchanged(this) && unchanged(buf)
    {
      hide Asked, Header, BigEndian, Sealed, RegisterBytes, BodyStatus, HeadUsed, RegistersRead, BitsRead, ResponseHead;
      hide Body;
      ghost var m, r, tid := incoming, WriteFile(fileNumber, recordNumber, registers), NextTid();
      if fileNumber == 0x0000 {
        return INVALID_ARGUMENT;
      }
      if recordNumber > 0x270F {
        return INVALID_ARGUMENT;
      }
      if count > 122 {
        return INVALID_ARGUMENT;
      }
      var dataSize := count * 2;
      MsgStateReq(21);
      PutFileRequest(fileNumber, recordNumber, registers, count, dataSize);
      err := SendMsg();
      if err != NONE {
        NotAnswered(r, err, tid, old(outgoing), m);
        return;
      }
      if !msg.broadcast {
        err := RecvWriteFileRecordRes(m, fileNumber, recordNumber, Some(registers));
        AnswerTaken(r, err, tid, old(outgoing), m);
      } else {
        NotAnswered(r, err, tid, old(outgoing), m);
      }
    }

    method PutRanges(a: u16, b: u16, c: u16, d: u16)
      requires bufIdx + 8 <= buf.Length
      modifies this`bufIdx, buf
      ensures bufIdx == old(bufIdx) + 8 && bufIdx <= buf.Length
      ensures buf[..bufIdx] == old(buf[..bufIdx]) + (BigEndian(a) + BigEndian(b) + BigEndian(c) + BigEndian(d))
    {
      hide BigEndian;
      Put2(a);
      Put2(b);
      Put2(c);
      Put2(d);
    }

    /** The request of nmbs_read_write_registers. */
    method PutReadWriteRequest(readAddress: u16, readQuantity: u16, writeAddress: u16, writeQuantity: u16,
                               registers: seq<u16>, registersBytes: nat)
      requires Ready() && msg.fc == 23 && Acceptable(ReadWrite(readAddress, readQuantity, writeAddress, registers))
      requires writeQuantity == |registers| && registersBytes == 2 * writeQuantity
      modifies this`bufIdx, buf
      ensures 0 < bufIdx && bufIdx + Tail(transport) <= BUFFER_SIZE
      ensures var r := ReadWrite(readAddress, readQuantity, writeAddress, registers);
              buf[..bufIdx] == Header(transport, msg.tid, msg.unit, 23, |Body(r)|) + Body(r)
    {
      hide Header, BigEndian, Body, RegisterBytes;
      BodyPieces(ReadWrite(readAddress, readQuantity, writeAddress, registers));
      PutMsgHeader(9 + registersBytes);
      PutRanges(readAddress, readQuantity, writeAddress, writeQuantity);
      Put1(registersBytes);
      PutWords(registers);
    }

    method ReadWriteRegisters(readAddress: u16, readQuantity: u16, registersOut: array?<u16>,
                              writeAddress: u16, writeQuantity: u16, registers: seq<u16>) returns (err: int)
      requires Ready() && |registers| == writeQuantity
      requires ReplyWithin(ReadWrite(readAddress, readQuantity, writeAddress, registers), NextTid(), incoming,
                           if registersOut == null then 127 else registersOut.Length)
      modifies this`incoming, this`bufIdx, this`msg, this`outgoing, this`currentTid, buf, registersOut
      ensures var r := ReadWrite(readAddress, readQuantity, writeAddress, registers);
              if Acceptable(r) then Asked(r, err, old(NextTid()), old(outgoing), old(incoming))
              else err == INVALID_ARGUMENT && unchanged(this) && unchanged(buf)
      ensures err == NONE && registersOut != null && writeStatus == NONE
              && Awaited(ReadWrite(readAddress, readQuantity, writeAddress, registers)) ==>
                && old(|incoming|) >= Lead(transport) + 1 + 2 * readQuantity && registersOut.Length >= readQuantity
                && registersOut[..readQuantity] == RegistersRead(transport, old(incoming), 1, readQuantity)
    {
      hide Asked, Header, BigEndian, Sealed, RegisterBytes, BodyStatus, HeadUsed, RegistersRead, BitsRead, ResponseHead;
      hide Body;
      ghost var m, r, tid := incoming, ReadWrite(readAddress, readQuantity, writeAddress, registers), NextTid();
      if readQuantity < 1 || readQuantity > 0x007D {
        return INVALID_ARGUMENT;
      }
      if readAddress + readQuantity > 0xFFFF + 1 {
        return INVALID_ARGUMENT;
      }
      if writeQuantity < 1 || writeQuantity > 0x0079 {
        return INVALID_ARGUMENT;
      }
      if writeAddress + writeQuantity > 0xFFFF + 1 {
        return INVALID_ARGUMENT;
      }
      var registersBytes := writeQuantity * 2;
      MsgStateReq(23);
      PutReadWriteRequest(readAddress, readQuantity, writeAddress, writeQuantity, registers, registersBytes);
      err := SendMsg();
      if err != NONE {
        NotAnswered(r, err, tid, old(outgoing), m);
        return;
      }
      if !msg.broadcast {
        err := RecvReadRegistersRes(m, readQuantity, registersOut);
        AnswerTaken(r, err, tid, old(outgoing), m);
      } else {
        NotAnswered(r, err, tid, old(outgoing), m);
      }
    }
  }
}
