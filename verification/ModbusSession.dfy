/**
 The methods of two nanoMODBUS instances over one line: a client's call and the server's poll meet each other's
 preconditions. The exchanges of module ModbusExchange are put together from this.
 */
module ModbusSession {
  import opened Base
  import opened Crc16
  import opened ModbusWire
  import opened ModbusProtocol
  import opened ModbusEndToEnd
  import opened NmbsModel

  /** A server that takes requests sent to `unit`, on a line that lets it answer. */
  predicate Serves(n: Nmbs, unit: byte) {
    n.writeStatus == NONE && (n.transport.Rtu? ==> unit == n.addressRtu && unit != 0)
  }

  /** The sizes in a client's request are within the bounds the server relies on. */
  lemma RequestWithin(n: Nmbs, tid: u16, unit: byte, r: Request, m: Bytes)
    requires Acceptable(r) && RequestPacket(n.transport, tid, unit, r) <= m
    requires |m| >= Lead(n.transport)
    ensures n.RequestFits(m)
  {
    hide HeaderStatus, BodyStatus, Packet, RegisterBytes, BigEndian, Walkable, ReadParts, ReadSize;
    var t := n.transport;
    RequestArrives(t, n.readFails, tid, unit, r, m);
    RequestBytes(t, tid, unit, r, m);
    if r.ReadFile? {
      PartSent(r.file, r.record, r.count, []);
      OnePart(r);
    }
    if r.WriteFile? {
      WriteFileHalf(n.server, [], false, unit, r);
    }
  }

  lemma OnePart(r: Request)
    requires Acceptable(r) && r.ReadFile?
    ensures ReadParts(Body(r)[1..]) == [Part(6, r.file, r.record, r.count)]
    ensures ReadSize(ReadParts(Body(r)[1..])) == 2 + 2 * r.count
  {
    hide BigEndian, PartAt;
    var b := [6] + BigEndian(r.file) + BigEndian(r.record) + BigEndian(r.count) + [];
    PartSent(r.file, r.record, r.count, []);
    assert Body(r)[1..] == b;
    assert ReadParts(b[7..]) == [];
    var parts := ReadParts(b);
    assert parts == [Part(6, r.file, r.record, r.count)];
    assert parts[..0] == [] && ReadSize([]) == 0;
  }

  /** The bytes of the request the server's size checks look at. */
  lemma RequestBytes(t: Transport, tid: u16, unit: byte, r: Request, m: Bytes)
    requires Acceptable(r) && RequestPacket(t, tid, unit, r) <= m
    ensures |m| >= Lead(t) + |Body(r)| && |Body(r)| > 0
    ensures r.WriteCoils? ==> m[Lead(t) + 4] == |r.coils|
    ensures r.WriteRegisters? ==> m[Lead(t) + 4] == 2 * |r.registers|
    ensures r.ReadWrite? ==> m[Lead(t) + 8] == 2 * |r.registers|
    ensures m[Lead(t) + 1..Lead(t) + |Body(r)|] == Body(r)[1..]
  {
    hide HeaderStatus, BodyStatus, Packet, Body;
    BodyCounts(r);
    PacketReceived(t, false, tid, unit, Function(r), |Body(r)|, Body(r), m);
    var d := Body(r);
    assert |m| >= Lead(t) + |d|;
    assert r.WriteCoils? || r.WriteRegisters? ==> m[Lead(t) + 4] == d[4];
    assert r.ReadWrite? ==> m[Lead(t) + 8] == d[8];
    DataStretch(t, m, d, 1);
  }

  /** The serial line carries no transaction identifier. */
  lemma SameOnSerialLine(t: Transport, s: Server, done: seq<Call>, tid: u16, other: u16, unit: byte, r: Request)
    requires Acceptable(r) && (t.Tcp? ==> tid == other)
    ensures RequestPacket(t, tid, unit, r) == RequestPacket(t, other, unit, r)
    ensures Answered(t, s, done, tid, unit, r) == Answered(t, s, done, other, unit, r)
  {
    hide Sealed, Body, Due;
    assert forall length, fc :: length <= 65533 ==>
             Header(t, tid, unit, fc, length) == Header(t, other, unit, fc, length);
  }

  /** A poll that finds a client's request makes the client's calls and puts exactly their answer on the line. */
  lemma PollServes(n: Nmbs, tid: u16, unit: byte, r: Request, m: Bytes, handled: int, done: seq<Call>, line: Bytes)
    requires Acceptable(r) && Serves(n, unit) && RequestPacket(n.transport, tid, unit, r) <= m
    ensures n.Pollable(m) && HeaderStatus(n.transport, n.readFails, m) == NONE && Known(FcOf(n.transport, m))
    ensures n.Answers(m, handled, n.ForOther(m), n.Broadcast(m), done, line) ==>
              && handled == NONE
              && n.calls == done + Outcome(n.server, done, unit, r).0
              && n.outgoing == line + Answered(n.transport, n.server, done, tid, unit, r)
  {
    hide HeaderStatus, BodyStatus, Packet, React, Outcome, Body, RequestSize, Whole, Response, RequestPacket;
    hide GoodReply, UnitOf, FcOf, TidOf;
    var t := n.transport;
    RequestArrives(t, n.readFails, tid, unit, r, m);
    ServerEnd(t, n.server, done, false, tid, unit, r, n.readFails, m);
    RequestBytes(t, tid, unit, r, m);
    RequestWithin(n, tid, unit, r, m);
    SameOnSerialLine(t, n.server, done, tid, TidOf(t, m), unit, r);
    AnswerSent(t, n.server, done, TidOf(t, m), unit, r, m);
    AnswerIsPacket(t, n.server, done, tid, unit, r);
  }

  /**
   A poll that finds a broadcast on the serial line makes the calls of the request with unit 0 and stays silent, unless
   a callback fails or is missing: the exception is sent, though nobody was asked to answer.
   */
  lemma PollHeeds(n: Nmbs, tid: u16, r: Request, m: Bytes, handled: int, done: seq<Call>, line: Bytes)
    requires Acceptable(r) && n.transport.Rtu? && n.writeStatus == NONE && RequestPacket(Rtu, tid, 0, r) <= m
    ensures n.Pollable(m) && HeaderStatus(Rtu, n.readFails, m) == NONE && Known(FcOf(Rtu, m))
    ensures n.Broadcast(m) && !n.ForOther(m)
    ensures n.Answers(m, handled, false, true, done, line) ==>
              var (calls, code) := Heeded(n.server, done, 0, r);
              && handled == NONE && n.calls == done + calls
              && n.outgoing == line + if code == 0 then [] else Packet(Rtu, 0, 0, Function(r) + 0x80, 1, [code])
  {
    hide HeaderStatus, BodyStatus, Packet, React, Heeded, Body, RequestSize, Whole, RequestPacket, UnitOf, FcOf;
    RequestArrives(Rtu, n.readFails, tid, 0, r, m);
    ServerEnd(Rtu, n.server, done, true, tid, 0, r, n.readFails, m);
    RequestBytes(Rtu, tid, 0, r, m);
    RequestWithin(n, tid, 0, r, m);
    assert line + [] == line;
  }

  /** An output of `room` cells takes what a request asks for; file requests have none of their own to mind. */
  predicate HasRoom(r: Request, room: nat) {
    match r
    case ReadBits(_, _, quantity) => room >= BitBytes(quantity)
    case ReadRegisters(_, _, quantity) => room >= quantity
    case ReadWrite(_, quantity, _, _) => room >= quantity
    case ReadFile(_, _, _) => room >= 255
    case WriteFile(_, _, _) => room >= 255
    case _ => true
  }

  /** The sizes in a server's answer are within the bounds the client relies on. */
  lemma AnswerWithin(n: Nmbs, s: Server, done: seq<Call>, tid: u16, r: Request, m: Bytes, room: nat)
    requires Acceptable(r) && Answered(n.transport, s, done, tid, n.destAddressRtu, r) <= m
    requires HasRoom(r, room)
    ensures n.ReplyWithin(r, tid, m, room)
  {
    hide HeaderStatus, BodyStatus, Packet, Outcome, Answered, ResponseHead, RegisterBytes, BigEndian, BitsGiven;
    hide RegistersGiven, WellSized, GoodReply;
    var t, unit := n.transport, n.destAddressRtu;
    ClientEnd(t, s, done, tid, unit, r, n.readFails, m);
    AnswerIsPacket(t, s, done, tid, unit, r);
    var code := Outcome(s, done, unit, r).1;
    if code != 0 {
      PacketReceived(t, n.readFails, tid, unit, Function(r) + 0x80, 1, [code], m);
      ExceptionHead(t, n.readFails, tid, unit, Function(r), code, m);
    } else {
      var d := GoodReply(s, done, unit, r);
      PacketReceived(t, n.readFails, tid, unit, Function(r), if r.ReadFile? then |d| - 1 else |d|, d, m);
      ReplyCounts(s, done, unit, r);
      assert |m| >= Lead(t) + |d|;
      assert |d| > 0 ==> m[Lead(t) + 0] == d[0];
    }
  }

  lemma ExceptionHead(t: Transport, fails: bool, tid: u16, unit: byte, fc: byte, code: byte, m: Bytes)
    requires 1 <= code <= 4 && fc < 0x80 && Packet(t, tid, unit, fc + 0x80, 1, [code]) <= m
    ensures ResponseHead(t, fails, unit, fc, tid, m) == code
  {
    hide Packet, HeaderStatus, BodyStatus, TidOf, UnitOf, FcOf;
    PacketReceived(t, fails, tid, unit, fc + 0x80, 1, [code], m);
    assert m[Lead(t) + 0] == code;
  }
}
