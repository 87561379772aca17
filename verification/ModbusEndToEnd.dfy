/**
 A nanoMODBUS client and a server joined by a lossless line. Whatever the client may ask, the server's callbacks get
 exactly the client's arguments, and the client gets exactly what they answered, or the exception they raised.
 */
module ModbusEndToEnd {
  import opened Base
  import opened Crc16
  import opened ModbusWire
  import opened ModbusProtocol

  /** The data of the reply to a request whose callbacks all succeed. */
  function GoodReply(s: Server, done: seq<Call>, unit: byte, r: Request): Bytes
    requires Acceptable(r)
  {
    match r
    case ReadBits(_, address, quantity) =>
      var n := BitBytes(quantity);
      [n] + BitsGiven(s, done, AskBits(Function(r), address, quantity, unit), n)
    case ReadRegisters(_, address, quantity) =>
      [2 * quantity] +
      RegisterBytes(RegistersGiven(s, done, AskRegisters(Function(r), address, quantity, unit), quantity))
    case WriteCoil(address, on) => BigEndian(address) + BigEndian(CoilValue(on))
    case WriteRegister(address, value) => BigEndian(address) + BigEndian(value)
    case WriteCoils(address, quantity, _) => BigEndian(address) + BigEndian(quantity)
    case WriteRegisters(address, regs) => BigEndian(address) + BigEndian(|regs|)
    case ReadFile(file, record, count) =>
      [2 + 2 * count, 2 * count + 1, 6] +
      RegisterBytes(RegistersGiven(s, done, AskFile(file, record, count, unit), count))
    case WriteFile(_, _, _) => Body(r)
    case ReadWrite(address, quantity, writeAddress, regs) =>
      [2 * quantity] +
      RegisterBytes(RegistersGiven(s, done + [SetRegisters(writeAddress, regs, unit)],
                              AskRegisters(3, address, quantity, unit), quantity))
  }

  /** What the server's handler decides about a request body. */
  function Due(s: Server, done: seq<Call>, unit: byte, r: Request): Act
    requires Acceptable(r)
  {
    var (calls, code) := Outcome(s, done, unit, r);
    var reply := GoodReply(s, done, unit, r);
    Act(calls, if code != 0 then Raise(code) else if r.WriteFile? then Echo
               else Reply(if r.ReadFile? then |reply| - 1 else |reply|, reply))
  }

  /** What becomes of a broadcast: a combined write and read stops after its write. */
  function Heeded(s: Server, done: seq<Call>, unit: byte, r: Request): (seq<Call>, byte)
    requires Acceptable(r)
  {
    match r
    case ReadWrite(_, _, writeAddress, regs) =>
      if 16 !in s.installed || 3 !in s.installed then ([], ILLEGAL_FUNCTION)
      else
        var w := SetRegisters(writeAddress, regs, unit);
        ([w], Code(s, done, w))
    case _ => Outcome(s, done, unit, r)
  }

  /** What the handler decides about a broadcast: nothing is sent back but the exception. */
  function DueQuietly(s: Server, done: seq<Call>, unit: byte, r: Request): Act
    requires Acceptable(r)
  {
    var (calls, code) := Heeded(s, done, unit, r);
    Act(calls, if code != 0 then Raise(code) else Quiet)
  }

  /** A broadcast of any request makes the calls the request would make by itself, up to the write it starts with. */
  lemma HeededIsOutcome(s: Server, done: seq<Call>, unit: byte, r: Request)
    requires Acceptable(r)
    ensures Heeded(s, done, unit, r).0 <= Outcome(s, done, unit, r).0
    ensures !r.ReadWrite? || |Outcome(s, done, unit, r).0| <= 1 ==>
              Heeded(s, done, unit, r) == Outcome(s, done, unit, r)
    ensures r.ReadWrite? && |Outcome(s, done, unit, r).0| > 1 ==>
              Heeded(s, done, unit, r) == ([SetRegisters(r.writeAddress, r.registers, unit)], 0)
  {
    hide Code;
  }

  lemma TwoWords(a: u16, b: u16, rest: Bytes)
    ensures var d := BigEndian(a) + BigEndian(b) + rest;
            Word16(d[0], d[1]) == a && Word16(d[2], d[3]) == b && d[4..] == rest
  {
  }

  /** The handler of a request finds its arguments where the client put them. */
  lemma ServerHalf(s: Server, done: seq<Call>, quiet: bool, unit: byte, r: Request)
    requires Acceptable(r) && !r.ReadFile? && !r.WriteFile? && !r.ReadWrite?
    ensures Serve(s, done, quiet, unit, Function(r), Body(r)) ==
            if quiet then DueQuietly(s, done, unit, r) else Due(s, done, unit, r)
  {
    hide BigEndian, RegisterBytes, RegistersOf, Code, BitsGiven, RegistersGiven, Cells, Word16;
    var d := Body(r);
    match r {
      case ReadBits(_, address, quantity) => TwoWords(address, quantity, []); assert d == d + [];
      case ReadRegisters(_, address, quantity) => TwoWords(address, quantity, []); assert d == d + [];
      case WriteCoil(address, on) => TwoWords(address, CoilValue(on), []); assert d == d + [];
      case WriteRegister(address, value) => TwoWords(address, value, []); assert d == d + [];
      case WriteCoils(address, quantity, coils) =>
        TwoWords(address, quantity, [|coils|] + coils);
        assert d == BigEndian(address) + BigEndian(quantity) + ([|coils|] + coils);
        assert d[5..] == d[4..][1..] == coils;
      case WriteRegisters(address, regs) =>
        TwoWords(address, |regs|, [2 * |regs|] + RegisterBytes(regs));
        assert d == BigEndian(address) + BigEndian(|regs|) + ([2 * |regs|] + RegisterBytes(regs));
        assert d[5..] == d[4..][1..] == RegisterBytes(regs);
        RegistersRoundTrip(regs);
    }
  }

  lemma ReadWriteHalf(s: Server, done: seq<Call>, quiet: bool, unit: byte, r: Request)
    requires Acceptable(r) && r.ReadWrite?
    ensures Serve(s, done, quiet, unit, 23, Body(r)) ==
            if quiet then DueQuietly(s, done, unit, r) else Due(s, done, unit, r)
  {
    hide BigEndian, RegisterBytes, RegistersOf, Code, BitsGiven, RegistersGiven, Cells, Word16;
    var d := Body(r);
    var tail := [2 * |r.registers|] + RegisterBytes(r.registers);
    TwoWords(r.address, r.quantity, BigEndian(r.writeAddress) + BigEndian(|r.registers|) + tail);
    TwoWords(r.writeAddress, |r.registers|, tail);
    assert d == BigEndian(r.address) + BigEndian(r.quantity)
                + (BigEndian(r.writeAddress) + BigEndian(|r.registers|) + tail);
    assert d[4..] == BigEndian(r.writeAddress) + BigEndian(|r.registers|) + tail;
    assert d[4] == d[4..][0] && d[5] == d[4..][1] && d[6] == d[4..][2] && d[7] == d[4..][3];
    assert d[9..] == d[4..][4..][1..] == RegisterBytes(r.registers);
    RegistersRoundTrip(r.registers);
  }

  /** The sub-request a client's file request consists of. */
  lemma PartSent(file: u16, record: u16, count: u16, rest: Bytes)
    ensures PartAt([6] + BigEndian(file) + BigEndian(record) + BigEndian(count) + rest, 0)
              == Part(6, file, record, count)
    ensures ([6] + BigEndian(file) + BigEndian(record) + BigEndian(count) + rest)[7..] == rest
  {
    var b := [6] + BigEndian(file) + BigEndian(record) + BigEndian(count) + rest;
    assert b[1] == BigEndian(file)[0] && b[2] == BigEndian(file)[1];
    assert b[3] == BigEndian(record)[0] && b[4] == BigEndian(record)[1];
    assert b[5] == BigEndian(count)[0] && b[6] == BigEndian(count)[1];
  }

  lemma ReadFileHalf(s: Server, done: seq<Call>, quiet: bool, unit: byte, r: Request)
    requires Acceptable(r) && r.ReadFile?
    ensures Serve(s, done, quiet, unit, 20, Body(r)) ==
            if quiet then DueQuietly(s, done, unit, r) else Due(s, done, unit, r)
  {
    hide BigEndian, RegisterBytes, Code, RegistersGiven, PartAt, Word16;
    var b := [6] + BigEndian(r.file) + BigEndian(r.record) + BigEndian(r.count) + [];
    var p := Part(6, r.file, r.record, r.count);
    PartSent(r.file, r.record, r.count, []);
    assert Body(r)[1..] == b;
    assert ReadParts(b) == [p] by {
      assert ReadParts(b[7..]) == [];
    }
    assert [p][..0] == [] && ReadSize([]) == 0;
    assert ReadRecords(s, done, unit, []) == ([], Reply(0, []));
    assert GoodPart(p, 124);
    var c := AskFile(r.file, r.record, r.count, unit);
    assert done + [] == done;
    assert [] + [c] == [c];
    var data := RegisterBytes(RegistersGiven(s, done, c, r.count));
    assert [2 + 2 * r.count] + ([] + [(2 * r.count + 1) % 256, 6] + data)
        == [2 + 2 * r.count, 2 * r.count + 1, 6] + data;
  }

  lemma WriteFileHalf(s: Server, done: seq<Call>, quiet: bool, unit: byte, r: Request)
    requires Acceptable(r) && r.WriteFile?
    ensures Walkable(Body(r)[1..])
    ensures Serve(s, done, quiet, unit, 21, Body(r)) ==
            if quiet then DueQuietly(s, done, unit, r) else Due(s, done, unit, r)
  {
    hide BigEndian, RegisterBytes, RegistersOf, Code, PartAt, Word16;
    var regs := RegisterBytes(r.registers);
    var b := [6] + BigEndian(r.file) + BigEndian(r.record) + BigEndian(|r.registers|) + regs;
    PartSent(r.file, r.record, |r.registers|, regs);
    assert Body(r)[1..] == b;
    assert b[7..|b|] == b[7..] == regs;
    assert b[7 + 2 * |r.registers|..] == [];
    RegistersRoundTrip(r.registers);
  }

  /** The server does what is due for every acceptable request, sent to it or to all. */
  lemma ServerServes(s: Server, done: seq<Call>, quiet: bool, unit: byte, r: Request)
    requires Acceptable(r)
    ensures r.WriteFile? ==> Walkable(Body(r)[1..])
    ensures Serve(s, done, quiet, unit, Function(r), Body(r)) ==
            if quiet then DueQuietly(s, done, unit, r) else Due(s, done, unit, r)
  {
    hide Serve, Due, DueQuietly;
    match r {
      case ReadFile(_, _, _) => ReadFileHalf(s, done, quiet, unit, r);
      case WriteFile(_, _, _) => WriteFileHalf(s, done, quiet, unit, r);
      case ReadWrite(_, _, _, _) => ReadWriteHalf(s, done, quiet, unit, r);
      case _ => ServerHalf(s, done, quiet, unit, r);
    }
  }

  /** The size of a request's data and the byte in it that counts what follows. */
  lemma BodyCounts(r: Request)
    requires Acceptable(r)
    ensures 0 < |Body(r)| <= 252
    ensures r.WriteCoils? ==> |Body(r)| == 5 + |r.coils| && Body(r)[4] == |r.coils|
    ensures r.WriteRegisters? ==> |Body(r)| == 5 + 2 * |r.registers| && Body(r)[4] == 2 * |r.registers|
    ensures r.ReadWrite? ==> |Body(r)| == 9 + 2 * |r.registers| && Body(r)[8] == 2 * |r.registers|
    ensures r.ReadFile? ==> |Body(r)| == 8 && Body(r)[0] == 7
    ensures r.WriteFile? ==> |Body(r)| == 8 + 2 * |r.registers| && Body(r)[0] == 7 + 2 * |r.registers|
    ensures r.ReadBits? || r.ReadRegisters? || r.WriteCoil? || r.WriteRegister? ==> |Body(r)| == 4
  {
    hide BigEndian, RegisterBytes;
  }

  /** The request arrives whole: the sizes the server reads off are those the client sent. */
  lemma RequestArrives(t: Transport, fails: bool, tid: u16, unit: byte, r: Request, m: Bytes)
    requires Acceptable(r) && RequestPacket(t, tid, unit, r) <= m
    ensures |RequestPacket(t, tid, unit, r)| <= BUFFER_SIZE
    ensures HeaderStatus(t, fails, m) == NONE
    ensures UnitOf(t, m) == unit && FcOf(t, m) == Function(r) && (t.Tcp? ==> TidOf(t, m) == tid)
    ensures RequestSize(t, Function(r), m) == |Body(r)|
    ensures BodyStatus(t, fails, m, |Body(r)|) == NONE && Data(t, m, |Body(r)|) == Body(r)
  {
    hide HeaderStatus, BodyStatus, Packet, Body;
    BodyCounts(r);
    PacketReceived(t, fails, tid, unit, Function(r), |Body(r)|, Body(r), m);
    assert |m| >= Lead(t) + |Body(r)|;
    var d := Body(r);
    assert r.WriteCoils? || r.WriteRegisters? ==> m[Lead(t) + 4] == d[4];
    assert r.ReadFile? || r.WriteFile? ==> m[Lead(t) + 0] == d[0];
    assert r.ReadWrite? ==> m[Lead(t) + 8] == d[8];
  }

  /** The values the server's application answered with reached the client. */
  predicate Delivered(t: Transport, s: Server, done: seq<Call>, unit: byte, r: Request, m: Bytes)
    requires Acceptable(r)
  {
    match r
    case ReadBits(_, address, quantity) =>
      && |m| >= Lead(t) + Counted(t, m, 0) && |m| > Lead(t)
      && BitsRead(t, m) == BitsGiven(s, done, AskBits(Function(r), address, quantity, unit), BitBytes(quantity))
    case ReadRegisters(_, address, quantity) =>
      && |m| >= Lead(t) + 1 + 2 * quantity
      && RegistersRead(t, m, 1, quantity)
           == RegistersGiven(s, done, AskRegisters(Function(r), address, quantity, unit), quantity)
    case ReadFile(file, record, count) =>
      && |m| >= Lead(t) + 3 + 2 * count
      && RegistersRead(t, m, 3, count) == RegistersGiven(s, done, AskFile(file, record, count, unit), count)
    case ReadWrite(address, quantity, writeAddress, regs) =>
      && |m| >= Lead(t) + 1 + 2 * quantity
      && RegistersRead(t, m, 1, quantity)
           == RegistersGiven(s, done + [SetRegisters(writeAddress, regs, unit)],
                             AskRegisters(3, address, quantity, unit), quantity)
    case _ => true
  }

  lemma DataStretch(t: Transport, m: Bytes, data: Bytes, i: nat)
    requires |m| >= Lead(t) + |data| && Data(t, m, |data|) == data && i <= |data|
    ensures m[Lead(t) + i..Lead(t) + |data|] == data[i..]
  {
    assert Data(t, m, |data|)[i..] == m[Lead(t) + i..Lead(t) + |data|];
  }

  /** The head of the reply to its own request satisfies the client. */
  lemma GoodHead(t: Transport, fails: bool, tid: u16, unit: byte, fc: byte, length: nat, data: Bytes, m: Bytes)
    requires length <= 253 && Packet(t, tid, unit, fc, length, data) <= m
    ensures ResponseHead(t, fails, unit, fc, tid, m) == NONE
  {
    hide Packet, HeaderStatus, TidOf, UnitOf, FcOf;
    PacketReceived(t, fails, tid, unit, fc, length, data, m);
  }

  lemma EchoHeard(t: Transport, m: Bytes, address: u16, value: u16)
    requires |m| >= Lead(t) + 4 && Data(t, m, 4) == BigEndian(address) + BigEndian(value)
    ensures Word16(m[Lead(t)], m[Lead(t) + 1]) == address && Word16(m[Lead(t) + 2], m[Lead(t) + 3]) == value
  {
    var d := BigEndian(address) + BigEndian(value);
    var l := Lead(t);
    assert m[l] == d[0] && m[l + 1] == d[1] && m[l + 2] == d[2] && m[l + 3] == d[3];
  }

  lemma PartMoved(m: Bytes, at: nat, b: Bytes)
    requires |b| >= PART_HEADER && at + |b| <= |m| && m[at..at + |b|] == b
    ensures PartAt(m, at) == PartAt(b, 0)
  {
    assert forall i :: 0 <= i < PART_HEADER ==> m[at + i] == b[i];
  }

  lemma FileReadReply(t: Transport, fails: bool, s: Server, done: seq<Call>, tid: u16, unit: byte, r: Request, m: Bytes)
    requires Acceptable(r) && r.ReadFile?
    requires Packet(t, tid, unit, 20, |GoodReply(s, done, unit, r)| - 1, GoodReply(s, done, unit, r)) <= m
    ensures ReadFileSized(t, m) && ReadFileStatus(t, fails, m, Some(r.count)) == NONE
    ensures Delivered(t, s, done, unit, r, m)
  {
    hide Packet, HeaderStatus, BodyStatus, RegisterBytes, RegistersOf, RegistersGiven;
    var d := GoodReply(s, done, unit, r);
    PacketReceived(t, fails, tid, unit, 20, |d| - 1, d, m);
    var l := Lead(t);
    assert |m| >= l + |d|;
    assert m[l + 0] == d[0] && m[l + 1] == d[1] && m[l + 2] == d[2];
    DataStretch(t, m, d, 3);
    RegistersRoundTrip(RegistersGiven(s, done, AskFile(r.file, r.record, r.count, unit), r.count));
  }

  lemma FileWriteReply(t: Transport, fails: bool, tid: u16, unit: byte, r: Request, m: Bytes)
    requires Acceptable(r) && r.WriteFile? && Packet(t, tid, unit, 21, |Body(r)|, Body(r)) <= m
    ensures WriteFileSized(t, m) && WriteFileStatus(t, fails, m, r.file, r.record, Some(r.registers)) == NONE
  {
    hide Packet, HeaderStatus, BodyStatus, RegisterBytes, RegistersOf, BigEndian, PartAt;
    var d := Body(r);
    var regs := r.registers;
    PacketReceived(t, fails, tid, unit, 21, |d|, d, m);
    var l := Lead(t);
    assert |m| >= l + |d|;
    assert m[l + 0] == d[0];
    DataStretch(t, m, d, 1);
    DataStretch(t, m, d, 8);
    PartSent(r.file, r.record, |regs|, RegisterBytes(regs));
    assert d[1..] == [6] + BigEndian(r.file) + BigEndian(r.record) + BigEndian(|regs|) + RegisterBytes(regs);
    PartMoved(m, l + 1, d[1..]);
    assert d[8..] == d[1..][7..];
    RegistersRoundTrip(regs);
  }

  lemma ReadReply(t: Transport, fails: bool, s: Server, done: seq<Call>, tid: u16, unit: byte, r: Request, m: Bytes)
    requires Acceptable(r) && (r.ReadBits? || r.ReadRegisters? || r.ReadWrite?)
    requires Packet(t, tid, unit, Function(r), |GoodReply(s, done, unit, r)|, GoodReply(s, done, unit, r)) <= m
    ensures if r.ReadBits? then BitsStatus(t, fails, m) == NONE else RegistersStatus(t, fails, m, r.quantity) == NONE
    ensures Delivered(t, s, done, unit, r, m)
  {
    hide Packet, HeaderStatus, BodyStatus, RegisterBytes, RegistersOf, RegistersGiven, BitsGiven;
    var d := GoodReply(s, done, unit, r);
    PacketReceived(t, fails, tid, unit, Function(r), |d|, d, m);
    assert |m| >= Lead(t) + |d|;
    assert m[Lead(t) + 0] == d[0];
    DataStretch(t, m, d, 1);
    match r {
      case ReadBits(_, _, quantity) =>
      case ReadRegisters(inputs, address, quantity) =>
        RegistersRoundTrip(RegistersGiven(s, done, AskRegisters(Function(r), address, quantity, unit), quantity));
      case ReadWrite(address, quantity, writeAddress, regs) =>
        RegistersRoundTrip(RegistersGiven(s, done + [SetRegisters(writeAddress, regs, unit)],
                                          AskRegisters(3, address, quantity, unit), quantity));
    }
  }

  lemma EchoReply(t: Transport, fails: bool, tid: u16, unit: byte, fc: byte, address: u16, value: u16, m: Bytes)
    requires Packet(t, tid, unit, fc, 4, BigEndian(address) + BigEndian(value)) <= m
    ensures EchoStatus(t, fails, m, address, value) == NONE
  {
    hide Packet, HeaderStatus, BodyStatus, BigEndian;
    PacketReceived(t, fails, tid, unit, fc, 4, BigEndian(address) + BigEndian(value), m);
    EchoHeard(t, m, address, value);
  }

  /** The reply of a server whose callbacks succeeded ends the client's call without an error. */
  lemma ReplyReceived(t: Transport, fails: bool, s: Server, done: seq<Call>, tid: u16, unit: byte, r: Request, m: Bytes)
    requires Acceptable(r)
    requires var data := GoodReply(s, done, unit, r);
             |data| <= 253 &&
             Packet(t, tid, unit, Function(r), if r.ReadFile? then |data| - 1 else |data|, data) <= m
    ensures WellSized(t, fails, Function(r), unit, tid, m)
    ensures ClientStatus(t, fails, r, unit, tid, m) == NONE
    ensures Delivered(t, s, done, unit, r, m)
  {
    hide Packet, ResponseHead, RegisterBytes, BigEndian, BitsGiven, RegistersGiven;
    hide ReadFileSized, WriteFileSized, ReadFileStatus, WriteFileStatus, RegistersStatus, BitsStatus, EchoStatus;
    hide BitsRead, RegistersRead;
    var d := GoodReply(s, done, unit, r);
    GoodHead(t, fails, tid, unit, Function(r), if r.ReadFile? then |d| - 1 else |d|, d, m);
    match r {
      case WriteCoil(address, on) => EchoReply(t, fails, tid, unit, 5, address, CoilValue(on), m);
      case WriteRegister(address, value) => EchoReply(t, fails, tid, unit, 6, address, value, m);
      case WriteCoils(address, quantity, _) => EchoReply(t, fails, tid, unit, 15, address, quantity, m);
      case WriteRegisters(address, regs) => EchoReply(t, fails, tid, unit, 16, address, |regs|, m);
      case ReadFile(_, _, _) => FileReadReply(t, fails, s, done, tid, unit, r, m);
      case WriteFile(_, _, _) => FileWriteReply(t, fails, tid, unit, r, m);
      case _ => ReadReply(t, fails, s, done, tid, unit, r, m);
    }
  }

  lemma ExceptionReceived(t: Transport, fails: bool, tid: u16, unit: byte, r: Request, code: byte, m: Bytes)
    requires Acceptable(r) && 1 <= code <= 4
    requires Packet(t, tid, unit, Function(r) + 0x80, 1, [code]) <= m
    ensures WellSized(t, fails, Function(r), unit, tid, m)
    ensures ClientStatus(t, fails, r, unit, tid, m) == code
  {
    hide Packet, HeaderStatus, BodyStatus, TidOf, UnitOf, FcOf;
    PacketReceived(t, fails, tid, unit, Function(r) + 0x80, 1, [code], m);
    assert m[Lead(t) + 0] == code;
  }

  /** The packet the server answers an acceptable request with. */
  function Answered(t: Transport, s: Server, done: seq<Call>, tid: u16, unit: byte, r: Request): Bytes
    requires Acceptable(r)
  {
    Response(t, tid, unit, Function(r), RequestPacket(t, tid, unit, r), |Body(r)|, Due(s, done, unit, r).verdict)
  }

  lemma ReplySize(s: Server, done: seq<Call>, unit: byte, r: Request)
    requires Acceptable(r)
    ensures 0 < |GoodReply(s, done, unit, r)| <= 252 && |Body(r)| <= 252
    ensures r.ReadFile? ==> |GoodReply(s, done, unit, r)| > 1
  {
    hide RegisterBytes, BigEndian, BitsGiven, RegistersGiven;
  }

  /** Whether the reply to a request starts with a byte count. */
  predicate Counts(r: Request) { !(r.WriteCoil? || r.WriteRegister? || r.WriteCoils? || r.WriteRegisters?) }

  /** The byte count of every reply that has one counts the rest of its data. */
  lemma ReplyCounts(s: Server, done: seq<Call>, unit: byte, r: Request)
    requires Acceptable(r)
    ensures var d := GoodReply(s, done, unit, r);
            && (Counts(r) ==> |d| > 0 && |d| == 1 + d[0])
            && (!Counts(r) ==> |d| == 4)
            && (r.ReadFile? ==> |d| >= 3 && d[1] == |d| - 2 && |d| % 2 == 1)
            && (r.ReadBits? ==> d[0] == BitBytes(r.quantity))
            && (r.ReadRegisters? || r.ReadWrite? ==> d[0] == 2 * r.quantity)
  {
    hide RegisterBytes, BigEndian, BitsGiven, RegistersGiven;
  }

  lemma OutcomeCode(s: Server, done: seq<Call>, unit: byte, r: Request)
    requires Acceptable(r)
    ensures Outcome(s, done, unit, r).1 <= 4
  {
  }

  lemma AnswerIsPacket(t: Transport, s: Server, done: seq<Call>, tid: u16, unit: byte, r: Request)
    requires Acceptable(r)
    ensures 0 < |GoodReply(s, done, unit, r)| <= 252
    ensures var code := Outcome(s, done, unit, r).1;
            Answered(t, s, done, tid, unit, r)
              == if code != 0 then Packet(t, tid, unit, Function(r) + 0x80, 1, [code])
                 else
                   var data := GoodReply(s, done, unit, r);
                   Packet(t, tid, unit, Function(r), if r.ReadFile? then |data| - 1 else |data|, data)
    ensures |Answered(t, s, done, tid, unit, r)| <= BUFFER_SIZE
    ensures Outcome(s, done, unit, r).1 <= 4
  {
    hide Sealed, Packet, RequestPacket, Outcome, GoodReply, Body;
    ReplySize(s, done, unit, r);
    OutcomeCode(s, done, unit, r);
    if r.WriteFile? {
      EchoIsPacket(s, done, t, tid, unit, r);
    }
  }

  /** A request that is echoed is the packet it was. */
  lemma EchoIsPacket(s: Server, done: seq<Call>, t: Transport, tid: u16, unit: byte, r: Request)
    requires Acceptable(r) && r.WriteFile?
    ensures var sent := RequestPacket(t, tid, unit, r);
            && |sent| >= Lead(t) + |Body(r)| && |Body(r)| <= 252
            && GoodReply(s, done, unit, r) == Body(r)
            && Sealed(t, sent[..Lead(t) + |Body(r)|]) == Packet(t, tid, unit, 21, |Body(r)|, Body(r))
  {
    assert GoodReply(s, done, unit, r) == Body(r);
    ReplySize(s, done, unit, r);
    hide Sealed, Header, Body;
    var sent := RequestPacket(t, tid, unit, r);
    var m := Header(t, tid, unit, 21, |Body(r)|) + Body(r);
    assert sent[..Lead(t) + |Body(r)|] == m by {
      assert m <= Sealed(t, m);
    }
  }

  /** The server's end: it takes the request, makes the calls the client asked for, and decides what is due. */
  lemma ServerEnd(t: Transport, s: Server, done: seq<Call>, quiet: bool, tid: u16, unit: byte, r: Request, fails: bool,
                  m: Bytes)
    requires Acceptable(r) && RequestPacket(t, tid, unit, r) <= m
    ensures HeaderStatus(t, fails, m) == NONE
    ensures UnitOf(t, m) == unit && FcOf(t, m) == Function(r) && (t.Tcp? ==> TidOf(t, m) == tid)
    ensures BodyStatus(t, fails, m, RequestSize(t, Function(r), m)) == NONE
    ensures Whole(t, m)
    ensures React(t, s, done, quiet, m) == if quiet then DueQuietly(s, done, unit, r) else Due(s, done, unit, r)
  {
    hide Serve, GoodReply, Due, DueQuietly, Sealed, RequestSize, HeaderStatus, BodyStatus, Body, Outcome, Walkable;
    RequestArrives(t, fails, tid, unit, r, m);
    ServerServes(s, done, quiet, unit, r);
    assert Data(t, m, |Body(r)|) == Body(r);
    assert |Body(r)| > 0 && Body(r)[1..] == m[Lead(t) + 1..Lead(t) + |Body(r)|] by {
      BodyCounts(r);
      DataStretch(t, m, Body(r), 1);
    }
  }

  /** The client's end: the answer gives it the values of the callbacks, or the exception they raised. */
  lemma ClientEnd(t: Transport, s: Server, done: seq<Call>, tid: u16, unit: byte, r: Request, fails: bool, m: Bytes)
    requires Acceptable(r) && Answered(t, s, done, tid, unit, r) <= m
    ensures WellSized(t, fails, Function(r), unit, tid, m)
    ensures ClientStatus(t, fails, r, unit, tid, m) == Outcome(s, done, unit, r).1
    ensures Outcome(s, done, unit, r).1 == 0 ==> Delivered(t, s, done, unit, r, m)
  {
    hide ClientStatus, Delivered, GoodReply, Sealed, WellSized, Outcome, Packet, Response, Due;
    AnswerIsPacket(t, s, done, tid, unit, r);
    var code := Outcome(s, done, unit, r).1;
    if code != 0 {
      ExceptionReceived(t, fails, tid, unit, r, code, m);
    } else {
      ReplyReceived(t, fails, s, done, tid, unit, r, m);
    }
  }

  /** What the server puts on the line is the answer its client understands, also when it echoes what it received. */
  lemma AnswerSent(t: Transport, s: Server, done: seq<Call>, tid: u16, unit: byte, r: Request, m: Bytes)
    requires Acceptable(r) && RequestPacket(t, tid, unit, r) <= m
    ensures Response(t, tid, unit, Function(r), m, |Body(r)|, Due(s, done, unit, r).verdict)
              == Answered(t, s, done, tid, unit, r)
  {
    hide GoodReply, Sealed, Outcome, Packet, Body, Header;
    assert m[..Lead(t) + |Body(r)|] == RequestPacket(t, tid, unit, r)[..Lead(t) + |Body(r)|];
  }

  /**
   Every call of a client function with arguments it accepts, on either transport and whatever else is on the lines:
   the request is received whole; the server's callbacks are called with exactly the client's arguments; the client
   returns no error and the values the callbacks gave, or the exception 1 to 4 they raised, 4 for any other error and 1
   for a callback that is not set; and both packets fit the message buffer.
   */
  lemma EndToEnd(t: Transport, s: Server, done: seq<Call>, tid: u16, unit: byte, r: Request,
                 behindRequest: Bytes, serverFails: bool, behindAnswer: Bytes, clientFails: bool)
    requires Acceptable(r)
    ensures var atServer := RequestPacket(t, tid, unit, r) + behindRequest;
            && HeaderStatus(t, serverFails, atServer) == NONE && Whole(t, atServer)
            && React(t, s, done, false, atServer) == Due(s, done, unit, r)
    ensures Due(s, done, unit, r).calls == Outcome(s, done, unit, r).0
    ensures var atClient := Answered(t, s, done, tid, unit, r) + behindAnswer;
            && WellSized(t, clientFails, Function(r), unit, tid, atClient)
            && ClientStatus(t, clientFails, r, unit, tid, atClient) == Outcome(s, done, unit, r).1
            && (Outcome(s, done, unit, r).1 == 0 ==> Delivered(t, s, done, unit, r, atClient))
    ensures |RequestPacket(t, tid, unit, r)| <= BUFFER_SIZE && |Answered(t, s, done, tid, unit, r)| <= BUFFER_SIZE
  {
    hide Serve, ClientStatus, Delivered, GoodReply, Sealed, WellSized, React, Whole, Response, Answered, Packet;
    hide RequestSize, HeaderStatus, BodyStatus, Body, Outcome, Walkable;
    var atServer := RequestPacket(t, tid, unit, r) + behindRequest;
    RequestArrives(t, serverFails, tid, unit, r, atServer);
    ServerEnd(t, s, done, false, tid, unit, r, serverFails, atServer);
    AnswerIsPacket(t, s, done, tid, unit, r);
    ClientEnd(t, s, done, tid, unit, r, clientFails, Answered(t, s, done, tid, unit, r) + behindAnswer);
  }

  /**
   Over TCP the length field of the answer counts the bytes behind it, as it should, in every case but one: the reply to
   a file read says one byte less than it holds.
   */
  lemma LengthFieldExact(s: Server, done: seq<Call>, tid: u16, unit: byte, r: Request)
    requires Acceptable(r)
    ensures var p := Answered(Tcp, s, done, tid, unit, r);
            |p| >= 8 &&
            (Word16(p[4], p[5]) == |p| - 6 <==> !(r.ReadFile? && Outcome(s, done, unit, r).1 == 0))
  {
    hide Outcome, GoodReply, Answered;
    AnswerIsPacket(Tcp, s, done, tid, unit, r);
    var code := Outcome(s, done, unit, r).1;
    var data := if code != 0 then [code] else GoodReply(s, done, unit, r);
    ReplySize(s, done, unit, r);
    var length: nat := if code == 0 && r.ReadFile? then |data| - 1 else |data|;
    var fc: byte := if code != 0 then Function(r) + 0x80 else Function(r);
    var head := Header(Tcp, tid, unit, fc, length);
    assert Answered(Tcp, s, done, tid, unit, r) == head + data;
    assert (head + data)[4] == (2 + length) / 256 && (head + data)[5] == (2 + length) % 256;
    WordParts((2 + length) / 256, (2 + length) % 256);
  }
}
