/**
 Damage on the serial line. A receiver of nanoMODBUS learns the size of a message from the message itself, so the CRC
 protects a damaged message exactly as far as the bytes that fix its size are intact.
 */
module ModbusDamage {
  import opened Base
  import opened Crc16
  import opened CrcDistance
  import opened ModbusWire
  import opened ModbusProtocol
  import opened ModbusEndToEnd
  import opened NmbsModel
  import opened ModbusSession

  // ----- What goes wrong when the size is hit -----

  /**
   A write of two registers whose second one happens to be the CRC of the shorter message: when a burst turns the
   quantity from 2 to 1 and the byte count from 4 to 2, the server receives a write of one register without an error.
   */
  lemma ShortenedWriteAccepted(fails: bool, tid: u16, value: u16)
    ensures var second := Crc([1, 16, 0, 0, 0, 1, 2] + BigEndian(value));
            var p := RequestPacket(Rtu, tid, 1, WriteRegisters(0, [value, second]));
            |p| == 13 &&
            var m := p[5 := 1][6 := 2];
            && Damaged(p, m, 40, 16)
            && HeaderStatus(Rtu, fails, m) == NONE && FcOf(Rtu, m) == 16
            && RequestSize(Rtu, 16, m) == 7 && BodyStatus(Rtu, fails, m, 7) == NONE
            && Data(Rtu, m, 7) == Body(WriteRegisters(0, [value]))
  {
    hide RequestPacket, Body, Footer, LineBits, Accepts, Crc, BigEndian;
    var short := [1, 16, 0, 0, 0, 1, 2] + BigEndian(value);
    var second := Crc(short);
    var p := RequestPacket(Rtu, tid, 1, WriteRegisters(0, [value, second]));
    var long := [1, 16, 0, 0, 0, 2, 4] + BigEndian(value) + BigEndian(second);
    TwoRegisters(tid, value, second);
    var m := p[5 := 1][6 := 2];
    assert m[..11] == short + BigEndian(second);
    FooterIsCrc(short);
    SealedFrame(short);
    assert p[..5] == m[..5] && p[7..] == m[7..] && p[5] != m[5];
    TwoBytesAreABurst(p, m, 5);
    assert m[2..9] == [0, 0, 0, 1, 2] + BigEndian(value);
    OneRegister(value);
  }

  lemma FooterIsCrc(data: Bytes)
    ensures Footer(data) == BigEndian(Crc(data))
  {
  }

  lemma OneRegister(value: u16)
    ensures Body(WriteRegisters(0, [value])) == [0, 0, 0, 1, 2] + BigEndian(value)
  {
    assert [value][..0] == [];
    assert RegisterBytes([value]) == BigEndian(value);
  }

  lemma TwoBody(a: u16, b: u16)
    ensures Body(WriteRegisters(0, [a, b])) == [0, 0, 0, 2, 4] + BigEndian(a) + BigEndian(b)
  {
    var one, two := [a], [a, b];
    RegisterBytesFirst(two);
    assert two[1..] == [b];
    RegisterBytesFirst([b]);
    assert [b][1..] == [];
  }

  lemma TwoRegisters(tid: u16, a: u16, b: u16)
    ensures var long := [1, 16, 0, 0, 0, 2, 4] + BigEndian(a) + BigEndian(b);
            && RequestPacket(Rtu, tid, 1, WriteRegisters(0, [a, b])) == long + Footer(long)
            && |Footer(long)| == 2
  {
    hide Footer, Body, BigEndian;
    TwoBody(a, b);
    var d := Body(WriteRegisters(0, [a, b]));
    var long := [1, 16, 0, 0, 0, 2, 4] + BigEndian(a) + BigEndian(b);
    assert [1, 16] + d == long;
    assert |Sealed(Rtu, long)| == |long| + 2;
  }

  // ----- What holds when it is not -----

  /**
   The server reads as many bytes of data off the damaged request as were sent, and whole registers if it is to take
   registers from them. This says nothing of requests whose function code has become unknown.
   */
  predicate SizeAsSent(r: Request, m: Bytes, behind: Bytes)
    requires Acceptable(r)
  {
    && |m| >= 2
    && (Known(m[1]) ==>
          && RequestSize(Rtu, m[1], m + behind) == |Body(r)|
          && (m[1] in {16, 23} ==> |Body(r)| % 2 == 1))
  }

  /** The byte of a request that counts others, if it has one. */
  function CountByte(fc: byte): Option<nat> {
    if fc == 15 || fc == 16 then Some(6)
    else if fc == 20 || fc == 21 then Some(2)
    else if fc == 23 then Some(10)
    else None
  }

  /** It is enough that the function code and the byte count, if there is one, are as they were sent. */
  lemma SizeKept(tid: u16, unit: byte, r: Request, m: Bytes, behind: Bytes)
    requires Acceptable(r)
    requires var p := RequestPacket(Rtu, tid, unit, r);
             && |m| == |p| >= 2 && m[1] == p[1]
             && var at := CountByte(p[1]);
             (at.Some? ==> |p| > at.value && m[at.value] == p[at.value])
    ensures SizeAsSent(r, m, behind)
  {
    hide Packet, BodyStatus, Body, RequestSize;
    var p := RequestPacket(Rtu, tid, unit, r);
    BodyCounts(r);
    RequestArrives(Rtu, false, tid, unit, r, p);
    assert p[1] == Function(r);
    SizesAlike(Function(r), p, m + behind);
  }

  lemma SizesAlike(fc: byte, p: Bytes, s: Bytes)
    requires 2 <= |p| <= |s|
    requires CountByte(fc).Some? ==> |p| > CountByte(fc).value && s[CountByte(fc).value] == p[CountByte(fc).value]
    ensures RequestSize(Rtu, fc, s) == RequestSize(Rtu, fc, p)
  {
  }

  /** A damaged request off which the size that was sent is read ends in the CRC error, whatever function it names. */
  lemma DamagedRequestRefused(fails: bool, tid: u16, unit: byte, r: Request, m: Bytes, behind: Bytes, w: nat, k: nat)
    requires Acceptable(r) && Damaged(RequestPacket(Rtu, tid, unit, r), m, w, k)
    requires SizeAsSent(r, m, behind)
    ensures var s := m + behind;
            && HeaderStatus(Rtu, fails, s) == NONE && FcOf(Rtu, s) == m[1]
            && (Known(m[1]) ==> BodyStatus(Rtu, fails, s, RequestSize(Rtu, m[1], s)) == CRC)
  {
    hide Packet, BodyStatus, Body, LineBits, RequestSize;
    BodyCounts(r);
    DamagedPacketRefused(fails, tid, unit, Function(r), |Body(r)|, Body(r), m, behind, w, k);
  }

  /**
   A server's poll of such a request reports the error, or passes over a function it does not know; either way it makes
   no call and sends nothing.
   */
  method PollDamaged(server: Nmbs, ghost tid: u16, ghost unit: byte, ghost r: Request, ghost m: Bytes,
                     ghost behind: Bytes, ghost w: nat, ghost k: nat) returns (err: int)
    requires server.Ready() && server.transport == Rtu && server.incoming == m + behind
    requires Acceptable(r) && Damaged(RequestPacket(Rtu, tid, unit, r), m, w, k)
    requires SizeAsSent(r, m, behind)
    modifies server`incoming, server`bufIdx, server`msg, server`outgoing, server`calls, server.buf
    ensures err == if Known(m[1]) then CRC else NONE
    ensures server.calls == old(server.calls) && server.outgoing == old(server.outgoing)
  {
    hide Damaged, RequestPacket, BodyStatus, HeaderStatus, RequestSize, Body;
    DamagedRequestRefused(server.readFails, tid, unit, r, m, behind, w, k);
    DamagedFits(server, r, m, behind);
    ghost var handled;
    err, handled := server.Poll();
  }

  lemma DamagedFits(n: Nmbs, r: Request, m: Bytes, behind: Bytes)
    requires Acceptable(r) && n.transport == Rtu && SizeAsSent(r, m, behind)
    requires Known(m[1]) ==> BodyStatus(Rtu, n.readFails, m + behind, RequestSize(Rtu, m[1], m + behind)) == CRC
    ensures n.Pollable(m + behind)
  {
    hide BodyStatus, Body, HeaderStatus;
    BodyCounts(r);
  }

  /**
   The bytes of an answer that fix its size are as they were sent: the function code, if it is still one the client
   takes for an answer, the byte count of a reply that has one, and the sizes inside a file reply.
   */
  predicate AnswerSizeKept(r: Request, p: Bytes, m: Bytes) {
    && |m| == |p| >= 2
    && (m[1] in {Function(r), Function(r) + 0x80} ==> m[1] == p[1])
    && (m[1] == Function(r) ==>
          && (Counts(r) ==> |p| > 2 && m[2] == p[2])
          && (r.ReadFile? ==> |p| > 3 && m[3] == p[3])
          && (r.WriteFile? ==> |p| >= 10 && m[8] == p[8] && m[9] == p[9]))
  }

  /** What the client makes of such an answer: never anything but an error. */
  function Refusal(unit: byte, fc: byte, m: Bytes): int
    requires |m| >= 2
  {
    if m[0] != unit then INVALID_UNIT_ID else if m[1] in {fc, fc + 0x80} then CRC else INVALID_RESPONSE
  }

  lemma ForeignHead(fails: bool, unit: byte, fc: byte, tid: u16, s: Bytes)
    requires |s| >= 2 && s[1] !in {fc, fc + 0x80}
    ensures ResponseHead(Rtu, fails, unit, fc, tid, s) == Refusal(unit, fc, s)
  {
  }

  lemma DamagedExceptionRefused(fails: bool, tid: u16, unit: byte, r: Request, code: byte, m: Bytes, behind: Bytes,
                                w: nat, k: nat)
    requires Acceptable(r) && Damaged(Packet(Rtu, tid, unit, Function(r) + 0x80, 1, [code]), m, w, k)
    requires |m| >= 2 && m[1] == Function(r) + 0x80
    ensures ResponseHead(Rtu, fails, unit, Function(r), tid, m + behind) == Refusal(unit, Function(r), m)
  {
    hide Packet, BodyStatus, LineBits;
    DamagedPacketRefused(fails, tid, unit, Function(r) + 0x80, 1, [code], m, behind, w, k);
    var s := m + behind;
    assert s[0] == m[0] && s[1] == m[1];
  }

  lemma OwnHead(fails: bool, unit: byte, fc: byte, tid: u16, s: Bytes)
    requires |s| >= 2 && s[1] == fc
    ensures ResponseHead(Rtu, fails, unit, fc, tid, s) == if s[0] != unit then INVALID_UNIT_ID else NONE
  {
    hide BodyStatus;
  }

  /** The head of a damaged reply, and its body with the size that was sent. */
  lemma DamagedReply(fails: bool, tid: u16, unit: byte, fc: byte, length: nat, d: Bytes, m: Bytes, behind: Bytes,
                     w: nat, k: nat)
    requires length <= 253 && Damaged(Packet(Rtu, tid, unit, fc, length, d), m, w, k) && |m| >= 2 && m[1] == fc
    ensures var s := m + behind;
            && |m| == |d| + 4 && BodyStatus(Rtu, fails, s, |d|) == CRC
            && ResponseHead(Rtu, fails, unit, fc, tid, s) == if m[0] != unit then INVALID_UNIT_ID else NONE
  {
    hide Packet, BodyStatus, LineBits, ResponseHead;
    DamagedPacketRefused(fails, tid, unit, fc, length, d, m, behind, w, k);
    var s := m + behind;
    assert s[0] == m[0] && s[1] == m[1];
    OwnHead(fails, unit, fc, tid, s);
  }

  /** The first bytes of the data of a sent packet, in the packet. */
  lemma DataInPacket(tid: u16, unit: byte, fc: byte, length: nat, d: Bytes, i: nat)
    requires length <= 253 && i < |d|
    ensures var p := Packet(Rtu, tid, unit, fc, length, d);
            |p| == |d| + 4 && p[1] == fc && p[2 + i] == d[i]
  {
    hide Footer;
    assert Packet(Rtu, tid, unit, fc, length, d)[2 + i] == ([unit, fc] + d)[2 + i];
  }

  /** The data length a server gives to the header of a good reply. */
  function LengthOf(s: Server, done: seq<Call>, unit: byte, r: Request): (n: nat)
    requires Acceptable(r)
    ensures n <= 252
  {
    ReplySize(s, done, unit, r);
    var d := GoodReply(s, done, unit, r);
    if r.ReadFile? then |d| - 1 else |d|
  }

  lemma WrittenLength(s: Server, done: seq<Call>, unit: byte, r: Request)
    requires Acceptable(r) && r.WriteFile?
    ensures var d := GoodReply(s, done, unit, r);
            |d| == 8 + 2 * |r.registers| && Word16(d[6], d[7]) == |r.registers|
  {
    hide RegisterBytes;
    var d := Body(r);
    BigEndianRoundTrip(|r.registers|);
    assert d[6] == BigEndian(|r.registers|)[0] && d[7] == BigEndian(|r.registers|)[1];
  }

  /** The sizes the client reads off a reply whose size bytes are intact are those that were sent. */
  lemma ReplySizes(s: Server, done: seq<Call>, tid: u16, unit: byte, r: Request, m: Bytes, behind: Bytes)
    requires Acceptable(r)
    requires var p := Packet(Rtu, tid, unit, Function(r), LengthOf(s, done, unit, r), GoodReply(s, done, unit, r));
             AnswerSizeKept(r, p, m) && m[1] == Function(r)
    ensures var d := GoodReply(s, done, unit, r);
            && |m| == |d| + 4
            && (Counts(r) ==> Counted(Rtu, m + behind, 0) == |d|)
            && (r.ReadFile? ==> ReadFileSized(Rtu, m + behind))
            && (r.WriteFile? ==> WriteFileSized(Rtu, m + behind))
  {
    hide Packet, GoodReply, Word16;
    var d, n := GoodReply(s, done, unit, r), LengthOf(s, done, unit, r);
    ReplyCounts(s, done, unit, r);
    if Counts(r) {
      DataInPacket(tid, unit, Function(r), n, d, 0);
    }
    if r.ReadFile? {
      DataInPacket(tid, unit, 20, n, d, 1);
    }
    if r.WriteFile? {
      WrittenLength(s, done, unit, r);
      DataInPacket(tid, unit, 21, n, d, 6);
      DataInPacket(tid, unit, 21, n, d, 7);
    }
  }

  /**
   An answer that is damaged anywhere but in the bytes that fix its size ends the client's call with an error, whatever
   the call: the wrong unit id if that was hit, an invalid response if the function code was, otherwise the CRC error.
   */
  lemma DamagedAnswerRefused(s: Server, done: seq<Call>, fails: bool, tid: u16, unit: byte, r: Request, m: Bytes,
                             behind: Bytes, w: nat, k: nat)
    requires Acceptable(r) && Damaged(Answered(Rtu, s, done, tid, unit, r), m, w, k)
    requires AnswerSizeKept(r, Answered(Rtu, s, done, tid, unit, r), m)
    ensures WellSized(Rtu, fails, Function(r), unit, tid, m + behind)
    ensures ClientStatus(Rtu, fails, r, unit, tid, m + behind) == Refusal(unit, Function(r), m)
  {
    hide Packet, GoodReply, Outcome, Answered, Damaged, ResponseHead, BodyStatus, Counted;
    var p := Answered(Rtu, s, done, tid, unit, r);
    AnswerIsPacket(Rtu, s, done, tid, unit, r);
    var code := Outcome(s, done, unit, r).1;
    if m[1] !in {Function(r), Function(r) + 0x80} {
      ForeignHead(fails, unit, Function(r), tid, m + behind);
    } else if code != 0 {
      DataInPacket(tid, unit, Function(r) + 0x80, 1, [code], 0);
      DamagedExceptionRefused(fails, tid, unit, r, code, m, behind, w, k);
    } else {
      var d, n := GoodReply(s, done, unit, r), LengthOf(s, done, unit, r);
      ReplyCounts(s, done, unit, r);
      DataInPacket(tid, unit, Function(r), n, d, 0);
      ReplySizes(s, done, tid, unit, r, m, behind);
      DamagedReply(fails, tid, unit, Function(r), n, d, m, behind, w, k);
    }
  }

  /** Such an answer meets the client's preconditions. */
  lemma DamagedWithin(n: Nmbs, s: Server, done: seq<Call>, tid: u16, r: Request, m: Bytes, behind: Bytes,
                      w: nat, k: nat, room: nat)
    requires Acceptable(r) && n.transport == Rtu && HasRoom(r, room)
    requires Damaged(Answered(Rtu, s, done, tid, n.destAddressRtu, r), m, w, k)
    requires AnswerSizeKept(r, Answered(Rtu, s, done, tid, n.destAddressRtu, r), m)
    ensures n.ReplyWithin(r, tid, m + behind, room)
  {
    hide Packet, GoodReply, Outcome, Answered, Damaged, ResponseHead, WellSized;
    var unit := n.destAddressRtu;
    var p := Answered(Rtu, s, done, tid, unit, r);
    DamagedAnswerRefused(s, done, n.readFails, tid, unit, r, m, behind, w, k);
    AnswerIsPacket(Rtu, s, done, tid, unit, r);
    var code := Outcome(s, done, unit, r).1;
    if m[1] !in {Function(r), Function(r) + 0x80} {
      ForeignHead(n.readFails, unit, Function(r), tid, m + behind);
    } else if code != 0 {
      DataInPacket(tid, unit, Function(r) + 0x80, 1, [code], 0);
      DamagedExceptionRefused(n.readFails, tid, unit, r, code, m, behind, w, k);
    } else {
      var d, length := GoodReply(s, done, unit, r), LengthOf(s, done, unit, r);
      AnswerWithin(n, s, done, tid, r, p, room);
      GoodHead(Rtu, n.readFails, tid, unit, Function(r), length, d, p);
      DataInPacket(tid, unit, Function(r), length, d, 0);
      ReplyCounts(s, done, unit, r);
      ReplySizes(s, done, tid, unit, r, m, behind);
    }
  }

  /**
   Every client function that meets such an answer returns an error, for its result is that of `Asked`: neither values
   nor success come out of a damaged answer.
   */
  lemma ClientRefusesDamage(n: Nmbs, s: Server, done: seq<Call>, tid: u16, r: Request, m: Bytes, behind: Bytes,
                            w: nat, k: nat, err: int, line: Bytes)
    requires Acceptable(r) && n.transport == Rtu && n.writeStatus == NONE && n.Awaited(r)
    requires Damaged(Answered(Rtu, s, done, tid, n.destAddressRtu, r), m, w, k)
    requires AnswerSizeKept(r, Answered(Rtu, s, done, tid, n.destAddressRtu, r), m)
    ensures WellSized(Rtu, n.readFails, Function(r), n.destAddressRtu, tid, m + behind)
    ensures n.Asked(r, err, tid, line, m + behind) ==> err == Refusal(n.destAddressRtu, Function(r), m)
  {
    hide Answered, Damaged, AnswerSizeKept, ClientStatus, WellSized;
    DamagedAnswerRefused(s, done, n.readFails, tid, n.destAddressRtu, r, m, behind, w, k);
  }
}
