/**
 Sizes that nanoMODBUS takes on trust. What the preconditions of class Nmbs ask of the bytes that arrive is stated here
 in terms of what the other side sent, with messages that pass every check of the code and still exceed an array.
 */
module ModbusLimits {
  import opened Base
  import opened Crc16
  import opened ModbusWire
  import opened ModbusProtocol
  import opened ModbusEndToEnd
  import opened NmbsModel

  // ----- Replies to a file read -----

  function Total(parts: seq<Part>): nat {
    if parts == [] then 0 else Total(parts[..|parts| - 1]) + parts[|parts| - 1].length
  }

  lemma {:induction false} ReadSizeIs(parts: seq<Part>)
    ensures ReadSize(parts) == 2 * (|parts| + Total(parts))
    decreases |parts|
  {
    if parts != [] {
      ReadSizeIs(parts[..|parts| - 1]);
    }
  }

  lemma {:induction false} RecordsSize(s: Server, done: seq<Call>, unit: byte, parts: seq<Part>)
    requires ReadRecords(s, done, unit, parts).1.Reply?
    ensures |ReadRecords(s, done, unit, parts).1.data| == ReadSize(parts)
    decreases |parts|
  {
    hide RegisterBytes, RegistersGiven, Code;
    if parts != [] {
      RecordsSize(s, done, unit, parts[..|parts| - 1]);
    }
  }

  /**
   The reply to a file read, when all callbacks succeed, has a byte count and two bytes more than the registers for
   each sub-request. It fits the message buffer exactly when the sub-requests are few and short enough together; the
   code checks each of them, up to 124 registers, but never their sum.
   */
  lemma FileReplyFits(n: Nmbs, done: seq<Call>, unit: byte, parts: seq<Part>)
    requires forall i :: 0 <= i < |parts| ==> GoodPart(parts[i], 124)
    requires ReadRecords(n.server, done, unit, parts).1.Reply?
    ensures var t := n.transport;
            var data := ReadRecords(n.server, done, unit, parts).1.data;
            && (n.ReplyFits(parts) <==> Lead(t) + |[0] + data| + Tail(t) <= BUFFER_SIZE)
            && (n.ReplyFits(parts) <==> |parts| + Total(parts) <= if t.Rtu? then 127 else 125)
  {
    hide ReadRecords;
    ReadSizeIs(parts);
    RecordsSize(n.server, done, unit, parts);
  }

  lemma TwoRecords(s: Server, done: seq<Call>, unit: byte, p: Part)
    requires forall d, c :: s.app(d, c).err == NONE
    ensures var c := AskFile(p.file, p.record, p.length, unit);
            && ReadRecords(s, done, unit, [p, p]).0 == [c, c] && ReadRecords(s, done, unit, [p, p]).1.Reply?
            && |ReadRecords(s, done, unit, [p, p]).1.data| == 4 * (1 + p.length)
  {
    hide RegisterBytes, RegistersGiven;
    assert [p, p][..1] == [p] && [p][..0] == [];
    assert ReadRecords(s, done, unit, []) == ([], Reply(0, []));
    var first := ReadRecords(s, done, unit, [p]);
    assert |first.0| == 1 && |first.1.data| == 2 + 2 * p.length;
  }

  lemma TwoParts(one: Bytes, p: Part)
    requires |one| == 7 && PartAt(one, 0) == p
    ensures ReadParts(one + one) == [p, p]
  {
    hide Word16;
    var b := one + one;
    assert PartAt(b, 0) == PartAt(one, 0);
    assert b[7..] == one && one[7..] == [];
    assert ReadParts(one) == [p];
  }

  /** Two sub-requests of 124 registers each: the server accepts them and owes a reply of 501 bytes of data. */
  lemma TwoLargeParts(s: Server, done: seq<Call>, unit: byte)
    requires 20 in s.installed && forall d, c :: s.app(d, c).err == NONE
    ensures var one := [6, 0, 1, 0, 0, 0, 124];
            var act := ServeReadFile(s, done, false, unit, one + one);
            && act.calls == [AskFile(1, 0, 124, unit), AskFile(1, 0, 124, unit)]
            && act.verdict.Reply? && |act.verdict.data| == 501
  {
    hide ReadRecords, ReadParts, ReadSize;
    var p := Part(6, 1, 0, 124);
    TwoParts([6, 0, 1, 0, 0, 0, 124], p);
    TwoRecords(s, done, unit, p);
  }

  // ----- Replies with a byte count -----

  /** The data of a reply with registers: a byte count and their bytes. */
  function CountedRegisters(regs: seq<u16>): (r: Bytes)
    requires |regs| <= 125
    ensures |r| == 1 + 2 * |regs| && r[0] == 2 * |regs| && r[1..] == RegisterBytes(regs)
  {
    [2 * |regs|] + RegisterBytes(regs)
  }

  /**
   A reply that holds `regs` when `quantity` registers were asked for. It is refused unless the numbers agree, but the
   registers have been stored by then: they stay within an output of `quantity` cells exactly when there are no more.
   */
  lemma OtherNumberOfRegisters(n: Nmbs, tid: u16, unit: byte, fc: byte, quantity: u16, regs: seq<u16>, m: Bytes)
    requires |regs| <= 125
    requires Packet(n.transport, tid, unit, fc, 1 + 2 * |regs|, CountedRegisters(regs)) <= m
    ensures ResponseHead(n.transport, n.readFails, unit, fc, tid, m) == NONE
    ensures RegistersStatus(n.transport, n.readFails, m, quantity)
              == if |regs| == quantity then NONE else INVALID_RESPONSE
    ensures |m| >= Lead(n.transport) + 1 + 2 * |regs| && m[Lead(n.transport)] == 2 * |regs|
    ensures RegistersRead(n.transport, m, 1, |regs|) == regs
    ensures n.ResponseFits(m, unit, fc, tid, 2, quantity) <==> |regs| <= quantity
  {
    hide Packet, BodyStatus, RegisterBytes, ResponseHead, RegistersStatus, RegistersRead, Nmbs.ResponseFits;
    Arrived(n, tid, unit, fc, CountedRegisters(regs), m);
    CountJudged(n, tid, unit, fc, quantity, |regs|, m);
    RegistersTaken(n.transport, regs, m);
  }

  lemma RegistersTaken(t: Transport, regs: seq<u16>, m: Bytes)
    requires |m| >= Lead(t) + 1 + 2 * |regs|
    requires m[Lead(t) + 1..Lead(t) + 1 + 2 * |regs|] == RegisterBytes(regs)
    ensures RegistersRead(t, m, 1, |regs|) == regs
  {
    hide RegisterBytes, RegistersOf, RegistersRead;
    RegistersRoundTrip(regs);
    ReadFrom(t, m, 1, |regs|, RegisterBytes(regs));
  }

  lemma ReadFrom(t: Transport, m: Bytes, at: nat, n: nat, b: Bytes)
    requires |m| >= Lead(t) + at + 2 * n && m[Lead(t) + at..Lead(t) + at + 2 * n] == b
    ensures RegistersRead(t, m, at, n) == RegistersOf(b)
  {
  }

  lemma CountJudged(n: Nmbs, tid: u16, unit: byte, fc: byte, quantity: u16, count: nat, m: Bytes)
    requires ResponseHead(n.transport, n.readFails, unit, fc, tid, m) == NONE
    requires count <= 125 && |m| > Lead(n.transport) && m[Lead(n.transport)] == 2 * count
    requires BodyStatus(n.transport, n.readFails, m, 1 + 2 * count) == NONE
    ensures RegistersStatus(n.transport, n.readFails, m, quantity)
              == if count == quantity then NONE else INVALID_RESPONSE
    ensures n.ResponseFits(m, unit, fc, tid, 2, quantity) <==> count <= quantity
  {
    hide BodyStatus, ResponseHead;
  }

  /** A reply that holds the bytes `bits` passes whatever was asked for: no check compares it with the quantity. */
  lemma AnyNumberOfBits(n: Nmbs, tid: u16, unit: byte, fc: byte, bits: Bytes, room: nat, m: Bytes)
    requires |bits| <= 250
    requires Packet(n.transport, tid, unit, fc, 1 + |bits|, [|bits|] + bits) <= m
    ensures ResponseHead(n.transport, n.readFails, unit, fc, tid, m) == NONE
    ensures BitsStatus(n.transport, n.readFails, m) == NONE
    ensures |m| > Lead(n.transport) && |m| >= Lead(n.transport) + Counted(n.transport, m, 0)
    ensures BitsRead(n.transport, m) == bits
    ensures n.ResponseFits(m, unit, fc, tid, 1, room) <==> |bits| <= room
  {
    hide Packet, BodyStatus, ResponseHead;
    Arrived(n, tid, unit, fc, [|bits|] + bits, m);
  }

  lemma Arrived(n: Nmbs, tid: u16, unit: byte, fc: byte, d: Bytes, m: Bytes)
    requires 0 < |d| <= 251 && Packet(n.transport, tid, unit, fc, |d|, d) <= m
    ensures ResponseHead(n.transport, n.readFails, unit, fc, tid, m) == NONE
    ensures BodyStatus(n.transport, n.readFails, m, |d|) == NONE
    ensures var l := Lead(n.transport);
            |m| >= l + |d| && m[l] == d[0] && m[l + 1..l + |d|] == d[1..]
  {
    hide Packet, BodyStatus, ResponseHead;
    GoodHead(n.transport, n.readFails, tid, unit, fc, |d|, d, m);
    PacketReceived(n.transport, n.readFails, tid, unit, fc, |d|, d, m);
    DataStretch(n.transport, m, d, 1);
    assert m[Lead(n.transport) + 0] == d[0];
  }
}
