/**
 The messages of nanoMODBUS byte by byte, as sections 4 and 6 of the MODBUS Application Protocol V1.1b3 and section 2 of
 MODBUS over Serial Line V1.02 draw them, and the bounds of both sides with their exception codes as numbers. A field,
 a bound or a code that client and server had both wrong would still let them understand each other; it would not be
 what is said here.
 */
module ModbusFormat {
  import opened Base
  import opened Crc16
  import opened ModbusWire
  import opened ModbusProtocol
  import opened ModbusEndToEnd

  // ----- The CRC -----

  lemma FirstByteOfExample()
    ensures ShiftN(0xFFFD, 8) == 0x813E
  {
    assert Shift(0xFFFD) == 0xDFFF && Shift(0xDFFF) == 0xCFFE && Shift(0xCFFE) == 0x67FF && Shift(0x67FF) == 0x93FE;
    assert Shift(0x93FE) == 0x49FF && Shift(0x49FF) == 0x84FE && Shift(0x84FE) == 0x427F && Shift(0x427F) == 0x813E;
    assert ShiftN(0x93FE, 4) == 0x813E;
  }

  lemma SecondByteOfExample()
    ensures ShiftN(0x8139, 8) == 0x1241
  {
    assert Shift(0x8139) == 0xE09D && Shift(0xE09D) == 0xD04F && Shift(0xD04F) == 0xC826 && Shift(0xC826) == 0x6413;
    assert Shift(0x6413) == 0x9208 && Shift(0x9208) == 0x4904 && Shift(0x4904) == 0x2482 && Shift(0x2482) == 0x1241;
    assert ShiftN(0x6413, 4) == 0x1241;
  }

  /** The CRC example of MODBUS over Serial Line, section 6.2.2: 02 07 is followed by 41 12. */
  lemma CrcExample()
    ensures Sealed(Rtu, [0x02, 0x07]) == [0x02, 0x07, 0x41, 0x12]
  {
    hide ShiftN, Widen, LowByte, HighByte, Register;
    var data: Bytes := [0x02, 0x07];
    RegisterTwo(0xFFFF, 0x02, 0x07);
    WidenIsCast(0x02);
    WidenIsCast(0x07);
    FirstByteOfExample();
    SecondByteOfExample();
    assert Xor(0xFFFF, 0x0002) == 0xFFFD && Xor(0x813E, 0x0007) == 0x8139;
    BytesExchanged(0x1241);
    assert Register(0xFFFF, data) == 0x1241;
    assert Footer(data) == [0x41, 0x12];
  }

  // ----- Messages -----

  /** Two bytes, the high one first. */
  function Two(n: u16): Bytes { [n / 256, n % 256] }

  /** The header of a TCP message counts what follows the length, unit included; a serial message has unit and CRC. */
  lemma FramesDrawn(tid: u16, unit: byte, fc: byte, d: Bytes)
    requires |d| <= 252
    ensures Packet(Tcp, tid, unit, fc, |d|, d) == Two(tid) + [0, 0, 0, 2 + |d|, unit, fc] + d
    ensures Packet(Rtu, tid, unit, fc, |d|, d) == [unit, fc] + d + Footer([unit, fc] + d)
  {
    hide Footer;
  }

  /** The data of every request, after its function code. */
  lemma RequestsDrawn(r: Request)
    requires Acceptable(r)
    ensures match r
            case ReadBits(inputs, a, q) => Function(r) == (if inputs then 2 else 1) && Body(r) == Two(a) + Two(q)
            case ReadRegisters(inputs, a, q) => Function(r) == (if inputs then 4 else 3) && Body(r) == Two(a) + Two(q)
            case WriteCoil(a, on) => Function(r) == 5 && Body(r) == Two(a) + if on then [0xFF, 0x00] else [0x00, 0x00]
            case WriteRegister(a, v) => Function(r) == 6 && Body(r) == Two(a) + Two(v)
            case WriteCoils(a, q, coils) => Function(r) == 15 && Body(r) == Two(a) + Two(q) + [|coils|] + coils
            case WriteRegisters(a, regs) =>
              Function(r) == 16 && Body(r) == Two(a) + Two(|regs|) + [2 * |regs|] + RegisterBytes(regs)
            case ReadFile(file, record, count) =>
              Function(r) == 20 && Body(r) == [7, 6] + Two(file) + Two(record) + Two(count)
            case WriteFile(file, record, regs) =>
              && Function(r) == 21
              && Body(r) == [7 + 2 * |regs|, 6] + Two(file) + Two(record) + Two(|regs|) + RegisterBytes(regs)
            case ReadWrite(a, q, w, regs) =>
              && Function(r) == 23
              && Body(r) == Two(a) + Two(q) + Two(w) + Two(|regs|) + [2 * |regs|] + RegisterBytes(regs)
  {
    hide RegisterBytes;
  }

  /** Registers go over the line one after the other, high byte first. */
  lemma {:induction false} RegistersDrawn(regs: seq<u16>)
    ensures regs != [] ==> RegisterBytes(regs) == Two(regs[0]) + RegisterBytes(regs[1..])
    decreases |regs|
  {
    if |regs| > 1 {
      var front, last := regs[..|regs| - 1], regs[|regs| - 1];
      RegistersDrawn(front);
      assert front[1..] == regs[1..][..|regs| - 2] && regs[1..][|regs| - 2] == last;
      assert RegisterBytes(regs) == Two(regs[0]) + (RegisterBytes(front[1..]) + Two(last));
    } else if regs != [] {
      assert regs[..0] == [] && regs[1..] == [];
    }
  }

  // ----- Bounds and exceptions -----

  /** What a client refuses to ask for. */
  lemma ClientBounds(inputs: bool, a: u16, q: u16, w: u16, coils: Bytes, regs: seq<u16>)
    requires |regs| < 65536
    ensures Acceptable(ReadBits(inputs, a, q)) <==> 1 <= q <= 2000 && a + q <= 65536
    ensures Acceptable(ReadRegisters(inputs, a, q)) <==> 1 <= q <= 125 && a + q <= 65536
    ensures Acceptable(WriteCoils(a, q, coils)) <==> 1 <= q <= 1968 && a + q <= 65536 && |coils| == (q + 7) / 8
    ensures Acceptable(WriteRegisters(a, regs)) <==> 1 <= |regs| <= 123 && a + |regs| <= 65536
    ensures Acceptable(ReadFile(a, w, q)) <==> a != 0 && w <= 9999 && q <= 124
    ensures Acceptable(WriteFile(a, w, regs)) <==> a != 0 && w <= 9999 && |regs| <= 122
    ensures Acceptable(ReadWrite(a, q, w, regs)) <==>
            1 <= q <= 125 && a + q <= 65536 && 1 <= |regs| <= 121 && w + |regs| <= 65536
  {
  }

  /** Exception 3 for a quantity out of bounds, else 2 for an address out of bounds, else 1 for a missing callback. */
  function Refusal(quantity: bool, address: bool, callback: bool): byte {
    if !quantity then 3 else if !address then 2 else if !callback then 1 else 0
  }

  /**
   What a server refuses of requests with a fixed form, whether sent to it or to all, and that it then makes no call:
   the quantity is looked at first, and of single writes the callback before the value.
   */
  lemma ServerBounds(s: Server, done: seq<Call>, quiet: bool, unit: byte, fc: byte, a: u16, q: u16)
    requires 1 <= fc <= 6
    ensures var d := Two(a) + Two(q);
            var refused :=
              if fc <= 2 then Refusal(1 <= q <= 2000, a + q <= 65536, fc in s.installed)
              else if fc <= 4 then Refusal(1 <= q <= 125, a + q <= 65536, fc in s.installed)
              else if fc !in s.installed then 1
              else if fc == 5 && q != 0 && q != 0xFF00 then 3 else 0;
            var act := Serve(s, done, quiet, unit, fc, d);
            if refused != 0 then act == Act([], Raise(refused)) else |act.calls| == 1
  {
    hide Cells, RegisterBytes, Code;
    TwoWords(a, q, []);
    var d := Two(a) + Two(q);
    assert d + [] == d;
  }

  /** And of multiple writes, whose byte count must agree with the quantity. */
  lemma ServerWriteBounds(s: Server, done: seq<Call>, quiet: bool, unit: byte, a: u16, q: u16, v: Bytes)
    requires |v| <= 255
    ensures var d := Two(a) + Two(q) + [|v|] + v;
            var coils, regs := Serve(s, done, quiet, unit, 15, d), Serve(s, done, quiet, unit, 16, d);
            var noCoils := Refusal(1 <= q <= 1968, a + q <= 65536, true);
            var noRegs := Refusal(1 <= q <= 123, a + q <= 65536, true);
            && (noCoils != 0 ==> coils == Act([], Raise(noCoils))) && (noRegs != 0 ==> regs == Act([], Raise(noRegs)))
            && (noCoils == 0 ==>
                  if |v| != (q + 7) / 8 then coils == Act([], Raise(3))
                  else if 15 !in s.installed then coils == Act([], Raise(1)) else |coils.calls| == 1)
            && (noRegs == 0 ==>
                  if |v| != 2 * q then regs == Act([], Raise(3))
                  else if 16 !in s.installed then regs == Act([], Raise(1)) else |regs.calls| == 1)
  {
    hide Cells, RegistersOf, Code;
    TwoWords(a, q, [|v|] + v);
    var d := Two(a) + Two(q) + [|v|] + v;
    assert d == Two(a) + Two(q) + ([|v|] + v);
    assert d[5..] == d[4..][1..] == v;
  }

  /** And of combined writes and reads. */
  lemma ServerReadWriteBounds(s: Server, done: seq<Call>, quiet: bool, unit: byte, a: u16, q: u16, w: u16, n: u16,
                              v: Bytes)
    requires |v| <= 255
    ensures var d := Two(a) + Two(q) + Two(w) + Two(n) + [|v|] + v;
            var refused := Refusal(1 <= q <= 125 && 1 <= n <= 123 && |v| == 2 * n, a + q <= 65536 && w + n <= 65536,
                                   16 in s.installed && 3 in s.installed);
            var act := Serve(s, done, quiet, unit, 23, d);
            if refused != 0 then act == Act([], Raise(refused)) else 1 <= |act.calls| <= 2
  {
    hide RegistersOf, RegisterBytes, RegistersGiven, Code;
    var d := Two(a) + Two(q) + Two(w) + Two(n) + [|v|] + v;
    var tail := [|v|] + v;
    TwoWords(a, q, Two(w) + Two(n) + tail);
    TwoWords(w, n, tail);
    assert d == Two(a) + Two(q) + (Two(w) + Two(n) + tail);
    assert d[4..] == Two(w) + Two(n) + tail;
    assert d[4] == d[4..][0] && d[5] == d[4..][1] && d[6] == d[4..][2] && d[7] == d[4..][3];
    assert d[9..] == d[4..][4..][1..] == v;
  }

  /** A callback's failure becomes an exception: 1 to 4 as they are, anything else 4. */
  lemma FailuresDrawn(s: Server, done: seq<Call>, c: Call)
    ensures var e := s.app(done, c).err;
            Code(s, done, c) == if e == 0 then 0 else if 1 <= e <= 4 then e else 4
  {
  }

  // ----- What a client takes for an answer -----

  /** The size of the data of an answer. */
  function AnswerSize(t: Transport, r: Request, m: Bytes): nat { if Counts(r) then Counted(t, m, 0) else 4 }

  lemma HeadAndBody(t: Transport, fails: bool, r: Request, unit: byte, tid: u16, m: Bytes)
    requires Acceptable(r) && WellSized(t, fails, Function(r), unit, tid, m)
    requires ClientStatus(t, fails, r, unit, tid, m) == 0
    ensures ResponseHead(t, fails, unit, Function(r), tid, m) == NONE
    ensures BodyStatus(t, fails, m, AnswerSize(t, r, m)) == NONE
  {
    hide ResponseHead, BodyStatus, RegistersOf, PartAt, Word16;
  }

  /**
   No error means that a whole message came with the request's function code and, on the serial line, the unit it was
   sent to and a good CRC, over TCP its transaction and protocol 0.
   */
  lemma OnlyAnswers(t: Transport, fails: bool, r: Request, unit: byte, tid: u16, m: Bytes)
    requires Acceptable(r) && WellSized(t, fails, Function(r), unit, tid, m)
    requires ClientStatus(t, fails, r, unit, tid, m) == 0
    ensures var l, n := Lead(t), AnswerSize(t, r, m);
            && |m| >= l + n + Tail(t) && m[l - 1] == Function(r)
            && (t.Rtu? ==> m[0] == unit && Accepts(m[..n + 4]))
            && (t.Tcp? ==> Word16(m[0], m[1]) == tid && m[2] == m[3] == 0)
  {
    hide Accepts, WellSized, ClientStatus, Function, Counted;
    HeadAndBody(t, fails, r, unit, tid, m);
    assert IsException(NONE) == false;
  }

  /** And that single and multiple writes have been repeated, and registers counted as they were asked for. */
  lemma AnswersMatch(t: Transport, fails: bool, r: Request, unit: byte, tid: u16, m: Bytes)
    requires Acceptable(r) && WellSized(t, fails, Function(r), unit, tid, m)
    requires ClientStatus(t, fails, r, unit, tid, m) == 0
    ensures var l := Lead(t);
            && |m| > l && (!Counts(r) ==> |m| > l + 3)
            && (r.WriteCoil? ==> Word16(m[l], m[l + 1]) == r.address && Word16(m[l + 2], m[l + 3]) == CoilValue(r.on))
            && (r.WriteRegister? ==> Word16(m[l], m[l + 1]) == r.address && Word16(m[l + 2], m[l + 3]) == r.value)
            && (r.WriteCoils? ==> Word16(m[l], m[l + 1]) == r.address && Word16(m[l + 2], m[l + 3]) == r.quantity)
            && (r.WriteRegisters? ==>
                  Word16(m[l], m[l + 1]) == r.address && Word16(m[l + 2], m[l + 3]) == |r.registers|)
            && (r.ReadRegisters? || r.ReadWrite? ==> m[l] == 2 * r.quantity)
            && (r.ReadFile? ==> |m| > l + 2 && m[l + 1] == 2 * r.count + 1 && m[l + 2] == 6)
            && (r.WriteFile? ==>
                  && |m| >= l + 8 + 2 * |r.registers|
                  && PartAt(m, l + 1) == Part(6, r.file, r.record, |r.registers|)
                  && RegistersOf(m[l + 8..l + 8 + 2 * |r.registers|]) == r.registers)
  {
    hide ResponseHead, RegistersOf, PartAt, Word16, Accepts;
    HeadAndBody(t, fails, r, unit, tid, m);
  }
}
