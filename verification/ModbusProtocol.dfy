/**
 What nanoMODBUS exchanges: the requests a client can make, the calls they become on the server's application, the
 replies, and what the client makes of a reply. The methods of class Nmbs are proved against these functions; here
 the client's half and the server's half are proved to fit together.
 */
module ModbusProtocol {
  import opened Base
  import opened Crc16
  import opened ModbusWire

  // ----- Registers in message bytes -----

  function RegisterBytes(regs: seq<u16>): (r: Bytes)
    ensures |r| == 2 * |regs|
  {
    if regs == [] then [] else RegisterBytes(regs[..|regs| - 1]) + BigEndian(regs[|regs| - 1])
  }

  /** The registers in a stretch of bytes; an odd byte at the end is ignored. */
  function RegistersOf(b: Bytes): (r: seq<u16>)
    ensures |r| == |b| / 2
  {
    seq(|b| / 2, i requires 0 <= i < |b| / 2 => Word16(b[2 * i], b[2 * i + 1]))
  }

  lemma {:induction false} RegisterBytesAt(regs: seq<u16>, i: nat)
    requires i < |regs|
    ensures RegisterBytes(regs)[2 * i] == regs[i] / 256 && RegisterBytes(regs)[2 * i + 1] == regs[i] % 256
    decreases |regs|
  {
    if i < |regs| - 1 {
      RegisterBytesAt(regs[..|regs| - 1], i);
    }
  }

  lemma RegistersRoundTrip(regs: seq<u16>)
    ensures RegistersOf(RegisterBytes(regs)) == regs
  {
    forall i | 0 <= i < |regs|
      ensures RegistersOf(RegisterBytes(regs))[i] == regs[i]
    {
      RegisterBytesAt(regs, i);
    }
  }

  // ----- The application behind a server -----

  /** A call of one of the server's callbacks. */
  datatype Call =
    | AskBits(fc: byte, address: u16, quantity: u16, unit: byte)
    | AskRegisters(fc: byte, address: u16, quantity: u16, unit: byte)
    | SetCoil(address: u16, on: bool, unit: byte)
    | SetRegister(address: u16, value: u16, unit: byte)
    | SetCoils(address: u16, quantity: u16, coils: Bytes, unit: byte)
    | SetRegisters(address: u16, registers: seq<u16>, unit: byte)
    | AskFile(file: u16, record: u16, count: u16, unit: byte)
    | SetFile(file: u16, record: u16, registers: seq<u16>, unit: byte)

  /** A callback's result and what it wrote to its output buffer. */
  datatype Answer = Answer(err: int, bits: Bytes, registers: seq<u16>)

  /** The callbacks that are set, by function code, and what the application does: any function of all calls so far. */
  datatype Server = Server(installed: set<byte>, app: (seq<Call>, Call) -> Answer)

  /** The exception sent for a callback's result; 0 when it succeeded. */
  function Code(s: Server, done: seq<Call>, c: Call): byte {
    var e := s.app(done, c).err;
    if e == NONE then 0 else if IsException(e) then e else SERVER_DEVICE_FAILURE
  }

  /** The first `n` cells of an output buffer that started out as zeros. */
  function Cells<T>(written: seq<T>, n: nat, zero: T): (r: seq<T>)
    ensures |r| == n
  {
    seq(n, i requires 0 <= i < n => if i < |written| then written[i] else zero)
  }

  function BitsGiven(s: Server, done: seq<Call>, c: Call, n: nat): (r: Bytes)
    ensures |r| == n
  {
    Cells(s.app(done, c).bits, n, 0)
  }

  function RegistersGiven(s: Server, done: seq<Call>, c: Call, n: nat): (r: seq<u16>)
    ensures |r| == n
  {
    Cells(s.app(done, c).registers, n, 0)
  }

  // ----- The server's side -----

  datatype Verdict =
    | Raise(code: byte)                  // an exception message
    | Reply(length: byte, data: Bytes)   // a reply, with the data length given to its header
    | Echo                               // the request itself
    | Quiet                              // nothing: the request was a broadcast

  datatype Act = Act(calls: seq<Call>, verdict: Verdict)

  predicate InSpace(address: u16, quantity: u16) { address + quantity <= 65536 }

  function BitBytes(quantity: u16): nat { (quantity + 7) / 8 }

  function Settle(s: Server, done: seq<Call>, quiet: bool, c: Call, reply: Verdict): Act {
    Act([c], if Code(s, done, c) != 0 then Raise(Code(s, done, c)) else if quiet then Quiet else reply)
  }

  function ServeReadBits(s: Server, done: seq<Call>, quiet: bool, unit: byte, fc: byte,
                         address: u16, quantity: u16): Act
  {
    if quantity < 1 || quantity > 2000 then Act([], Raise(ILLEGAL_DATA_VALUE))
    else if !InSpace(address, quantity) then Act([], Raise(ILLEGAL_DATA_ADDRESS))
    else if fc !in s.installed then Act([], Raise(ILLEGAL_FUNCTION))
    else
      var c := AskBits(fc, address, quantity, unit);
      var n := BitBytes(quantity);
      Settle(s, done, quiet, c, Reply(1 + n, [n] + BitsGiven(s, done, c, n)))
  }

  function ServeReadRegisters(s: Server, done: seq<Call>, quiet: bool, unit: byte, fc: byte,
                              address: u16, quantity: u16): Act
  {
    if quantity < 1 || quantity > 125 then Act([], Raise(ILLEGAL_DATA_VALUE))
    else if !InSpace(address, quantity) then Act([], Raise(ILLEGAL_DATA_ADDRESS))
    else if fc !in s.installed then Act([], Raise(ILLEGAL_FUNCTION))
    else
      var c := AskRegisters(fc, address, quantity, unit);
      var n := 2 * quantity;
      Settle(s, done, quiet, c, Reply(1 + n, [n] + RegisterBytes(RegistersGiven(s, done, c, quantity))))
  }

  function ServeWriteCoil(s: Server, done: seq<Call>, quiet: bool, unit: byte, address: u16, value: u16): Act {
    if 5 !in s.installed then Act([], Raise(ILLEGAL_FUNCTION))
    else if value != 0 && value != 0xFF00 then Act([], Raise(ILLEGAL_DATA_VALUE))
    else Settle(s, done, quiet, SetCoil(address, value != 0, unit), Reply(4, BigEndian(address) + BigEndian(value)))
  }

  function ServeWriteRegister(s: Server, done: seq<Call>, quiet: bool, unit: byte, address: u16, value: u16): Act {
    if 6 !in s.installed then Act([], Raise(ILLEGAL_FUNCTION))
    else Settle(s, done, quiet, SetRegister(address, value, unit), Reply(4, BigEndian(address) + BigEndian(value)))
  }

  function ServeWriteCoils(s: Server, done: seq<Call>, quiet: bool, unit: byte,
                           address: u16, quantity: u16, coils: Bytes): Act
  {
    if quantity < 1 || quantity > 0x07B0 then Act([], Raise(ILLEGAL_DATA_VALUE))
    else if !InSpace(address, quantity) then Act([], Raise(ILLEGAL_DATA_ADDRESS))
    else if |coils| == 0 || BitBytes(quantity) != |coils| then Act([], Raise(ILLEGAL_DATA_VALUE))
    else if 15 !in s.installed then Act([], Raise(ILLEGAL_FUNCTION))
    else
      Settle(s, done, quiet, SetCoils(address, quantity, Cells(coils, 250, 0), unit),
             Reply(4, BigEndian(address) + BigEndian(quantity)))
  }

  function ServeWriteRegisters(s: Server, done: seq<Call>, quiet: bool, unit: byte,
                               address: u16, quantity: u16, values: Bytes): Act
  {
    if quantity < 1 || quantity > 0x007B then Act([], Raise(ILLEGAL_DATA_VALUE))
    else if !InSpace(address, quantity) then Act([], Raise(ILLEGAL_DATA_ADDRESS))
    else if |values| == 0 || |values| != 2 * quantity then Act([], Raise(ILLEGAL_DATA_VALUE))
    else if 16 !in s.installed then Act([], Raise(ILLEGAL_FUNCTION))
    else
      Settle(s, done, quiet, SetRegisters(address, RegistersOf(values), unit),
             Reply(4, BigEndian(address) + BigEndian(quantity)))
  }

  function ServeReadWrite(s: Server, done: seq<Call>, quiet: bool, unit: byte, readAddress: u16, readQuantity: u16,
                          writeAddress: u16, writeQuantity: u16, values: Bytes): Act
  {
    if readQuantity < 1 || readQuantity > 0x007D then Act([], Raise(ILLEGAL_DATA_VALUE))
    else if writeQuantity < 1 || writeQuantity > 0x007B then Act([], Raise(ILLEGAL_DATA_VALUE))
    else if |values| != 2 * writeQuantity then Act([], Raise(ILLEGAL_DATA_VALUE))
    else if !InSpace(readAddress, readQuantity) then Act([], Raise(ILLEGAL_DATA_ADDRESS))
    else if !InSpace(writeAddress, writeQuantity) then Act([], Raise(ILLEGAL_DATA_ADDRESS))
    else if 16 !in s.installed || 3 !in s.installed then Act([], Raise(ILLEGAL_FUNCTION))
    else
      var w := SetRegisters(writeAddress, RegistersOf(values), unit);
      if Code(s, done, w) != 0 || quiet then Settle(s, done, quiet, w, Quiet)
      else
        var r := AskRegisters(3, readAddress, readQuantity, unit);
        var n := 2 * readQuantity;
        var act := Settle(s, done + [w], false, r,
                          Reply(1 + n, [n] + RegisterBytes(RegistersGiven(s, done + [w], r, readQuantity))));
        Act([w] + act.calls, act.verdict)
  }

  /** One sub-request of a file record request, without the registers of a write. */
  datatype Part = Part(kind: byte, file: u16, record: u16, length: u16)

  const PART_HEADER := 7

  predicate GoodPart(p: Part, most: nat) {
    p.kind == 6 && p.file != 0 && p.record <= 0x270F && p.length <= most
  }

  function PartAt(b: Bytes, i: nat): Part
    requires i + PART_HEADER <= |b|
  {
    Part(b[i], Word16(b[i + 1], b[i + 2]), Word16(b[i + 3], b[i + 4]), Word16(b[i + 5], b[i + 6]))
  }

  /** The sub-requests of a file read. */
  function ReadParts(b: Bytes): (r: seq<Part>)
    ensures |r| == |b| / 7
  {
    if |b| < PART_HEADER then [] else [PartAt(b, 0)] + ReadParts(b[PART_HEADER..])
  }

  /** The size of the data of the reply to a file read. */
  function ReadSize(parts: seq<Part>): nat {
    if parts == [] then 0 else ReadSize(parts[..|parts| - 1]) + 2 + 2 * parts[|parts| - 1].length
  }

  /** The calls of a file read and the bytes they put into the reply, up to the first that fails. */
  function ReadRecords(s: Server, done: seq<Call>, unit: byte, parts: seq<Part>): (seq<Call>, Verdict) {
    if parts == [] then ([], Reply(0, []))
    else
      var (calls, verdict) := ReadRecords(s, done, unit, parts[..|parts| - 1]);
      if !verdict.Reply? then (calls, verdict)
      else
        var p := parts[|parts| - 1];
        var c := AskFile(p.file, p.record, p.length, unit);
        if Code(s, done + calls, c) != 0 then (calls + [c], Raise(Code(s, done + calls, c)))
        else (calls + [c], Reply(0, verdict.data + [(2 * p.length + 1) % 256, 6] +
                                    RegisterBytes(RegistersGiven(s, done + calls, c, p.length))))
  }

  function ServeReadFile(s: Server, done: seq<Call>, quiet: bool, unit: byte, b: Bytes): Act {
    if |b| % PART_HEADER != 0 then Act([], Raise(ILLEGAL_DATA_VALUE))
    else if |b| < 0x07 || |b| > 0xF5 then Act([], Raise(ILLEGAL_DATA_VALUE))
    else
      var parts := ReadParts(b);
      if exists i :: 0 <= i < |parts| && !GoodPart(parts[i], 124) then Act([], Raise(ILLEGAL_DATA_ADDRESS))
      else if 20 !in s.installed then Act([], Raise(ILLEGAL_FUNCTION))
      else
        var size := ReadSize(parts) % 256;
        var (calls, verdict) := ReadRecords(s, done, unit, parts);
        Act(calls, if !verdict.Reply? then verdict else if quiet then Quiet else Reply(size, [size] + verdict.data))
  }

  /** Whether the sub-requests of a file write lie one after the other within `b`, with less than a header left over. */
  predicate Walkable(b: Bytes)
    decreases |b|
  {
    |b| >= PART_HEADER &&
    var next := PART_HEADER + 2 * PartAt(b, 0).length;
    next <= |b| && (|b| - next < PART_HEADER || Walkable(b[next..]))
  }

  /** The first pass over a file write: the exception it ends with, or 0. */
  function CheckParts(b: Bytes): byte
    requires Walkable(b)
    decreases |b|
  {
    var p := PartAt(b, 0);
    var rest := b[PART_HEADER + 2 * p.length..];
    if !GoodPart(p, 122) then ILLEGAL_DATA_ADDRESS
    else if |rest| >= PART_HEADER then CheckParts(rest)
    else if rest != [] then ILLEGAL_DATA_VALUE
    else 0
  }

  /** The second pass: the calls it makes, in order, and the exception it ends with, or 0. */
  function WriteRecords(s: Server, done: seq<Call>, unit: byte, b: Bytes): (seq<Call>, byte)
    requires Walkable(b)
    decreases |b|
  {
    var p := PartAt(b, 0);
    var next := PART_HEADER + 2 * p.length;
    var c := SetFile(p.file, p.record, RegistersOf(b[PART_HEADER..next]), unit);
    if 21 !in s.installed then ([], ILLEGAL_FUNCTION)
    else if Code(s, done, c) != 0 then ([c], Code(s, done, c))
    else if |b| - next < PART_HEADER then ([c], 0)
    else
      var (calls, code) := WriteRecords(s, done + [c], unit, b[next..]);
      ([c] + calls, code)
  }

  function ServeWriteFile(s: Server, done: seq<Call>, quiet: bool, unit: byte, b: Bytes): Act
    requires |b| < 0x07 || |b| > 0xFB || Walkable(b)
  {
    if |b| < 0x07 || |b| > 0xFB then Act([], Raise(ILLEGAL_DATA_VALUE))
    else if CheckParts(b) != 0 then Act([], Raise(CheckParts(b)))
    else
      var (calls, code) := WriteRecords(s, done, unit, b);
      Act(calls, if code != 0 then Raise(code) else if quiet then Quiet else Echo)
  }

  /** The bytes a verdict puts on the line, in answer to the message `m` with `size` bytes of data. */
  function Response(t: Transport, tid: u16, unit: byte, fc: byte, m: Bytes, size: nat, v: Verdict): Bytes
    requires v.Echo? ==> Lead(t) + size <= |m|
  {
    match v
    case Raise(code) => Packet(t, tid, unit, (fc + 0x80) % 256, 1, [code])
    case Reply(length, data) => Packet(t, tid, unit, fc, length, data)
    case Echo => Sealed(t, m[..Lead(t) + size])
    case Quiet => []
  }

  predicate Known(fc: byte) { 1 <= fc <= 6 || fc == 15 || fc == 16 || fc == 20 || fc == 21 || fc == 23 }

  /** How many bytes of data a request has, as far as they have come. */
  function RequestSize(t: Transport, fc: byte, m: Bytes): nat {
    if fc == 15 || fc == 16 then Counted(t, m, 4)
    else if fc == 20 || fc == 21 then Counted(t, m, 0)
    else if fc == 23 then Counted(t, m, 8)
    else 4
  }

  /** What the handler of `fc` does with the data `d` of a request. */
  function Serve(s: Server, done: seq<Call>, quiet: bool, unit: byte, fc: byte, d: Bytes): Act
    requires Known(fc) && |d| >= (if fc == 23 then 9 else if fc == 20 || fc == 21 then 1 else if fc >= 15 then 5 else 4)
    requires fc == 21 ==> |d| < 8 || |d| > 0xFC || Walkable(d[1..])
  {
    if fc <= 2 then ServeReadBits(s, done, quiet, unit, fc, Word16(d[0], d[1]), Word16(d[2], d[3]))
    else if fc <= 4 then ServeReadRegisters(s, done, quiet, unit, fc, Word16(d[0], d[1]), Word16(d[2], d[3]))
    else if fc == 5 then ServeWriteCoil(s, done, quiet, unit, Word16(d[0], d[1]), Word16(d[2], d[3]))
    else if fc == 6 then ServeWriteRegister(s, done, quiet, unit, Word16(d[0], d[1]), Word16(d[2], d[3]))
    else if fc == 15 then ServeWriteCoils(s, done, quiet, unit, Word16(d[0], d[1]), Word16(d[2], d[3]), d[5..])
    else if fc == 16 then ServeWriteRegisters(s, done, quiet, unit, Word16(d[0], d[1]), Word16(d[2], d[3]), d[5..])
    else if fc == 20 then ServeReadFile(s, done, quiet, unit, d[1..])
    else if fc == 21 then ServeWriteFile(s, done, quiet, unit, d[1..])
    else ServeReadWrite(s, done, quiet, unit, Word16(d[0], d[1]), Word16(d[2], d[3]), Word16(d[4], d[5]),
                        Word16(d[6], d[7]), d[9..])
  }

  /** A request of a known function that has come in full, the sub-requests of a file write within it. */
  predicate Whole(t: Transport, m: Bytes) {
    && |m| >= Lead(t) && Known(FcOf(t, m)) && |m| >= Lead(t) + RequestSize(t, FcOf(t, m), m)
    && (FcOf(t, m) == 21 ==>
          var n := RequestSize(t, 21, m); n < 8 || n > 0xFC || Walkable(m[Lead(t) + 1..Lead(t) + n]))
  }

  /** What the server does with the message `m`. */
  function React(t: Transport, s: Server, done: seq<Call>, quiet: bool, m: Bytes): Act
    requires Whole(t, m)
  {
    var n := RequestSize(t, FcOf(t, m), m);
    assert Data(t, m, n)[1..] == m[Lead(t) + 1..Lead(t) + n];
    Serve(s, done, quiet, UnitOf(t, m), FcOf(t, m), Data(t, m, n))
  }

  // ----- The client's side -----

  /** A call of one of the client's functions. */
  datatype Request =
    | ReadBits(inputs: bool, address: u16, quantity: u16)
    | ReadRegisters(inputs: bool, address: u16, quantity: u16)
    | WriteCoil(address: u16, on: bool)
    | WriteRegister(address: u16, value: u16)
    | WriteCoils(address: u16, quantity: u16, coils: Bytes)
    | WriteRegisters(address: u16, registers: seq<u16>)
    | ReadFile(file: u16, record: u16, count: u16)
    | WriteFile(file: u16, record: u16, registers: seq<u16>)
    | ReadWrite(address: u16, quantity: u16, writeAddress: u16, registers: seq<u16>)

  /** The client's checks of its arguments. */
  predicate Acceptable(r: Request) {
    match r
    case ReadBits(_, address, quantity) => 1 <= quantity <= 2000 && InSpace(address, quantity)
    case ReadRegisters(_, address, quantity) => 1 <= quantity <= 125 && InSpace(address, quantity)
    case WriteCoil(_, _) => true
    case WriteRegister(_, _) => true
    case WriteCoils(address, quantity, coils) =>
      1 <= quantity <= 0x07B0 && InSpace(address, quantity) && |coils| == BitBytes(quantity)
    case WriteRegisters(address, regs) => 1 <= |regs| <= 0x007B && InSpace(address, |regs|)
    case ReadFile(file, record, count) => file != 0 && record <= 0x270F && count <= 124
    case WriteFile(file, record, regs) => file != 0 && record <= 0x270F && |regs| <= 122
    case ReadWrite(address, quantity, writeAddress, regs) =>
      && 1 <= quantity <= 0x007D && InSpace(address, quantity)
      && 1 <= |regs| <= 0x0079 && InSpace(writeAddress, |regs|)
  }

  function Function(r: Request): byte {
    match r
    case ReadBits(inputs, _, _) => if inputs then 2 else 1
    case ReadRegisters(inputs, _, _) => if inputs then 4 else 3
    case WriteCoil(_, _) => 5
    case WriteRegister(_, _) => 6
    case WriteCoils(_, _, _) => 15
    case WriteRegisters(_, _) => 16
    case ReadFile(_, _, _) => 20
    case WriteFile(_, _, _) => 21
    case ReadWrite(_, _, _, _) => 23
  }

  function CoilValue(on: bool): u16 { if on then 0xFF00 else 0 }

  /** The data of the request message. */
  function Body(r: Request): Bytes
    requires Acceptable(r)
  {
    match r
    case ReadBits(_, address, quantity) => BigEndian(address) + BigEndian(quantity)
    case ReadRegisters(_, address, quantity) => BigEndian(address) + BigEndian(quantity)
    case WriteCoil(address, on) => BigEndian(address) + BigEndian(CoilValue(on))
    case WriteRegister(address, value) => BigEndian(address) + BigEndian(value)
    case WriteCoils(address, quantity, coils) => BigEndian(address) + BigEndian(quantity) + [|coils|] + coils
    case WriteRegisters(address, regs) =>
      BigEndian(address) + BigEndian(|regs|) + [2 * |regs|] + RegisterBytes(regs)
    case ReadFile(file, record, count) => [7, 6] + BigEndian(file) + BigEndian(record) + BigEndian(count)
    case WriteFile(file, record, regs) =>
      [7 + 2 * |regs|, 6] + BigEndian(file) + BigEndian(record) + BigEndian(|regs|) + RegisterBytes(regs)
    case ReadWrite(address, quantity, writeAddress, regs) =>
      BigEndian(address) + BigEndian(quantity) + BigEndian(writeAddress) + BigEndian(|regs|) + [2 * |regs|] +
      RegisterBytes(regs)
  }

  /** The longer bodies in the pieces they are written in. */
  lemma BodyPieces(r: Request)
    requires Acceptable(r)
    ensures r.WriteCoils? ==>
              Body(r) == BigEndian(r.address) + BigEndian(r.quantity) + [|r.coils|] + r.coils
    ensures r.WriteFile? ==>
              Body(r) == [7 + 2 * |r.registers|]
                         + ([6] + BigEndian(r.file) + BigEndian(r.record) + BigEndian(|r.registers|))
                         + RegisterBytes(r.registers)
    ensures r.ReadWrite? ==>
              Body(r) == BigEndian(r.address) + BigEndian(r.quantity) + BigEndian(r.writeAddress)
                         + BigEndian(|r.registers|) + [2 * |r.registers|] + RegisterBytes(r.registers)
  {
    hide BigEndian, RegisterBytes;
  }

  function RequestPacket(t: Transport, tid: u16, unit: byte, r: Request): (p: Bytes)
    requires Acceptable(r)
  {
    Packet(t, tid, unit, Function(r), |Body(r)|, Body(r))
  }

  /** The result of recv_res_header, for a request sent with `unit`, `fc` and `tid`. */
  function ResponseHead(t: Transport, fails: bool, unit: byte, fc: byte, tid: u16, m: Bytes): int {
    var h := HeaderStatus(t, fails, m);
    if h != NONE then h
    else if t.Tcp? && TidOf(t, m) != tid then INVALID_TCP_MBAP
    else if t.Rtu? && UnitOf(t, m) != unit then INVALID_UNIT_ID
    else if FcOf(t, m) == fc then NONE
    else if FcOf(t, m) - 0x80 == fc then
      var b := BodyStatus(t, fails, m, 1);
      if b != NONE then b else if IsException(m[Lead(t)]) then m[Lead(t)] else INVALID_RESPONSE
    else INVALID_RESPONSE
  }

  /** The results of the recv_*_res functions after a good head. */
  function BitsStatus(t: Transport, fails: bool, m: Bytes): int {
    BodyStatus(t, fails, m, Counted(t, m, 0))
  }

  function RegistersStatus(t: Transport, fails: bool, m: Bytes, quantity: u16): int {
    var b := BodyStatus(t, fails, m, Counted(t, m, 0));
    if b != NONE then b else if m[Lead(t)] != 2 * quantity then INVALID_RESPONSE else NONE
  }

  function EchoStatus(t: Transport, fails: bool, m: Bytes, address: u16, value: u16): int {
    var b := BodyStatus(t, fails, m, 4);
    if b != NONE then b
    else if Word16(m[Lead(t)], m[Lead(t) + 1]) != address then INVALID_RESPONSE
    else if Word16(m[Lead(t) + 2], m[Lead(t) + 3]) != value then INVALID_RESPONSE
    else NONE
  }

  /** A reply to a file read whose inner and outer sizes agree. */
  predicate ReadFileSized(t: Transport, m: Bytes) {
    var n := Counted(t, m, 0);
    |m| >= Lead(t) + n ==> n >= 3 && n % 2 == 1 && m[Lead(t) + 1] == n - 2
  }

  function ReadFileStatus(t: Transport, fails: bool, m: Bytes, wanted: Option<u16>): int
    requires ReadFileSized(t, m)
  {
    var b := BodyStatus(t, fails, m, Counted(t, m, 0));
    if b != NONE || wanted.None? then b
    else if m[Lead(t) + 2] != 6 then INVALID_RESPONSE
    else if wanted.value != (m[Lead(t) + 1] - 1) / 2 then INVALID_RESPONSE
    else NONE
  }

  /** A reply to a file write that holds the registers it says it holds. */
  predicate WriteFileSized(t: Transport, m: Bytes) {
    var n := Counted(t, m, 0);
    |m| >= Lead(t) + n ==> n >= 8 && n == 8 + 2 * PartAt(m, Lead(t) + 1).length
  }

  function WriteFileStatus(t: Transport, fails: bool, m: Bytes, file: u16, record: u16, wanted: Option<seq<u16>>): int
    requires WriteFileSized(t, m)
  {
    var b := BodyStatus(t, fails, m, Counted(t, m, 0));
    if b != NONE || wanted.None? then b
    else
      var p := PartAt(m, Lead(t) + 1);
      if p.kind != 6 || p.file != file || p.record != record || p.length != |wanted.value| then INVALID_RESPONSE
      else if RegistersOf(m[Lead(t) + 8..Lead(t) + 8 + 2 * p.length]) != wanted.value then INVALID_RESPONSE
      else NONE
  }

  /** A reply to a file request whose sizes agree; other messages are no concern of it. */
  predicate WellSized(t: Transport, fails: bool, fc: byte, unit: byte, tid: u16, m: Bytes) {
    ResponseHead(t, fails, unit, fc, tid, m) == NONE ==>
      (fc == 20 ==> ReadFileSized(t, m)) && (fc == 21 ==> WriteFileSized(t, m))
  }

  /** The result of the client's call when `m` arrives after its request. */
  function ClientStatus(t: Transport, fails: bool, r: Request, unit: byte, tid: u16, m: Bytes): int
    requires Acceptable(r) && WellSized(t, fails, Function(r), unit, tid, m)
  {
    var h := ResponseHead(t, fails, unit, Function(r), tid, m);
    if h != NONE then h
    else match r
      case ReadBits(_, _, _) => BitsStatus(t, fails, m)
      case ReadRegisters(_, _, quantity) => RegistersStatus(t, fails, m, quantity)
      case WriteCoil(address, on) => EchoStatus(t, fails, m, address, CoilValue(on))
      case WriteRegister(address, value) => EchoStatus(t, fails, m, address, value)
      case WriteCoils(address, quantity, _) => EchoStatus(t, fails, m, address, quantity)
      case WriteRegisters(address, regs) => EchoStatus(t, fails, m, address, |regs|)
      case ReadFile(_, _, count) => ReadFileStatus(t, fails, m, Some(count))
      case WriteFile(file, record, regs) => WriteFileStatus(t, fails, m, file, record, Some(regs))
      case ReadWrite(_, quantity, _, _) => RegistersStatus(t, fails, m, quantity)
  }

  /** The values the client takes from a reply, by the same reads as its recv_*_res functions. */
  function BitsRead(t: Transport, m: Bytes): Bytes
    requires |m| >= Lead(t) + Counted(t, m, 0) && |m| > Lead(t)
  {
    m[Lead(t) + 1..Lead(t) + 1 + m[Lead(t)]]
  }

  function RegistersRead(t: Transport, m: Bytes, at: nat, n: nat): seq<u16>
    requires |m| >= Lead(t) + at + 2 * n
  {
    RegistersOf(m[Lead(t) + at..Lead(t) + at + 2 * n])
  }

  // ----- A client and its server -----

  /** The calls a request makes of the server's application and the exception it earns, or 0. */
  function Outcome(s: Server, done: seq<Call>, unit: byte, r: Request): (seq<Call>, byte)
    requires Acceptable(r)
  {
    match r
    case ReadBits(_, address, quantity) => One(s, done, Function(r), AskBits(Function(r), address, quantity, unit))
    case ReadRegisters(_, address, quantity) =>
      One(s, done, Function(r), AskRegisters(Function(r), address, quantity, unit))
    case WriteCoil(address, on) => One(s, done, 5, SetCoil(address, on, unit))
    case WriteRegister(address, value) => One(s, done, 6, SetRegister(address, value, unit))
    case WriteCoils(address, quantity, coils) =>
      One(s, done, 15, SetCoils(address, quantity, Cells(coils, 250, 0), unit))
    case WriteRegisters(address, regs) => One(s, done, 16, SetRegisters(address, regs, unit))
    case ReadFile(file, record, count) => One(s, done, 20, AskFile(file, record, count, unit))
    case WriteFile(file, record, regs) => One(s, done, 21, SetFile(file, record, regs, unit))
    case ReadWrite(address, quantity, writeAddress, regs) =>
      if 16 !in s.installed || 3 !in s.installed then ([], ILLEGAL_FUNCTION)
      else
        var w := SetRegisters(writeAddress, regs, unit);
        var read := AskRegisters(3, address, quantity, unit);
        if Code(s, done, w) != 0 then ([w], Code(s, done, w)) else ([w, read], Code(s, done + [w], read))
  }

  function One(s: Server, done: seq<Call>, fc: byte, c: Call): (seq<Call>, byte) {
    if fc !in s.installed then ([], ILLEGAL_FUNCTION) else ([c], Code(s, done, c))
  }

}
