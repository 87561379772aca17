/**
 A client and a server, both instances of class Nmbs, joined by a line: each client function is called, what it sent is
 handed to the server, and the server polls. The answer that the client found on its line is proved to be, byte for
 byte, what the server's poll puts there.
 */
module ModbusExchange {
  import opened Base
  import opened ModbusWire
  import opened ModbusProtocol
  import opened ModbusEndToEnd
  import opened NmbsModel
  import opened ModbusSession

  /** The packet `server` is going to answer the next request of `client` with. */
  function Pending(client: Nmbs, server: Nmbs, r: Request): Bytes
    requires Acceptable(r)
    reads client`currentTid, server`calls
  {
    Answered(client.transport, server.server, server.calls, client.NextTid(), client.destAddressRtu, r)
  }

  /** Two instances on one idle line; what the client is about to read starts with the answer to its request. */
  predicate Joined(client: Nmbs, server: Nmbs, r: Request)
    reads client, server
  {
    && Acceptable(r)
    && client.Ready() && server.Ready() && client != server && client.buf != server.buf
    && client.transport == server.transport && client.writeStatus == NONE && Serves(server, client.destAddressRtu)
    && server.incoming == [] && Pending(client, server, r) <= client.incoming
  }

  /**
   What an exchange comes to, from the calls `done` and the lines `sent`, `emitted` and `line` before it: the callbacks
   are called with the client's arguments, the client returns their verdict, and each side has put on the line exactly
   what the other took from it.
   */
  predicate Exchanged(client: Nmbs, server: Nmbs, r: Request, err: int, tid: u16, done: seq<Call>,
                      sent: Bytes, emitted: Bytes, line: Bytes)
    requires Acceptable(r)
    reads client, server
  {
    var unit := client.destAddressRtu;
    var (calls, code) := Outcome(server.server, done, unit, r);
    var answer := Answered(client.transport, server.server, done, tid, unit, r);
    && err == code && server.calls == done + calls
    && client.outgoing == sent + RequestPacket(client.transport, tid, unit, r) && server.incoming == []
    && server.outgoing == emitted + answer && line == answer + client.incoming
    && client.currentTid == tid
  }

  // ----- The client's end -----

  /** A client takes exactly the packet that answers it from the line. */
  lemma AnswerUsed(n: Nmbs, s: Server, done: seq<Call>, tid: u16, r: Request, m: Bytes)
    requires Acceptable(r) && Answered(n.transport, s, done, tid, n.destAddressRtu, r) <= m
    ensures n.ResponseUsed(m, n.destAddressRtu, Function(r), tid, n.ReplySize(r, m))
              == |Answered(n.transport, s, done, tid, n.destAddressRtu, r)|
  {
    hide HeaderStatus, BodyStatus, Packet, Outcome, Answered, ResponseHead, GoodReply, Used, TidOf, UnitOf, FcOf;
    var t, unit := n.transport, n.destAddressRtu;
    AnswerIsPacket(t, s, done, tid, unit, r);
    var code := Outcome(s, done, unit, r).1;
    if code != 0 {
      PacketReceived(t, n.readFails, tid, unit, Function(r) + 0x80, 1, [code], m);
      ExceptionHead(t, n.readFails, tid, unit, Function(r), code, m);
    } else {
      var d := GoodReply(s, done, unit, r);
      var length := if r.ReadFile? then |d| - 1 else |d|;
      GoodHead(t, n.readFails, tid, unit, Function(r), length, d, m);
      PacketReceived(t, n.readFails, tid, unit, Function(r), length, d, m);
      ReplyCounts(s, done, unit, r);
      assert |m| >= Lead(t) + |d|;
      assert m[Lead(t) + 0] == d[0];
    }
  }

  lemma SplitAt(a: Bytes, m: Bytes)
    requires a <= m
    ensures m == a + m[|a|..]
  {
  }

  /** What a client function has heard when the server's answer was on its line. */
  lemma Heard(n: Nmbs, s: Server, done: seq<Call>, tid: u16, r: Request, sent: Bytes, m: Bytes, err: int)
    requires Acceptable(r) && Answered(n.transport, s, done, tid, n.destAddressRtu, r) <= m
    requires WellSized(n.transport, n.readFails, Function(r), n.destAddressRtu, tid, m)
    requires n.writeStatus == NONE && n.Awaited(r) && n.Asked(r, err, tid, sent, m)
    ensures err == Outcome(s, done, n.destAddressRtu, r).1 && n.currentTid == tid
    ensures n.outgoing == sent + RequestPacket(n.transport, tid, n.destAddressRtu, r)
    ensures m == Answered(n.transport, s, done, tid, n.destAddressRtu, r) + n.incoming
    ensures err == NONE ==> Delivered(n.transport, s, done, n.destAddressRtu, r, m)
  {
    hide Answered, Outcome, Delivered, ClientStatus, WellSized, RequestPacket, Nmbs.ResponseUsed, Nmbs.ReplySize;
    ClientEnd(n.transport, s, done, tid, n.destAddressRtu, r, n.readFails, m);
    AnswerUsed(n, s, done, tid, r, m);
    SplitAt(Answered(n.transport, s, done, tid, n.destAddressRtu, r), m);
  }

  // ----- The line -----

  /** A poll takes the whole request from the line. */
  lemma NothingLeft(n: Nmbs, tid: u16, unit: byte, r: Request)
    requires Acceptable(r) && (n.transport.Rtu? ==> unit in {0, n.addressRtu})
    ensures var m := RequestPacket(n.transport, tid, unit, r);
            && |m| >= Lead(n.transport) && !n.ForOther(m)
            && (n.Leaves(m, false) ==> n.incoming == [])
  {
    hide Packet, RequestSize, HeaderStatus, UnitOf, FcOf, Body;
    var m := RequestPacket(n.transport, tid, unit, r);
    BodyCounts(r);
    RequestArrives(n.transport, n.readFails, tid, unit, r, m);
    PacketReceived(n.transport, n.readFails, tid, unit, Function(r), |Body(r)|, Body(r), m);
  }

  /** What the client has sent since `before` reaches the server, which polls. */
  method Relay(client: Nmbs, server: Nmbs, before: nat, ghost tid: u16, ghost r: Request)
    requires server.Ready() && server.incoming == [] && client != server && Acceptable(r)
    requires client.transport == server.transport && Serves(server, client.destAddressRtu)
    requires before <= |client.outgoing|
    requires client.outgoing[before..] == RequestPacket(client.transport, tid, client.destAddressRtu, r)
    modifies server`incoming, server`bufIdx, server`msg, server`outgoing, server`calls, server.buf
    ensures server.incoming == []
    ensures server.calls
              == old(server.calls) + Outcome(server.server, old(server.calls), client.destAddressRtu, r).0
    ensures server.outgoing
              == old(server.outgoing)
                 + Answered(client.transport, server.server, old(server.calls), tid, client.destAddressRtu, r)
  {
    hide RequestPacket, Answered, Outcome, HeaderStatus;
    server.incoming := client.outgoing[before..];
    ghost var m, done, line := server.incoming, server.calls, server.outgoing;
    PollServes(server, tid, client.destAddressRtu, r, m, NONE, done, line);
    var err;
    ghost var handled;
    err, handled := server.Poll();
    PollServes(server, tid, client.destAddressRtu, r, m, handled, done, line);
    NothingLeft(server, tid, client.destAddressRtu, r);
  }

  // ----- The nine exchanges -----

  /** nmbs_read_coils and nmbs_read_discrete_inputs: the bits the callback gave arrive. */
  method ReadDiscrete(client: Nmbs, server: Nmbs, inputs: bool, address: u16, quantity: u16, values: array?<byte>)
    returns (err: int)
    requires Joined(client, server, ReadBits(inputs, address, quantity))
    requires values != client.buf && values != server.buf && (values != null ==> values.Length >= BitBytes(quantity))
    modifies client`incoming, client`bufIdx, client`msg, client`outgoing, client`currentTid, client.buf
    modifies server`incoming, server`bufIdx, server`msg, server`outgoing, server`calls, server.buf
    modifies values
    ensures Exchanged(client, server, ReadBits(inputs, address, quantity), err, old(client.NextTid()),
                      old(server.calls), old(client.outgoing), old(server.outgoing), old(client.incoming))
    ensures err == NONE && values != null ==>
              values[..BitBytes(quantity)]
                == BitsGiven(server.server, old(server.calls),
                             AskBits(if inputs then 2 else 1, address, quantity, client.destAddressRtu),
                             BitBytes(quantity))
  {
    hide RequestPacket, Answered, Outcome, ClientStatus, WellSized, RegistersRead, BitsRead, BitsGiven, RegistersGiven;
    ghost var r, tid, done := ReadBits(inputs, address, quantity), client.NextTid(), server.calls;
    ghost var sent, m := client.outgoing, client.incoming;
    var before := |client.outgoing|;
    AnswerWithin(client, server.server, done, tid, r, m, if values == null then 255 else values.Length);
    err := client.ReadDiscrete(inputs, address, quantity, values);
    Heard(client, server.server, done, tid, r, sent, m, err);
    Relay(client, server, before, tid, r);
  }

  /** nmbs_read_holding_registers and nmbs_read_input_registers: the registers the callback gave arrive. */
  method ReadRegisters(client: Nmbs, server: Nmbs, inputs: bool, address: u16, quantity: u16, registers: array?<u16>)
    returns (err: int)
    requires Joined(client, server, Request.ReadRegisters(inputs, address, quantity))
    requires registers != null ==> registers.Length >= quantity
    modifies client`incoming, client`bufIdx, client`msg, client`outgoing, client`currentTid, client.buf
    modifies server`incoming, server`bufIdx, server`msg, server`outgoing, server`calls, server.buf
    modifies registers
    ensures Exchanged(client, server, Request.ReadRegisters(inputs, address, quantity), err, old(client.NextTid()),
                      old(server.calls), old(client.outgoing), old(server.outgoing), old(client.incoming))
    ensures err == NONE && registers != null ==>
              registers[..quantity]
                == RegistersGiven(server.server, old(server.calls),
                                  AskRegisters(if inputs then 4 else 3, address, quantity, client.destAddressRtu),
                                  quantity)
  {
    hide RequestPacket, Answered, Outcome, ClientStatus, WellSized, RegistersRead, BitsRead, BitsGiven, RegistersGiven;
    ghost var r, tid, done := Request.ReadRegisters(inputs, address, quantity), client.NextTid(), server.calls;
    ghost var sent, m := client.outgoing, client.incoming;
    var before := |client.outgoing|;
    AnswerWithin(client, server.server, done, tid, r, m, if registers == null then 127 else registers.Length);
    err := client.ReadRegisters(inputs, address, quantity, registers);
    Heard(client, server.server, done, tid, r, sent, m, err);
    Relay(client, server, before, tid, r);
  }

  /** nmbs_write_single_coil. */
  method WriteSingleCoil(client: Nmbs, server: Nmbs, address: u16, value: bool)
    returns (err: int)
    requires Joined(client, server, WriteCoil(address, value))
    modifies client`incoming, client`bufIdx, client`msg, client`outgoing, client`currentTid, client.buf
    modifies server`incoming, server`bufIdx, server`msg, server`outgoing, server`calls, server.buf
    ensures Exchanged(client, server, WriteCoil(address, value), err, old(client.NextTid()),
                      old(server.calls), old(client.outgoing), old(server.outgoing), old(client.incoming))
  {
    hide RequestPacket, Answered, Outcome, ClientStatus, WellSized, RegistersRead, BitsRead, BitsGiven, RegistersGiven;
    ghost var r, tid, done := WriteCoil(address, value), client.NextTid(), server.calls;
    ghost var sent, m := client.outgoing, client.incoming;
    var before := |client.outgoing|;
    AnswerWithin(client, server.server, done, tid, r, m, 0);
    err := client.WriteSingleCoil(address, value);
    Heard(client, server.server, done, tid, r, sent, m, err);
    Relay(client, server, before, tid, r);
  }

  /** nmbs_write_single_register. */
  method WriteSingleRegister(client: Nmbs, server: Nmbs, address: u16, value: u16)
    returns (err: int)
    requires Joined(client, server, WriteRegister(address, value))
    modifies client`incoming, client`bufIdx, client`msg, client`outgoing, client`currentTid, client.buf
    modifies server`incoming, server`bufIdx, server`msg, server`outgoing, server`calls, server.buf
    ensures Exchanged(client, server, WriteRegister(address, value), err, old(client.NextTid()),
                      old(server.calls), old(client.outgoing), old(server.outgoing), old(client.incoming))
  {
    hide RequestPacket, Answered, Outcome, ClientStatus, WellSized, RegistersRead, BitsRead, BitsGiven, RegistersGiven;
    ghost var r, tid, done := WriteRegister(address, value), client.NextTid(), server.calls;
    ghost var sent, m := client.outgoing, client.incoming;
    var before := |client.outgoing|;
    AnswerWithin(client, server.server, done, tid, r, m, 0);
    err := client.WriteSingleRegister(address, value);
    Heard(client, server.server, done, tid, r, sent, m, err);
    Relay(client, server, before, tid, r);
  }

  /** nmbs_write_multiple_coils. */
  method WriteMultipleCoils(client: Nmbs, server: Nmbs, address: u16, quantity: u16, coils: Bytes)
    returns (err: int)
    requires Joined(client, server, WriteCoils(address, quantity, coils))
    modifies client`incoming, client`bufIdx, client`msg, client`outgoing, client`currentTid, client.buf
    modifies server`incoming, server`bufIdx, server`msg, server`outgoing, server`calls, server.buf
    ensures Exchanged(client, server, WriteCoils(address, quantity, coils), err, old(client.NextTid()),
                      old(server.calls), old(client.outgoing), old(server.outgoing), old(client.incoming))
  {
    hide RequestPacket, Answered, Outcome, ClientStatus, WellSized, RegistersRead, BitsRead, BitsGiven, RegistersGiven;
    ghost var r, tid, done := WriteCoils(address, quantity, coils), client.NextTid(), server.calls;
    ghost var sent, m := client.outgoing, client.incoming;
    var before := |client.outgoing|;
    AnswerWithin(client, server.server, done, tid, r, m, 0);
    err := client.WriteMultipleCoils(address, quantity, coils);
    Heard(client, server.server, done, tid, r, sent, m, err);
    Relay(client, server, before, tid, r);
  }

  /** nmbs_write_multiple_registers. */
  method WriteMultipleRegisters(client: Nmbs, server: Nmbs, address: u16, registers: seq<u16>)
    returns (err: int)
    requires Joined(client, server, WriteRegisters(address, registers))
    modifies client`incoming, client`bufIdx, client`msg, client`outgoing, client`currentTid, client.buf
    modifies server`incoming, server`bufIdx, server`msg, server`outgoing, server`calls, server.buf
    ensures Exchanged(client, server, WriteRegisters(address, registers), err, old(client.NextTid()),
                      old(server.calls), old(client.outgoing), old(server.outgoing), old(client.incoming))
  {
    hide RequestPacket, Answered, Outcome, ClientStatus, WellSized, RegistersRead, BitsRead, BitsGiven, RegistersGiven;
    ghost var r, tid, done := WriteRegisters(address, registers), client.NextTid(), server.calls;
    ghost var sent, m := client.outgoing, client.incoming;
    var before := |client.outgoing|;
    AnswerWithin(client, server.server, done, tid, r, m, 0);
    err := client.WriteMultipleRegisters(address, |registers|, registers);
    Heard(client, server.server, done, tid, r, sent, m, err);
    Relay(client, server, before, tid, r);
  }

  /** nmbs_read_file_record: the registers the callback gave arrive. */
  method ReadFileRecord(client: Nmbs, server: Nmbs, file: u16, record: u16, registers: array<u16>, count: u16)
    returns (err: int)
    requires Joined(client, server, ReadFile(file, record, count))
    requires registers.Length >= count
    modifies client`incoming, client`bufIdx, client`msg, client`outgoing, client`currentTid, client.buf
    modifies server`incoming, server`bufIdx, server`msg, server`outgoing, server`calls, server.buf
    modifies registers
    ensures Exchanged(client, server, ReadFile(file, record, count), err, old(client.NextTid()),
                      old(server.calls), old(client.outgoing), old(server.outgoing), old(client.incoming))
    ensures err == NONE ==>
              registers[..count]
                == RegistersGiven(server.server, old(server.calls),
                                  AskFile(file, record, count, client.destAddressRtu), count)
  {
    hide RequestPacket, Answered, Outcome, ClientStatus, WellSized, RegistersRead, BitsRead, BitsGiven, RegistersGiven;
    ghost var r, tid, done := ReadFile(file, record, count), client.NextTid(), server.calls;
    ghost var sent, m := client.outgoing, client.incoming;
    var before := |client.outgoing|;
    AnswerWithin(client, server.server, done, tid, r, m, 255);
    err := client.ReadFileRecord(file, record, registers, count);
    Heard(client, server.server, done, tid, r, sent, m, err);
    Relay(client, server, before, tid, r);
  }

  /** nmbs_write_file_record. */
  method WriteFileRecord(client: Nmbs, server: Nmbs, file: u16, record: u16, registers: seq<u16>)
    returns (err: int)
    requires Joined(client, server, WriteFile(file, record, registers))
    modifies client`incoming, client`bufIdx, client`msg, client`outgoing, client`currentTid, client.buf
    modifies server`incoming, server`bufIdx, server`msg, server`outgoing, server`calls, server.buf
    ensures Exchanged(client, server, WriteFile(file, record, registers), err, old(client.NextTid()),
                      old(server.calls), old(client.outgoing), old(server.outgoing), old(client.incoming))
  {
    hide RequestPacket, Answered, Outcome, ClientStatus, WellSized, RegistersRead, BitsRead, BitsGiven, RegistersGiven;
    ghost var r, tid, done := WriteFile(file, record, registers), client.NextTid(), server.calls;
    ghost var sent, m := client.outgoing, client.incoming;
    var before := |client.outgoing|;
    AnswerWithin(client, server.server, done, tid, r, m, 255);
    err := client.WriteFileRecord(file, record, registers, |registers|);
    Heard(client, server.server, done, tid, r, sent, m, err);
    Relay(client, server, before, tid, r);
  }

  /** nmbs_read_write_registers: the callback that reads has the write before it. */
  method ReadWriteRegisters(client: Nmbs, server: Nmbs, address: u16, quantity: u16, out: array?<u16>,
                            writeAddress: u16, registers: seq<u16>)
    returns (err: int)
    requires Joined(client, server, ReadWrite(address, quantity, writeAddress, registers))
    requires out != null ==> out.Length >= quantity
    modifies client`incoming, client`bufIdx, client`msg, client`outgoing, client`currentTid, client.buf
    modifies server`incoming, server`bufIdx, server`msg, server`outgoing, server`calls, server.buf
    modifies out
    ensures Exchanged(client, server, ReadWrite(address, quantity, writeAddress, registers), err, old(client.NextTid()),
                      old(server.calls), old(client.outgoing), old(server.outgoing), old(client.incoming))
    ensures err == NONE && out != null ==>
              out[..quantity]
                == RegistersGiven(server.server,
                                  old(server.calls) + [SetRegisters(writeAddress, registers, client.destAddressRtu)],
                                  AskRegisters(3, address, quantity, client.destAddressRtu), quantity)
  {
    hide RequestPacket, Answered, Outcome, ClientStatus, WellSized, RegistersRead, BitsRead, BitsGiven, RegistersGiven;
    ghost var r, tid, done := ReadWrite(address, quantity, writeAddress, registers), client.NextTid(), server.calls;
    ghost var sent, m := client.outgoing, client.incoming;
    var before := |client.outgoing|;
    AnswerWithin(client, server.server, done, tid, r, m, if out == null then 127 else out.Length);
    err := client.ReadWriteRegisters(address, quantity, out, writeAddress, |registers|, registers);
    Heard(client, server.server, done, tid, r, sent, m, err);
    Relay(client, server, before, tid, r);
  }

  // ----- Broadcasts -----

  /** What the client has sent to all since `before` reaches a server, which polls. */
  method Spread(client: Nmbs, server: Nmbs, before: nat, ghost tid: u16, ghost r: Request)
    requires server.Ready() && server.incoming == [] && client != server && Acceptable(r)
    requires server.transport.Rtu? && server.writeStatus == NONE
    requires before <= |client.outgoing| && client.outgoing[before..] == RequestPacket(Rtu, tid, 0, r)
    modifies server`incoming, server`bufIdx, server`msg, server`outgoing, server`calls, server.buf
    ensures server.incoming == []
    ensures var (calls, code) := Heeded(server.server, old(server.calls), 0, r);
            && server.calls == old(server.calls) + calls
            && server.outgoing
                 == old(server.outgoing) + if code == 0 then [] else Packet(Rtu, 0, 0, Function(r) + 0x80, 1, [code])
  {
    hide RequestPacket, Heeded, Packet, HeaderStatus;
    server.incoming := client.outgoing[before..];
    ghost var m, done, line := server.incoming, server.calls, server.outgoing;
    PollHeeds(server, tid, r, m, NONE, done, line);
    var err;
    ghost var handled;
    err, handled := server.Poll();
    PollHeeds(server, tid, r, m, handled, done, line);
    NothingLeft(server, tid, 0, r);
  }

  /**
   A request to unit 0 on the serial line, of any kind the client does not wait for: it returns at once, and a server
   that polls makes the calls.
   */
  method Broadcast(client: Nmbs, server: Nmbs, r: Request) returns (err: int)
    requires Acceptable(r) && !r.ReadBits? && !r.ReadRegisters?
    requires client.Ready() && server.Ready() && client != server && client.buf != server.buf
    requires client.transport.Rtu? && server.transport.Rtu? && client.destAddressRtu == 0
    requires client.writeStatus == NONE && server.writeStatus == NONE && client.incoming == [] && server.incoming == []
    modifies client`incoming, client`bufIdx, client`msg, client`outgoing, client`currentTid, client.buf
    modifies server`incoming, server`bufIdx, server`msg, server`outgoing, server`calls, server.buf
    ensures err == NONE && client.incoming == [] && server.incoming == []
    ensures client.outgoing == old(client.outgoing) + RequestPacket(Rtu, old(client.NextTid()), 0, r)
    ensures var (calls, code) := Heeded(server.server, old(server.calls), 0, r);
            && server.calls == old(server.calls) + calls
            && server.outgoing
                 == old(server.outgoing) + if code == 0 then [] else Packet(Rtu, 0, 0, Function(r) + 0x80, 1, [code])
  {
    hide RequestPacket, Heeded, Packet, ClientStatus;
    ghost var tid := client.NextTid();
    var before := |client.outgoing|;
    match r {
      case WriteCoil(address, on) => err := client.WriteSingleCoil(address, on);
      case WriteRegister(address, value) => err := client.WriteSingleRegister(address, value);
      case WriteCoils(address, quantity, coils) => err := client.WriteMultipleCoils(address, quantity, coils);
      case WriteRegisters(address, regs) => err := client.WriteMultipleRegisters(address, |regs|, regs);
      case ReadFile(file, record, count) =>
        var out := new u16[count](_ => 0);
        err := client.ReadFileRecord(file, record, out, count);
      case WriteFile(file, record, regs) => err := client.WriteFileRecord(file, record, regs, |regs|);
      case ReadWrite(address, quantity, writeAddress, regs) =>
        var out := new u16[quantity](_ => 0);
        err := client.ReadWriteRegisters(address, quantity, out, writeAddress, |regs|, regs);
    }
    Spread(client, server, before, tid, r);
  }

  // ----- Any number of exchanges -----

  /** The calls a run of requests makes of the application, one request after the other. */
  function Made(s: Server, done: seq<Call>, unit: byte, rs: seq<Request>): seq<Call>
    requires forall r | r in rs :: Acceptable(r)
    decreases |rs|
  {
    if rs == [] then []
    else
      var calls := Outcome(s, done, unit, rs[0]).0;
      calls + Made(s, done + calls, unit, rs[1..])
  }

  /** What a client function returns, with the values it has put into its output. */
  datatype Returned = Returned(err: int, values: Values)

  datatype Values = Nothing | Bits(bits: Bytes) | Registers(registers: seq<u16>)

  /** The values the callbacks give for a request. */
  function Given(s: Server, done: seq<Call>, unit: byte, r: Request): Values
    requires Acceptable(r)
  {
    match r
    case ReadBits(_, address, quantity) =>
      Bits(BitsGiven(s, done, AskBits(Function(r), address, quantity, unit), BitBytes(quantity)))
    case ReadRegisters(_, address, quantity) =>
      Registers(RegistersGiven(s, done, AskRegisters(Function(r), address, quantity, unit), quantity))
    case ReadFile(file, record, count) =>
      Registers(RegistersGiven(s, done, AskFile(file, record, count, unit), count))
    case ReadWrite(address, quantity, writeAddress, regs) =>
      Registers(RegistersGiven(s, done + [SetRegisters(writeAddress, regs, unit)],
                               AskRegisters(3, address, quantity, unit), quantity))
    case _ => Nothing
  }

  /** The values of its callbacks and 0, or the exception of the one that failed. */
  function Earned(s: Server, done: seq<Call>, unit: byte, r: Request): Returned
    requires Acceptable(r)
  {
    var code := Outcome(s, done, unit, r).1;
    Returned(code, if code == 0 then Given(s, done, unit, r) else Nothing)
  }

  /** And what each of them earns. */
  function Results(s: Server, done: seq<Call>, unit: byte, rs: seq<Request>): seq<Returned>
    requires forall r | r in rs :: Acceptable(r)
    decreases |rs|
  {
    if rs == [] then []
    else [Earned(s, done, unit, rs[0])] + Results(s, done + Outcome(s, done, unit, rs[0]).0, unit, rs[1..])
  }

  /** Transaction identifiers count from 1 to 65535 and start over. */
  function Following(tid: u16): u16 { if tid == 65535 then 1 else tid + 1 }

  /** The answers to a run of requests, the last identifier before it being `tid`. */
  function Answers(t: Transport, s: Server, done: seq<Call>, tid: u16, unit: byte, rs: seq<Request>): Bytes
    requires forall r | r in rs :: Acceptable(r)
    decreases |rs|
  {
    if rs == [] then []
    else
      var next := Following(tid);
      Answered(t, s, done, next, unit, rs[0])
      + Answers(t, s, done + Outcome(s, done, unit, rs[0]).0, next, unit, rs[1..])
  }

  /** Any request, with an output for the values it asks for. */
  method Exchange(client: Nmbs, server: Nmbs, r: Request) returns (result: Returned)
    requires Joined(client, server, r)
    modifies client`incoming, client`bufIdx, client`msg, client`outgoing, client`currentTid, client.buf
    modifies server`incoming, server`bufIdx, server`msg, server`outgoing, server`calls, server.buf
    ensures Exchanged(client, server, r, result.err, old(client.NextTid()),
                      old(server.calls), old(client.outgoing), old(server.outgoing), old(client.incoming))
    ensures result == Earned(server.server, old(server.calls), client.destAddressRtu, r)
  {
    hide Joined, Answered, RequestPacket, BitsGiven, RegistersGiven;
    var err, values := NONE, Nothing;
    match r {
      case ReadBits(inputs, address, quantity) =>
        var out := new byte[BitBytes(quantity)](_ => 0);
        err := ReadDiscrete(client, server, inputs, address, quantity, out);
        values := Bits(out[..BitBytes(quantity)]);
      case ReadRegisters(inputs, address, quantity) =>
        var out := new u16[quantity](_ => 0);
        err := ReadRegisters(client, server, inputs, address, quantity, out);
        values := Registers(out[..quantity]);
      case WriteCoil(address, on) => err := WriteSingleCoil(client, server, address, on);
      case WriteRegister(address, value) => err := WriteSingleRegister(client, server, address, value);
      case WriteCoils(address, quantity, coils) => err := WriteMultipleCoils(client, server, address, quantity, coils);
      case WriteRegisters(address, regs) => err := WriteMultipleRegisters(client, server, address, regs);
      case ReadFile(file, record, count) =>
        var out := new u16[count](_ => 0);
        err := ReadFileRecord(client, server, file, record, out, count);
        values := Registers(out[..count]);
      case WriteFile(file, record, regs) => err := WriteFileRecord(client, server, file, record, regs);
      case ReadWrite(address, quantity, writeAddress, regs) =>
        var out := new u16[quantity](_ => 0);
        err := ReadWriteRegisters(client, server, address, quantity, out, writeAddress, regs);
        values := Registers(out[..quantity]);
    }
    result := Returned(err, if err == NONE then values else Nothing);
  }

  lemma NoRequests(t: Transport, s: Server, done: seq<Call>, tid: u16, unit: byte)
    ensures Made(s, done, unit, []) == [] && Results(s, done, unit, []) == []
    ensures Answers(t, s, done, tid, unit, []) == []
  {
  }

  lemma FirstAndRest(t: Transport, s: Server, done: seq<Call>, tid: u16, unit: byte, rs: seq<Request>)
    requires rs != [] && forall r | r in rs :: Acceptable(r)
    ensures var calls := Outcome(s, done, unit, rs[0]).0;
            && Made(s, done, unit, rs) == calls + Made(s, done + calls, unit, rs[1..])
            && Results(s, done, unit, rs) == [Earned(s, done, unit, rs[0])] + Results(s, done + calls, unit, rs[1..])
            && Answers(t, s, done, tid, unit, rs)
                 == Answered(t, s, done, Following(tid), unit, rs[0])
                    + Answers(t, s, done + calls, Following(tid), unit, rs[1..])
  {
    hide Answered, Outcome, Acceptable, Earned;
  }

  lemma Grouped<T>(a: seq<T>, b: seq<T>, c: seq<T>)
    ensures a + b + c == a + (b + c)
  {
  }

  function Upcoming(client: Nmbs, server: Nmbs, rs: seq<Request>): Bytes
    requires forall r | r in rs :: Acceptable(r)
    reads client`currentTid, server`calls
  {
    Answers(client.transport, server.server, server.calls, client.currentTid, client.destAddressRtu, rs)
  }

  lemma Behind(first: Bytes, rest: Bytes, line: Bytes, left: Bytes)
    requires first + rest <= line && line == first + left
    ensures rest <= left
  {
    assert left == line[|first|..];
    assert rest == (first + rest)[|first|..];
  }

  /**
   Any run of requests, of whatever kinds: each returns the values or the exception of the callbacks it reaches, in the
   state its predecessors left them in, the callbacks are called in the order of the requests, and every byte that was
   sent has been read.
   */
  method Session(client: Nmbs, server: Nmbs, rs: seq<Request>) returns (results: seq<Returned>)
    requires forall r | r in rs :: Acceptable(r)
    requires client.Ready() && server.Ready() && client != server && client.buf != server.buf
    requires client.transport == server.transport && client.writeStatus == NONE
    requires Serves(server, client.destAddressRtu) && server.incoming == []
    requires Upcoming(client, server, rs) <= client.incoming
    modifies client`incoming, client`bufIdx, client`msg, client`outgoing, client`currentTid, client.buf
    modifies server`incoming, server`bufIdx, server`msg, server`outgoing, server`calls, server.buf
    ensures results == Results(server.server, old(server.calls), client.destAddressRtu, rs)
    ensures server.calls == old(server.calls) + Made(server.server, old(server.calls), client.destAddressRtu, rs)
    ensures server.incoming == []
    ensures server.outgoing == old(server.outgoing) + old(Upcoming(client, server, rs))
    ensures old(client.incoming) == old(Upcoming(client, server, rs)) + client.incoming
    decreases |rs|
  {
    hide Answered, Outcome, RequestPacket, Acceptable, Serves, Answers, Made, Results, Earned;
    if rs == [] {
      NoRequests(client.transport, server.server, server.calls, client.currentTid, client.destAddressRtu);
      return [];
    }
    ghost var s, unit, done, tid := server.server, client.destAddressRtu, server.calls, client.currentTid;
    ghost var line, emitted, first := client.incoming, server.outgoing, Pending(client, server, rs[0]);
    FirstAndRest(client.transport, s, done, tid, unit, rs);
    var result := Exchange(client, server, rs[0]);
    ghost var calls, left := Outcome(s, done, unit, rs[0]).0, Upcoming(client, server, rs[1..]);
    Behind(first, left, line, client.incoming);
    results := Session(client, server, rs[1..]);
    Grouped(emitted, first, left);
    Grouped(first, left, client.incoming);
    Grouped(done, calls, Made(s, done + calls, unit, rs[1..]));
    results := [result] + results;
  }
}
