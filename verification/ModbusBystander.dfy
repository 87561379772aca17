/**
 Several servers on one serial line: what a server makes of a request that is meant for another one, and of the answer
 the other one gives.
 */
module ModbusBystander {
  import opened Base
  import opened ModbusWire
  import opened ModbusProtocol
  import opened ModbusEndToEnd
  import opened NmbsModel
  import opened ModbusSession

  /** The line as a bystander finds it: a request to `unit`, the answer of the server there, and what comes behind. */
  function Conversation(s: Server, done: seq<Call>, tid: u16, unit: byte, r: Request, behind: Bytes): Bytes
    requires Acceptable(r)
  {
    RequestPacket(Rtu, tid, unit, r) + (Answered(Rtu, s, done, tid, unit, r) + behind)
  }

  /** A read that came with a write and succeeded: its answer is the one the bystander mistakes for an echo. */
  predicate Mistaken(s: Server, done: seq<Call>, unit: byte, r: Request)
    requires Acceptable(r)
  {
    r.ReadWrite? && Outcome(s, done, unit, r).1 == 0
  }

  /** The request is read whole, and the answer is what follows it. */
  lemma RequestHeard(n: Nmbs, s: Server, done: seq<Call>, tid: u16, unit: byte, r: Request, behind: Bytes)
    requires Acceptable(r) && n.transport.Rtu? && unit !in {0, n.addressRtu}
    ensures var m := Conversation(s, done, tid, unit, r, behind);
            && HeaderStatus(Rtu, n.readFails, m) == NONE && UnitOf(Rtu, m) == unit && FcOf(Rtu, m) == Function(r)
            && BodyStatus(Rtu, n.readFails, m, RequestSize(Rtu, FcOf(Rtu, m), m)) == NONE
            && n.RequestFits(m) && n.ForOther(m) && !n.Broadcast(m)
            && n.After(m) == Answered(Rtu, s, done, tid, unit, r) + behind
            && |m| >= 2 + |Body(r)| && forall i :: 0 <= i < |Body(r)| ==> m[2 + i] == Body(r)[i]
  {
    hide HeaderStatus, BodyStatus, Packet, Answered, Body, RequestSize, UnitOf, FcOf, TidOf;
    var m := Conversation(s, done, tid, unit, r, behind);
    var p := RequestPacket(Rtu, tid, unit, r);
    BodyCounts(r);
    RequestArrives(Rtu, n.readFails, tid, unit, r, m);
    RequestWithin(n, tid, unit, r, m);
    PacketReceived(Rtu, n.readFails, tid, unit, Function(r), |Body(r)|, Body(r), m);
    assert m[|p|..] == Answered(Rtu, s, done, tid, unit, r) + behind;
  }

  /** The two words at the start of a request's data, and the two behind them. */
  lemma WordsHeard(r: Request, m: Bytes)
    requires Acceptable(r) && |m| >= 2 + |Body(r)| && forall i :: 0 <= i < |Body(r)| ==> m[2 + i] == Body(r)[i]
    ensures r.ReadRegisters? ==> Word16(m[4], m[5]) == r.quantity
    ensures r.WriteCoil? ==> Word16(m[2], m[3]) == r.address && Word16(m[4], m[5]) == CoilValue(r.on)
    ensures r.WriteRegister? ==> Word16(m[2], m[3]) == r.address && Word16(m[4], m[5]) == r.value
    ensures r.WriteCoils? ==> Word16(m[2], m[3]) == r.address && Word16(m[4], m[5]) == r.quantity
    ensures r.WriteRegisters? ==> Word16(m[2], m[3]) == r.address && Word16(m[4], m[5]) == |r.registers|
  {
    hide RegisterBytes, CoilValue;
    BodyCounts(r);
    var d := Body(r);
    if r.ReadRegisters? || r.WriteCoil? || r.WriteRegister? || r.WriteCoils? || r.WriteRegisters? {
      assert m[2 + 0] == d[0] && m[2 + 1] == d[1] && m[2 + 2] == d[2] && m[2 + 3] == d[3];
    }
  }

  /** How much of the answer a bystander reads: the fields it expects, of a write and a read together only an echo. */
  function Expected(r: Request, a: Bytes): nat {
    if r.ReadBits? || r.ReadRegisters? || r.ReadFile? || r.WriteFile? then Counted(Rtu, a, 0) else 4
  }

  /** The head of the answer, the sizes the bystander relies on, and how far it reads. */
  lemma AnswerHeard(n: Nmbs, s: Server, done: seq<Call>, unit: byte, r: Request, behind: Bytes)
    requires Acceptable(r) && n.transport.Rtu?
    ensures var answer := Answered(Rtu, s, done, 0, unit, r);
            var a := answer + behind;
            var code := Outcome(s, done, unit, r).1;
            && ResponseHead(Rtu, n.readFails, unit, Function(r), 0, a) == code
            && (r.ReadRegisters? ==> n.ResponseFits(a, unit, Function(r), 0, 2, 127))
            && n.ResponseUsed(a, unit, Function(r), 0, Expected(r, a)) ==
                 (if !Mistaken(s, done, unit, r) then |answer| else if |a| < 8 then |a| else 8)
            && (Mistaken(s, done, unit, r) ==> |answer| == 5 + 2 * r.quantity)
  {
    hide HeaderStatus, BodyStatus, Packet, Outcome, Answered, ResponseHead, GoodReply, TidOf, UnitOf, FcOf;
    AnswerIsPacket(Rtu, s, done, 0, unit, r);
    var a := Answered(Rtu, s, done, 0, unit, r) + behind;
    var code := Outcome(s, done, unit, r).1;
    if code != 0 {
      PacketReceived(Rtu, n.readFails, 0, unit, Function(r) + 0x80, 1, [code], a);
      ExceptionHead(Rtu, n.readFails, 0, unit, Function(r), code, a);
    } else {
      var d := GoodReply(s, done, unit, r);
      var length := if r.ReadFile? then |d| - 1 else |d|;
      GoodHead(Rtu, n.readFails, 0, unit, Function(r), length, d, a);
      PacketReceived(Rtu, n.readFails, 0, unit, Function(r), length, d, a);
      ReplyCounts(s, done, unit, r);
      assert a[2 + 0] == d[0];
    }
  }

  /** What is heard of the answer is judged as its client would judge it. */
  lemma JudgedAlike(n: Nmbs, unit: byte, r: Request, m: Bytes)
    requires Acceptable(r) && n.transport.Rtu? && !r.ReadWrite?
    requires Whole(Rtu, m) && n.OverheardFits(m) && UnitOf(Rtu, m) == unit && FcOf(Rtu, m) == Function(r)
    requires BodyStatus(Rtu, n.readFails, m, RequestSize(Rtu, FcOf(Rtu, m), m)) == NONE
    requires |m| >= 2 + |Body(r)| && forall i :: 0 <= i < |Body(r)| ==> m[2 + i] == Body(r)[i]
    requires WellSized(Rtu, n.readFails, Function(r), unit, 0, n.After(m))
    ensures var status := ClientStatus(Rtu, n.readFails, r, unit, 0, n.After(m));
            n.Overheard(m) == status || (status < 0 && (r.ReadFile? || r.WriteFile?))
  {
    hide HeaderStatus, BodyStatus, Whole, Body, Word16, ResponseHead, ReadFileSized, WriteFileSized, PartAt;
    hide RegistersOf, UnitOf, FcOf, Nmbs.OverheardFits, Nmbs.After;
    BodyCounts(r);
    WordsHeard(r, m);
  }

  lemma ExceptionAlike(n: Nmbs, m: Bytes)
    requires n.transport.Rtu? && Whole(Rtu, m) && n.OverheardFits(m)
    requires BodyStatus(Rtu, n.readFails, m, RequestSize(Rtu, FcOf(Rtu, m), m)) == NONE
    ensures var head := ResponseHead(Rtu, n.readFails, UnitOf(Rtu, m), FcOf(Rtu, m), 0, n.After(m));
            head != NONE ==> n.Overheard(m) == head
  {
    hide BodyStatus, ResponseHead, Nmbs.OverheardFits, Nmbs.After;
  }

  /** Reading eight bytes of an answer of `5 + 2 * q` leaves the line elsewhere than reading all of it. */
  lemma LeftOver(answer: Bytes, behind: Bytes, q: nat, used: nat)
    requires var all := |answer + behind|;
             if q == 0 then used == |answer| else |answer| == 5 + 2 * q && used == if all < 8 then all else 8
    ensures used <= |answer + behind|
    ensures (answer + behind)[used..] == behind <==> q == 0 || (q == 1 && behind == [])
  {
    var a := answer + behind;
    assert a[|answer|..] == behind;
    assert |a[used..]| == |a| - used;
  }

  /**
   A server that polls while another one is spoken to makes no call and sends nothing. It reads the request and the
   answer and leaves the line where the conversation ends, and its handler returns the exception the other server sent,
   if it did. The one answer it gets wrong is that of a combined write and read, which it takes for an echo of four
   bytes.
   */
  lemma PollOverhears(n: Nmbs, s: Server, done: seq<Call>, tid: u16, unit: byte, r: Request, behind: Bytes,
                      handled: int, calls: seq<Call>, line: Bytes)
    requires Acceptable(r) && n.transport.Rtu? && unit !in {0, n.addressRtu}
    ensures var m := Conversation(s, done, tid, unit, r, behind);
            && n.Pollable(m) && HeaderStatus(Rtu, n.readFails, m) == NONE && Known(FcOf(Rtu, m))
            && n.ForOther(m) && !n.Broadcast(m)
            && (n.Answers(m, handled, true, false, calls, line) ==> n.calls == calls && n.outgoing == line)
            && (n.Answers(m, handled, true, false, calls, line) && !Mistaken(s, done, unit, r) ==>
                  handled == Outcome(s, done, unit, r).1)
            && (n.Leaves(m, true) ==>
                  (n.incoming == behind <==>
                     !Mistaken(s, done, unit, r) || (r.quantity == 1 && behind == [])))
  {
    hide HeaderStatus, BodyStatus, Packet, Outcome, Answered, ResponseHead, Body, RequestSize, UnitOf, FcOf, Nmbs.After;
    hide Nmbs.RequestFits, Nmbs.Overheard, WellSized, ClientStatus, Whole, Nmbs.ResponseUsed;
    var m := Conversation(s, done, tid, unit, r, behind);
    RequestHeard(n, s, done, tid, unit, r, behind);
    SameOnSerialLine(Rtu, s, done, tid, 0, unit, r);
    var answer := Answered(Rtu, s, done, 0, unit, r);
    var a := answer + behind;
    ClientEnd(Rtu, s, done, 0, unit, r, n.readFails, a);
    AnswerHeard(n, s, done, unit, r, behind);
    n.WholeRequest(m);
    if r.ReadWrite? {
      ExceptionAlike(n, m);
    } else {
      JudgedAlike(n, unit, r, m);
    }
    var used := n.ResponseUsed(a, unit, Function(r), 0, Expected(r, a));
    assert n.Leaves(m, true) ==> n.incoming == a[used..];
    LeftOver(answer, behind, if Mistaken(s, done, unit, r) then r.quantity else 0, used);
  }

  /** The poll itself. */
  method Overhear(n: Nmbs, ghost s: Server, ghost done: seq<Call>, ghost tid: u16, ghost unit: byte, ghost r: Request,
                  ghost behind: Bytes)
    returns (err: int)
    requires Acceptable(r) && n.Ready() && n.transport.Rtu? && unit !in {0, n.addressRtu}
    requires n.incoming == Conversation(s, done, tid, unit, r, behind)
    modifies n`incoming, n`bufIdx, n`msg, n`outgoing, n`calls, n.buf
    ensures n.calls == old(n.calls) && n.outgoing == old(n.outgoing)
    ensures !Mistaken(s, done, unit, r) ==> err == NONE && n.incoming == behind
  {
    hide Outcome, HeaderStatus, Nmbs.Leaves, Nmbs.Answers, Conversation, FcOf;
    PollOverhears(n, s, done, tid, unit, r, behind, NONE, n.calls, n.outgoing);
    OutcomeCode(s, done, unit, r);
    ghost var calls, line := n.calls, n.outgoing;
    ghost var handled;
    err, handled := n.Poll();
    PollOverhears(n, s, done, tid, unit, r, behind, handled, calls, line);
  }
}
