/**
 What nanoMODBUS makes of a silent line and of messages that end early: whatever is missing, the receiver reports a
 timeout, or the failure of the line, and neither a call is made nor a value taken.
 */
module ModbusCutOff {
  import opened Base
  import opened Crc16
  import opened ModbusWire
  import opened ModbusProtocol
  import opened ModbusEndToEnd

  /** nmbs_error: a line that fails gives -4, one that stays silent -3. */
  function Failure(fails: bool): int { if fails then -4 else -3 }

  lemma HeadCutOff(t: Transport, fails: bool, p: Bytes, m: Bytes)
    requires m <= p && |p| >= Lead(t) && HeaderStatus(t, fails, p) == NONE
    ensures HeaderStatus(t, fails, m) == if |m| < Lead(t) then Failure(fails) else NONE
    ensures |m| >= Lead(t) ==>
              UnitOf(t, m) == UnitOf(t, p) && FcOf(t, m) == FcOf(t, p) && (t.Tcp? ==> TidOf(t, m) == TidOf(t, p))
  {
    if |m| >= Lead(t) {
      assert forall i :: 0 <= i < Lead(t) ==> m[i] == p[i];
    }
  }

  /** A client's call that hears nothing, or only the first part of the answer to its request, ends with the failure. */
  lemma AnswerCutOff(t: Transport, fails: bool, s: Server, done: seq<Call>, tid: u16, unit: byte, r: Request, m: Bytes)
    requires Acceptable(r) && m < Answered(t, s, done, tid, unit, r)
    ensures WellSized(t, fails, Function(r), unit, tid, m)
    ensures ClientStatus(t, fails, r, unit, tid, m) == Failure(fails)
  {
    hide Outcome, GoodReply, Answered, Packet, HeaderStatus, BodyStatus, UnitOf, FcOf, TidOf, WellSized, ClientStatus;
    AnswerIsPacket(t, s, done, tid, unit, r);
    var p := Answered(t, s, done, tid, unit, r);
    var code := Outcome(s, done, unit, r).1;
    if code != 0 {
      PacketReceived(t, fails, tid, unit, Function(r) + 0x80, 1, [code], p);
      HeadCutOff(t, fails, p, m);
      CutOffBody(t, fails, [code], p, m);
      ExceptionJudged(t, fails, r, unit, tid, m);
    } else {
      var d := GoodReply(s, done, unit, r);
      PacketReceived(t, fails, tid, unit, Function(r), if r.ReadFile? then |d| - 1 else |d|, d, p);
      HeadCutOff(t, fails, p, m);
      ReplyCounts(s, done, unit, r);
      CutOffBody(t, fails, d, p, m);
      if r.ReadFile? {
        FileReadCutOff(t, d, p, m);
      } else if r.WriteFile? {
        EchoIsPacket(s, done, t, tid, unit, r);
        FileWriteReply(t, fails, tid, unit, r, p);
        FileWriteCutOff(t, p, m);
      }
      ReplyJudged(t, fails, r, unit, tid, m);
    }
  }

  lemma ExceptionJudged(t: Transport, fails: bool, r: Request, unit: byte, tid: u16, m: Bytes)
    requires Acceptable(r)
    requires HeaderStatus(t, fails, m) == if |m| < Lead(t) then Failure(fails) else NONE
    requires |m| >= Lead(t) ==>
               && UnitOf(t, m) == unit && FcOf(t, m) == Function(r) + 0x80 && (t.Tcp? ==> TidOf(t, m) == tid)
               && BodyStatus(t, fails, m, 1) == Failure(fails)
    ensures WellSized(t, fails, Function(r), unit, tid, m)
    ensures ClientStatus(t, fails, r, unit, tid, m) == Failure(fails)
  {
    hide HeaderStatus, BodyStatus, UnitOf, FcOf, TidOf;
  }

  lemma ReplyJudged(t: Transport, fails: bool, r: Request, unit: byte, tid: u16, m: Bytes)
    requires Acceptable(r)
    requires HeaderStatus(t, fails, m) == if |m| < Lead(t) then Failure(fails) else NONE
    requires |m| >= Lead(t) ==>
               && UnitOf(t, m) == unit && FcOf(t, m) == Function(r) && (t.Tcp? ==> TidOf(t, m) == tid)
               && BodyStatus(t, fails, m, if Counts(r) then Counted(t, m, 0) else 4) == Failure(fails)
               && (r.ReadFile? ==> ReadFileSized(t, m)) && (r.WriteFile? ==> WriteFileSized(t, m))
    ensures WellSized(t, fails, Function(r), unit, tid, m)
    ensures ClientStatus(t, fails, r, unit, tid, m) == Failure(fails)
  {
    hide HeaderStatus, BodyStatus, UnitOf, FcOf, TidOf, Counted, ReadFileSized, WriteFileSized;
  }

  /** Whether its size is fixed or counted, the data is found to be incomplete. */
  lemma CutOffBody(t: Transport, fails: bool, d: Bytes, p: Bytes, m: Bytes)
    requires m < p && |p| == Lead(t) + |d| + Tail(t) && forall i :: 0 <= i < |d| ==> p[Lead(t) + i] == d[i]
    ensures |m| >= Lead(t) && |d| in {1, 4} ==> BodyStatus(t, fails, m, |d|) == Failure(fails)
    ensures |m| >= Lead(t) && |d| > 0 && d[0] == |d| - 1 ==> BodyStatus(t, fails, m, Counted(t, m, 0)) == Failure(fails)
  {
    hide Accepts;
    if |m| > Lead(t) && |d| > 0 {
      assert m[Lead(t)] == p[Lead(t) + 0] == d[0];
    }
  }

  lemma FileReadCutOff(t: Transport, d: Bytes, p: Bytes, m: Bytes)
    requires m < p && |p| == Lead(t) + |d| + Tail(t) && forall i :: 0 <= i < |d| ==> p[Lead(t) + i] == d[i]
    requires |d| >= 3 && d[0] == |d| - 1 && d[1] == |d| - 2 && |d| % 2 == 1
    ensures |m| >= Lead(t) ==> ReadFileSized(t, m)
  {
    if |m| > Lead(t) {
      assert m[Lead(t)] == p[Lead(t) + 0] == d[0];
      if |m| > Lead(t) + 1 {
        assert m[Lead(t) + 1] == p[Lead(t) + 1] == d[1];
      }
    }
  }

  lemma FileWriteCutOff(t: Transport, p: Bytes, m: Bytes)
    requires m < p && WriteFileSized(t, p)
    ensures |m| >= Lead(t) ==> WriteFileSized(t, m)
  {
    hide PartAt;
    var l := Lead(t);
    if |m| > l {
      assert m[l] == p[l];
      if |m| >= l + Counted(t, m, 0) {
        SamePart(p, m, l + 1);
      }
    }
  }

  lemma SamePart(p: Bytes, m: Bytes, at: nat)
    requires m <= p && at + PART_HEADER <= |m|
    ensures PartAt(m, at) == PartAt(p, at)
  {
    assert forall i :: at <= i < at + PART_HEADER ==> m[i] == p[i];
  }
}
