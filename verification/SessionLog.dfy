/**
 What an MQTT client session did, as a log of events, and the delivery guarantees that follow for every log the
 client can produce (sections 4.3 and 4.4 of MQTT 3.1.1). The client class keeps `LogOk` of its own log.
 */
module SessionLog {
  import opened Base
  import opened PacketIO
  import opened PublishPacket
  import opened ConnectPacket

  const MAX_INCOMING_QOS2_MESSAGES := 10

  datatype Message = Message(qos: byte, retained: byte, dup: byte, id: u16, topic: Bytes, payload: Bytes)

  /** A packet the client sends. */
  datatype Out =
    | ConnectOut(options: ConnectData)
    | PublishOut(packet: Bytes)
    | AckOut(packetType: byte, id: u16)
    | OtherOut(bytes: Bytes)

  function Wire(o: Out): Bytes {
    match o
    case ConnectOut(options) => ConnectBytes(options)
    case PublishOut(packet) => packet
    case AckOut(t, id) => AckBytes(t, 0, id)
    case OtherOut(bytes) => bytes
  }

  datatype Event =
    | Got(packet: Bytes)                                // readPacket brought in a whole packet
    | Deliver(message: Message, called: seq<nat>)       // deliverMessage ran these handlers
    | Send(what: Out, ok: bool)                         // sendPacket, and whether it succeeded
    | Store(qos: nat, id: u16, packet: Bytes)           // publish kept the packet for a reconnect
    | Acked(got: u16, awaited: u16)                     // publish consumed an acknowledgement
    | Clean                                             // cleanSession

  type Log = seq<Event>

  // ----- What a log says about the session -----

  /** The QoS 2 ids delivered and not yet released. */
  function Held(log: Log): set<u16> {
    if log == [] then {} else HeldAfter(Held(log[..|log| - 1]), log[|log| - 1])
  }

  function HeldAfter(h: set<u16>, e: Event): set<u16> {
    match e
    case Deliver(m, _) => if m.qos == 2 then h + {m.id} else h
    case Send(AckOut(t, id), ok) => if t == PUBCOMP && ok then h - {id} else h
    case Clean => {}
    case _ => h
  }

  datatype Stored = Stored(qos: nat, id: u16, packet: Bytes)

  /** The publish stored and not yet acknowledged. */
  function Pending(log: Log): Option<Stored> {
    if log == [] then None else PendingAfter(Pending(log[..|log| - 1]), log[|log| - 1])
  }

  function PendingAfter(p: Option<Stored>, e: Event): Option<Stored> {
    match e
    case Store(qos, id, packet) => if id != 0 then Some(Stored(qos, id, packet)) else None
    case Acked(got, awaited) => if got == awaited then None else p
    case Clean => None
    case _ => p
  }

  /** Its id, or 0. */
  function PendingId(log: Log): u16 { if Pending(log).Some? then Pending(log).value.id else 0 }

  /** The packet that came in last, when nothing but other traffic has gone out since. */
  function LastIn(log: Log): Option<Bytes> {
    var n := |log|;
    if n >= 1 && log[n - 1].Got? then Some(log[n - 1].packet)
    else if n >= 2 && log[n - 1].Send? && log[n - 1].what.OtherOut? && log[n - 2].Got? then Some(log[n - 2].packet)
    else None
  }

  /** The packet that ends the exchange of a publish at this QoS. */
  function FinalAck(qos: nat): byte { if qos == 1 then PUBACK else PUBCOMP }

  predicate CarriesAck(p: Bytes, t: byte, id: u16) {
    WholePacket(p) && TypeOf(p[0]) == t && (HoldsId(p) ==> AckId(p) == id)
  }

  /**
   An acknowledgement with this id, if it is long enough to hold one, has just come in. With orderly acknowledgements it
   is the one that the pending publish waits for.
   */
  predicate AckCame(log: Log, got: u16) {
    LastIn(log).Some? &&
    var p := LastIn(log).value;
    && (CarriesAck(p, PUBACK, got) || CarriesAck(p, PUBCOMP, got))
    && (Faithful(log) && Pending(log).Some? ==> CarriesAck(p, FinalAck(Pending(log).value.qos), got))
  }

  /** Every acknowledgement consumed while one was awaited carried the awaited id, and QoS 0 went out with id 0. */
  predicate Faithful(log: Log) {
    forall k :: 0 <= k < |log| ==> FaithfulEvent(log[k])
  }

  predicate FaithfulEvent(e: Event) {
    && (e.Acked? ==> e.awaited == 0 || e.got == e.awaited)
    && (e.Store? && e.qos == 0 ==> e.id == 0)
  }

  /** The message a well-formed PUBLISH carries. */
  function MessageOf(p: Bytes): Message
    requires WholePacket(p) && ParsePublish(p).Accepted?
  {
    var v := ParsePublish(p);
    Message(v.qos, v.retained, v.dup, PublishId(p), v.topic, PublishPayload(p))
  }

  predicate WellFormedPublish(p: Bytes)
    requires WholePacket(p)
  {
    ParsePublish(p).Accepted? && ParsePublish(p).payloadLen >= 0
  }

  /** `e` is the arrival of a packet of type `t`, with id `id` if it is long enough to hold one. */
  predicate Brings(e: Event, t: byte, id: u16) {
    e.Got? && CarriesAck(e.packet, t, id)
  }

  predicate Delivers(e: Event, qos: byte, id: u16) {
    e.Deliver? && e.message.qos == qos && e.message.id == id
  }

  predicate BringsPublish(e: Event) {
    e.Got? && WholePacket(e.packet) && TypeOf(e.packet[0]) == PUBLISH
  }

  predicate Sends(e: Event, t: byte, id: u16) {
    e.Send? && e.what == AckOut(t, id)
  }

  /** What must come next: a well-formed publish is delivered or answered, a delivery and a release are answered. */
  predicate Responds(before: Event, e: Event) {
    && (BringsPublish(before) && WellFormedPublish(before.packet) ==>
          || (e.Deliver? && Same(e.message, MessageOf(before.packet)))
          || (ParsePublish(before.packet).qos == 2 && Sends(e, PUBREC, PublishId(before.packet))))
    && (before.Deliver? && before.message.qos == 1 ==> Sends(e, PUBACK, before.message.id))
    && (before.Deliver? && before.message.qos == 2 ==> Sends(e, PUBREC, before.message.id))
    && (before.Got? && WholePacket(before.packet) && HoldsId(before.packet) ==>
          && (TypeOf(before.packet[0]) == PUBREC ==> Sends(e, PUBREL, AckId(before.packet)))
          && (TypeOf(before.packet[0]) == PUBREL ==> Sends(e, PUBCOMP, AckId(before.packet))))
  }

  /** Equal messages, the id of a QoS 0 message being unset. */
  predicate Same(m: Message, parsed: Message) {
    m == parsed || (m.qos == 0 && m == parsed.(id := m.id))
  }

  /** `e` is an answer that what came last in the log allows. */
  predicate Answers(log: Log, e: Event) {
    log != [] ==> Responds(log[|log| - 1], e)
  }

  predicate AcksAnswer(log: Log, t: byte, id: u16) {
    Answers(log, Send(AckOut(t, id), true)) && Answers(log, Send(AckOut(t, id), false))
  }

  /** The event is one that only particular events may follow. */
  predicate Demands(e: Event) {
    || (BringsPublish(e) && WellFormedPublish(e.packet))
    || (e.Deliver? && e.message.qos in {1, 2})
    || (e.Got? && WholePacket(e.packet) && HoldsId(e.packet) && TypeOf(e.packet[0]) in {PUBREC, PUBREL})
  }

  /** The rules each event keeps, given what happened before it. */
  predicate StepOk(log: Log, e: Event) {
    && Answers(log, e)
    && match e
       case Deliver(m, _) =>
         && log != [] && BringsPublish(log[|log| - 1])
         && (m.qos == 2 ==> m.id != 0 && m.id !in Held(log) && |Held(log)| < MAX_INCOMING_QOS2_MESSAGES)
       case Send(AckOut(t, id), _) => log != [] && AckOk(log[|log| - 1], Held(log), t, id)
       case Store(_, _, _) => Faithful(log) ==> Pending(log).None?
       case Acked(got, awaited) => awaited == PendingId(log) && AckCame(log, got)
       case _ => true
  }

  /** Each acknowledgement answers the packet, or the delivery, that came just before it. */
  predicate AckOk(before: Event, held: set<u16>, t: byte, id: u16) {
    && (t == PUBACK ==> Delivers(before, 1, id))
    && (t == PUBREC ==> Delivers(before, 2, id)
                        || (BringsPublish(before)
                            && (id == 0 || id in held || |held| == MAX_INCOMING_QOS2_MESSAGES)))
    && (t == PUBREL ==> Brings(before, PUBREC, id))
    && (t == PUBCOMP ==> Brings(before, PUBREL, id))
  }

  /** An acknowledgement is in order now, whether or not it gets out. */
  predicate MayAck(log: Log, t: byte, id: u16) {
    StepOk(log, Send(AckOut(t, id), true)) && StepOk(log, Send(AckOut(t, id), false))
  }

  predicate Settled(log: Log) {
    log == [] || !Demands(log[|log| - 1])
  }

  predicate LogOk(log: Log) {
    log == [] || (LogOk(log[..|log| - 1]) && StepOk(log[..|log| - 1], log[|log| - 1]))
  }

  lemma Append(log: Log, e: Event)
    ensures LogOk(log + [e]) <==> LogOk(log) && StepOk(log, e)
    ensures Held(log + [e]) == HeldAfter(Held(log), e)
    ensures Pending(log + [e]) == PendingAfter(Pending(log), e)
    ensures Faithful(log + [e]) <==> Faithful(log) && FaithfulEvent(e)
  {
    assert (log + [e])[..|log|] == log;
    var log' := log + [e];
    if Faithful(log') {
      forall k | 0 <= k < |log| ensures FaithfulEvent(log[k]) { assert log'[k] == log[k]; }
      assert log'[|log|] == e;
    }
  }

  lemma {:induction false} StepAt(log: Log, k: nat)
    requires LogOk(log) && k < |log|
    ensures StepOk(log[..k], log[k])
    decreases |log|
  {
    var n := |log| - 1;
    if k < n {
      StepAt(log[..n], k);
      assert log[..n][..k] == log[..k];
    }
  }

  /** One more event of a prefix. */
  lemma PrefixStep(log: Log, k: nat)
    requires k < |log|
    ensures Held(log[..k + 1]) == HeldAfter(Held(log[..k]), log[k])
    ensures Pending(log[..k + 1]) == PendingAfter(Pending(log[..k]), log[k])
  {
    Append(log[..k], log[k]);
    assert log[..k] + [log[k]] == log[..k + 1];
  }

  // ----- QoS 2: at most once, exactly once -----

  /** The event ends the claim of `id`: it is released by a PUBCOMP, or the session is cleaned. */
  predicate Ends(e: Event, id: u16) {
    e == Clean || e == Send(AckOut(PUBCOMP, id), true)
  }

  lemma {:induction false} HeldStays(log: Log, i: nat, j: nat, id: u16)
    requires i <= j <= |log| && id in Held(log[..i])
    requires forall k :: i <= k < j ==> !Ends(log[k], id)
    ensures id in Held(log[..j])
    decreases j
  {
    if i < j {
      HeldStays(log, i, j - 1, id);
      PrefixStep(log, j - 1);
      assert !Ends(log[j - 1], id);
    }
  }

  /**
   At most once: between two deliveries of QoS 2 messages with the same id the client has answered a PUBREL, which
   carried that id if it carried any, with a PUBCOMP for it, or the session was cleaned.
   */
  lemma AtMostOnce(log: Log, i: nat, j: nat, id: u16)
    requires LogOk(log) && i < j < |log|
    requires Delivers(log[i], 2, id) && Delivers(log[j], 2, id)
    ensures id != 0
    ensures exists k :: i < k < j && Ends(log[k], id) && (log[k] == Clean || Brings(log[k - 1], PUBREL, id))
  {
    StepAt(log, i);
    StepAt(log, j);
    PrefixStep(log, i);
    if forall k :: i < k < j ==> !Ends(log[k], id) {
      HeldStays(log, i + 1, j, id);
      assert false;
    }
    var k :| i < k < j && Ends(log[k], id);
    StepAt(log, k);
    assert log[..k][k - 1] == log[k - 1];
  }

  /** How often a QoS 2 message with this id is delivered in `log[i..j]`. */
  function Deliveries(log: Log, i: nat, j: nat, id: u16): nat
    requires i <= j <= |log|
    decreases j
  {
    if i == j then 0 else Deliveries(log, i, j - 1, id) + if Delivers(log[j - 1], 2, id) then 1 else 0
  }

  lemma {:induction false} DeliveriesIfHeld(log: Log, i: nat, j: nat, id: u16)
    requires LogOk(log) && i <= j <= |log| && id !in Held(log[..i])
    requires forall k :: i <= k < j ==> !Ends(log[k], id)
    ensures Deliveries(log, i, j, id) == if id in Held(log[..j]) then 1 else 0
    decreases j
  {
    if i < j {
      DeliveriesIfHeld(log, i, j - 1, id);
      PrefixStep(log, j - 1);
      StepAt(log, j - 1);
      assert !Ends(log[j - 1], id);
    }
  }

  /** The step from the client's answer: an id for which a PUBREC was offered with room in the table is claimed. */
  lemma AnsweredIsClaimed(log: Log, p: nat, id: u16, ok: bool)
    requires LogOk(log) && p < |log| && id != 0
    requires log[p] == Send(AckOut(PUBREC, id), ok)
    requires |Held(log[..p]) + {id}| <= MAX_INCOMING_QOS2_MESSAGES
    ensures id in Held(log[..p])
  {
    StepAt(log, p);
  }

  /** A well-formed QoS 2 PUBLISH with this id has come in. */
  predicate Arrives(e: Event, id: u16) {
    && BringsPublish(e) && WellFormedPublish(e.packet)
    && ParsePublish(e.packet).qos == 2 && PublishId(e.packet) == id
  }

  /** After a QoS 2 PUBLISH that finds room in the table its id is claimed as soon as it has been handled. */
  lemma ArrivalClaims(log: Log, g: nat, id: u16)
    requires LogOk(log) && g + 1 < |log| && id != 0 && Arrives(log[g], id)
    requires |Held(log[..g]) + {id}| <= MAX_INCOMING_QOS2_MESSAGES
    ensures id in Held(log[..g + 2])
  {
    hide ParsePublish, PublishId, PublishPayload;
    StepAt(log, g + 1);
    PrefixStep(log, g);
    PrefixStep(log, g + 1);
    assert log[..g + 1][g] == log[g];
    if !log[g + 1].Deliver? {
      AnsweredIsClaimed(log, g + 1, id, log[g + 1].ok);
    }
  }

  /** The message of the well-formed QoS 2 PUBLISH that came in just before is delivered. */
  predicate DeliversArrival(log: Log, p: nat, id: u16)
    requires 0 < p < |log|
  {
    && Delivers(log[p], 2, id) && Arrives(log[p - 1], id)
    && log[p].message == MessageOf(log[p - 1].packet)
  }

  lemma {:induction false} ClaimedBy(log: Log, i: nat, n: nat, id: u16)
    requires LogOk(log) && i <= n <= |log| && id !in Held(log[..i]) && id in Held(log[..n])
    ensures exists p :: i <= p < n && Delivers(log[p], 2, id)
    decreases n
  {
    PrefixStep(log, n - 1);
    if id in Held(log[..n - 1]) {
      ClaimedBy(log, i, n - 1, id);
    } else {
      assert Delivers(log[n - 1], 2, id);
    }
  }

  /** A delivery delivers what came in just before, unless that was a packet that is too short for its fields. */
  lemma DeliveredIsArrived(log: Log, p: nat, id: u16)
    requires LogOk(log) && p < |log| && Delivers(log[p], 2, id)
    ensures p > 0 && BringsPublish(log[p - 1])
    ensures WellFormedPublish(log[p - 1].packet) <==> DeliversArrival(log, p, id)
  {
    hide ParsePublish, PublishPayload;
    StepAt(log, p);
    assert log[..p][p - 1] == log[p - 1];
  }

  /**
   Exactly once: from a point where `id` is free, and until it is released or the session is cleaned, when a QoS 2
   PUBLISH with this id comes in while it and the outstanding ids fit the table, exactly one message is delivered under
   the id, at once or before, however often the PUBLISH is repeated and whether or not the answers to it get out. It is
   the message of the PUBLISH that came in just before it if and only if that one was well-formed.
   */
  lemma ExactlyOnce(log: Log, i: nat, j: nat, g: nat, id: u16)
    requires LogOk(log) && i <= g < j <= |log|
    requires id != 0 && id !in Held(log[..i])
    requires forall k :: i <= k < j ==> !Ends(log[k], id)
    requires Arrives(log[g], id) && Settled(log[..j])
    requires |Held(log[..g]) + {id}| <= MAX_INCOMING_QOS2_MESSAGES
    ensures Deliveries(log, i, j, id) == 1
    ensures exists p :: i <= p <= g + 1 < j && Delivers(log[p], 2, id) && p > 0 && BringsPublish(log[p - 1])
                        && (WellFormedPublish(log[p - 1].packet) <==> DeliversArrival(log, p, id))
  {
    hide ParsePublish, PublishId, PublishPayload;
    assert g + 1 < j by {
      assert log[..j][j - 1] == log[j - 1];
    }
    ArrivalClaims(log, g, id);
    HeldStays(log, g + 2, j, id);
    DeliveriesIfHeld(log, i, j, id);
    ClaimedBy(log, i, g + 2, id);
    var p :| i <= p < g + 2 && Delivers(log[p], 2, id);
    DeliveredIsArrived(log, p, id);
  }

  /** Two PUBLISH packets for the same message, up to the DUP flag and the retained bit. */
  predicate SameContent(a: Message, b: Message) {
    a.qos == b.qos && a.id == b.id && a.topic == b.topic && a.payload == b.payload
  }

  /**
   With well-formed packets, and when every QoS 2 PUBLISH that comes in under the id repeats the one at `g`, it is that
   message which is delivered, and nothing else under the id.
   */
  lemma RepeatsDeliveredOnce(log: Log, i: nat, j: nat, g: nat, id: u16)
    requires LogOk(log) && i <= g < j <= |log|
    requires id != 0 && id !in Held(log[..i])
    requires forall k :: i <= k < j ==> !Ends(log[k], id)
    requires Arrives(log[g], id) && Settled(log[..j])
    requires |Held(log[..g]) + {id}| <= MAX_INCOMING_QOS2_MESSAGES
    requires forall k :: i - 1 <= k <= g && 0 <= k && BringsPublish(log[k]) ==> WellFormedPublish(log[k].packet)
    requires forall k :: i - 1 <= k <= g && 0 <= k && Arrives(log[k], id) ==>
               SameContent(MessageOf(log[k].packet), MessageOf(log[g].packet))
    ensures Deliveries(log, i, j, id) == 1
    ensures exists p :: i <= p < j && Delivers(log[p], 2, id)
                        && SameContent(log[p].message, MessageOf(log[g].packet))
  {
    hide ParsePublish, PublishId, PublishPayload, MessageOf;
    ExactlyOnce(log, i, j, g, id);
    var p :| i <= p <= g + 1 < j && Delivers(log[p], 2, id) && p > 0 && BringsPublish(log[p - 1])
             && (WellFormedPublish(log[p - 1].packet) <==> DeliversArrival(log, p, id));
    assert Arrives(log[p - 1], id);
  }

  /** A QoS 2 PUBLISH cut off before its id, what the client makes of it, and the whole one with the id it took. */
  function CutOffLog(cut: Bytes, whole: Bytes): Log {
    [Got(cut), Deliver(Message(2, 0, 0, 5, [97], []), []), Send(AckOut(PUBREC, 5), true)]
    + [Got(whole), Send(AckOut(PUBREC, 5), true)]
  }

  /** An id is claimed without its message, and the message, which has one byte of payload, is never delivered. */
  lemma CutOffClaims()
    ensures var whole: Bytes := [52, 6, 0, 1, 97, 0, 5, 120];
            var log := CutOffLog([52, 3, 0, 1, 97], whole);
            && LogOk(log) && Settled(log) && 5 !in Held(log[..0])
            && Arrives(log[3], 5) && |Held(log[..3]) + {5}| <= MAX_INCOMING_QOS2_MESSAGES
            && MessageOf(whole) == Message(2, 0, 0, 5, [97], [120])
            && forall p :: 0 <= p < |log| && log[p].Deliver? ==> log[p].message.payload == []
  {
    hide ParsePublish, PublishId, PublishPayload, MessageOf, WholePacket, TypeOf, WellFormedPublish;
    hide LogOk, Settled, Held;
    var cut: Bytes, whole: Bytes := [52, 3, 0, 1, 97], [52, 6, 0, 1, 97, 0, 5, 120];
    CutOff();
    Whole();
    var first := [Got(cut), Deliver(Message(2, 0, 0, 5, [97], []), []), Send(AckOut(PUBREC, 5), true)];
    NothingHeld();
    Claimed([], cut, Message(2, 0, 0, 5, [97], []), []);
    assert [] + first == first;
    Dropped(first, whole, 5);
    assert CutOffLog(cut, whole)[..3] == first && CutOffLog(cut, whole)[..0] == [];
  }

  lemma NothingHeld()
    ensures Held([]) == {} && LogOk([]) && Settled([])
  {
  }

  /** A packet that is too short for its fields may claim any id. */
  lemma Claimed(log: Log, p: Bytes, m: Message, called: seq<nat>)
    requires LogOk(log) && Settled(log) && m.id !in Held(log) && |Held(log)| < MAX_INCOMING_QOS2_MESSAGES
    requires WholePacket(p) && TypeOf(p[0]) == PUBLISH && !WellFormedPublish(p) && m.qos == 2 && m.id != 0
    ensures var log' := log + [Got(p), Deliver(m, called), Send(AckOut(PUBREC, m.id), true)];
            LogOk(log') && Held(log') == Held(log) + {m.id} && Settled(log')
  {
    hide ParsePublish, HoldsId, AckId, TypeOf, WholePacket, WellFormedPublish, LogOk, Held, Pending, Faithful;
    var came, delivered := log + [Got(p)], log + [Got(p)] + [Deliver(m, called)];
    Append(log, Got(p));
    Append(came, Deliver(m, called));
    Append(delivered, Send(AckOut(PUBREC, m.id), true));
    assert delivered + [Send(AckOut(PUBREC, m.id), true)]
        == log + [Got(p), Deliver(m, called), Send(AckOut(PUBREC, m.id), true)];
  }

  /** And the message that has it is dropped. */
  lemma Dropped(log: Log, p: Bytes, id: u16)
    requires LogOk(log) && Settled(log) && id in Held(log) && Arrives(Got(p), id)
    ensures var log' := log + [Got(p), Send(AckOut(PUBREC, id), true)];
            LogOk(log') && Settled(log')
  {
    hide ParsePublish, HoldsId, AckId, TypeOf, WholePacket, WellFormedPublish, PublishId;
    hide LogOk, Held, Pending, Faithful;
    var d, c := Got(p), Send(AckOut(PUBREC, id), true);
    Append(log, d);
    Append(log + [d], c);
    assert log + [d] + [c] == log + [d, c];
  }

  lemma CutOff()
    ensures var p: Bytes := [52, 3, 0, 1, 97];
            WholePacket(p) && TypeOf(p[0]) == PUBLISH && !WellFormedPublish(p)
  {
  }

  lemma Whole()
    ensures var p: Bytes := [52, 6, 0, 1, 97, 0, 5, 120];
            && WholePacket(p) && TypeOf(p[0]) == PUBLISH && WellFormedPublish(p)
            && ParsePublish(p).qos == 2 && PublishId(p) == 5
            && MessageOf(p) == Message(2, 0, 0, 5, [97], [120])
  {
  }

  /** A well-formed QoS 2 PUBLISH is delivered exactly when its id is usable and new and the table has room for it. */
  lemma AdmittedIff(log: Log, g: nat, id: u16)
    requires LogOk(log) && g + 1 < |log| && Arrives(log[g], id)
    ensures log[g + 1].Deliver? <==>
            id != 0 && id !in Held(log[..g]) && |Held(log[..g])| < MAX_INCOMING_QOS2_MESSAGES
    ensures if log[g + 1].Deliver? then log[g + 1].message == MessageOf(log[g].packet)
            else Sends(log[g + 1], PUBREC, id)
  {
    hide ParsePublish, PublishId, PublishPayload;
    StepAt(log, g + 1);
    PrefixStep(log, g);
    assert log[..g + 1][g] == log[g];
  }

  // ----- QoS 1 and 2 towards the broker: the publish in flight -----

  /** The event changes which publish is pending, if one is. */
  predicate Settles(e: Event) {
    e == Clean || (e.Acked? && e.got == e.awaited)
  }

  lemma {:induction false} PendingStays(log: Log, i: nat, j: nat, s: Stored)
    requires i <= j <= |log| && Pending(log[..i]) == Some(s)
    requires forall k :: i <= k < j ==> !log[k].Store?
    ensures Pending(log[..j]) == Some(s) || exists k :: i <= k < j && Settles(log[k]) && Pending(log[..k]) == Some(s)
    decreases j
  {
    if i < j {
      PendingStays(log, i, j - 1, s);
      PrefixStep(log, j - 1);
      if Pending(log[..j - 1]) == Some(s) && Settles(log[j - 1]) {
        assert i <= j - 1 < j;
      }
    }
  }

  /** The publish with this QoS and id is acknowledged by the event at `k`, or the session is cleaned there. */
  predicate Acknowledges(log: Log, k: nat, qos: nat, id: u16)
    requires k < |log|
  {
    || log[k] == Clean
    || (&& log[k] == Acked(id, id) && LastIn(log[..k]).Some?
        && CarriesAck(LastIn(log[..k]).value, FinalAck(qos), id))
  }

  /**
   No publish takes the place of an unacknowledged one: before the next is stored, the acknowledgement that ends the
   exchange of this one, with its id, has come in and been consumed, or the session has been cleaned.
   */
  lemma {:induction false} NoOverwrite(log: Log, i: nat, j: nat)
    requires LogOk(log) && Faithful(log) && i < j < |log|
    requires log[i].Store? && log[i].id != 0 && log[j].Store?
    ensures exists k :: i < k < j && Acknowledges(log, k, log[i].qos, log[i].id)
    decreases j
  {
    hide CarriesAck, LastIn;
    PrefixStep(log, i);
    StepAt(log, j);
    assert Faithful(log[..j]);
    if m :| i < m < j && log[m].Store? {
      NoOverwrite(log, i, m);
    } else {
      var s := Stored(log[i].qos, log[i].id, log[i].packet);
      PendingStays(log, i + 1, j, s);
      var k :| i < k < j && Settles(log[k]) && Pending(log[..k]) == Some(s);
      StepAt(log, k);
      assert Faithful(log[..k]);
      assert Acknowledges(log, k, s.qos, s.id);
    }
  }

  /**
   One acknowledgement with another id, which the client takes for success, and the next publish takes the place of one
   that nobody has acknowledged.
   */
  lemma StrayAckOverwrites(p: Bytes, q: Bytes)
    ensures var log := [Store(1, 1, p), Got([64, 2, 0, 2]), Acked(2, 1), Store(1, 2, q)];
            && LogOk(log) && !Faithful(log)
            && Pending(log[..3]) == Some(Stored(1, 1, p)) && Pending(log) == Some(Stored(1, 2, q))
  {
    var a, b, c, d := Store(1, 1, p), Got([64, 2, 0, 2]), Acked(2, 1), Store(1, 2, q);
    PubackTwo();
    hide ParsePublish, WholePacket, TypeOf, HoldsId, AckId;
    Append([], a);
    Append([a], b);
    Append([a, b], c);
    Append([a, b, c], d);
    assert [] + [a] == [a] && [a] + [b] == [a, b] && [a, b] + [c] == [a, b, c] && [a, b, c] + [d] == [a, b, c, d];
    assert [a, b, c, d][..3] == [a, b, c];
  }

  lemma PubackTwo()
    ensures CarriesAck([64, 2, 0, 2], PUBACK, 2)
  {
  }

  /** Each connect that got its CONNECT out while a publish was pending has offered that publish again. */
  predicate Offered(log: Log) {
    forall k :: 0 <= k < |log| && IsConnect(log[k]) && Pending(log[..k]).Some? ==>
      Resends(log, k, Pending(log[..k]).value.packet)
  }

  predicate IsConnect(e: Event) {
    e.Send? && e.what.ConnectOut? && e.ok
  }

  /** The packet is offered at `m`, and no other connect lies between. */
  predicate OfferAfter(log: Log, k: nat, m: nat, packet: Bytes)
    requires k < m < |log|
  {
    && log[m].Send? && log[m].what == PublishOut(packet)
    && forall c :: k < c < m ==> !IsConnect(log[c])
  }

  predicate Resends(log: Log, k: nat, packet: Bytes) {
    exists m :: k < m < |log| && OfferAfter(log, k, m, packet)
  }

  /**
   Redelivery: once a publish is stored, every later connect that gets its CONNECT packet out before the publish is
   acknowledged offers exactly the stored bytes again, before any other connect does.
   */
  lemma Redelivery(log: Log, i: nat, k: nat)
    requires Offered(log) && i < k < |log|
    requires log[i].Store? && log[i].id != 0
    requires forall m :: i < m < k ==> !Settles(log[m]) && !log[m].Store?
    requires IsConnect(log[k])
    ensures Resends(log, k, log[i].packet)
  {
    PrefixStep(log, i);
    PendingStays(log, i + 1, k, Stored(log[i].qos, log[i].id, log[i].packet));
  }

  // ----- Packets that did not get out -----

  /** Since `a` a packet was not sent. */
  predicate SendFailed(a: Log, b: Log) {
    exists k :: |a| <= k < |b| && b[k].Send? && !b[k].ok
  }

  // ----- How a stretch of events may change what the log says -----

  /** Traffic other than connecting and publishing. */
  predicate CalmEvent(e: Event) {
    e.Got? || e.Deliver? || (e.Send? && !e.what.ConnectOut? && !e.what.PublishOut?)
  }

  /** `b` goes on from `a` with such traffic, and the session may have been cleaned. */
  predicate Background(a: Log, b: Log) {
    a <= b && forall k :: |a| <= k < |b| ==> CalmEvent(b[k]) || b[k] == Clean
  }

  predicate Calm(a: Log, b: Log) {
    a <= b && forall k :: |a| <= k < |b| ==> CalmEvent(b[k])
  }

  lemma CalmReflexive(a: Log)
    ensures Calm(a, a) && Background(a, a)
  {
  }

  lemma BackgroundTransitive(a: Log, b: Log, c: Log)
    requires Background(a, b) && Background(b, c)
    ensures Background(a, c)
    ensures Calm(a, b) && Calm(b, c) ==> Calm(a, c)
    ensures |a| <= |b| <= |c| && (|a| < |b| ==> c[|a|] == b[|a|])
    ensures SendFailed(a, b) ==> SendFailed(a, c)
  {
    forall k | |a| <= k < |c|
      ensures CalmEvent(c[k]) || c[k] == Clean
      ensures Calm(a, b) && Calm(b, c) ==> CalmEvent(c[k])
    {
      if k < |b| {
        assert c[k] == b[k];
      }
    }
  }

  lemma CalmChain(a: Log, b: Log, c: Log, d: Log)
    requires Calm(a, b) && Calm(b, c) && Calm(c, d)
    ensures Calm(a, d) && Background(a, d) && |a| <= |b| <= |d|
    ensures |a| < |b| ==> d[|a|] == b[|a|]
    ensures SendFailed(b, c) || SendFailed(c, d) ==> SendFailed(a, d)
  {
    BackgroundTransitive(a, b, c);
    BackgroundTransitive(a, c, d);
    assert forall k :: 0 <= k < |c| ==> d[k] == c[k];
  }

  lemma {:induction false} BackgroundKeeps(a: Log, b: Log)
    requires Background(a, b)
    ensures Pending(b) == Pending(a) || Pending(b) == None
    ensures Calm(a, b) ==> Pending(b) == Pending(a)
    ensures Faithful(b) <==> Faithful(a)
    decreases |b|
  {
    if |a| == |b| {
      assert a == b;
    } else {
      var n := |b| - 1;
      var b', e := b[..n], b[n];
      assert Background(a, b') by {
        forall k | |a| <= k < |b'| ensures CalmEvent(b'[k]) || b'[k] == Clean { assert b'[k] == b[k]; }
      }
      assert Calm(a, b) ==> Calm(a, b');
      BackgroundKeeps(a, b');
      assert b == b' + [e];
      Append(b', e);
    }
  }

  /** `b` goes on from `a` without a connect or a newly stored publish. */
  predicate Plain(a: Log, b: Log) {
    a <= b && forall k :: |a| <= k < |b| ==> !b[k].Store? && !IsConnect(b[k])
  }

  lemma PlainReflexive(a: Log)
    ensures Plain(a, a)
  {
  }

  lemma PlainChain(a: Log, b: Log, c: Log)
    requires Plain(a, b) && Plain(b, c)
    ensures Plain(a, c)
    ensures forall k :: 0 <= k < |b| ==> c[k] == b[k]
  {
    forall k | |a| <= k < |c| ensures !c[k].Store? && !IsConnect(c[k]) {
      if k < |b| {
        assert c[k] == b[k];
      }
    }
  }

  lemma BackgroundPlain(a: Log, b: Log)
    requires Background(a, b)
    ensures Plain(a, b)
  {
    forall k | |a| <= k < |b| ensures !b[k].Store? && !IsConnect(b[k]) {
      assert CalmEvent(b[k]) || b[k] == Clean;
    }
  }

  lemma BackgroundOffered(a: Log, b: Log)
    requires Background(a, b)
    ensures forall k :: |a| <= k < |b| ==> !IsConnect(b[k])
    ensures Offered(a) ==> Offered(b)
  {
    forall k | |a| <= k < |b| ensures !IsConnect(b[k]) {
      assert CalmEvent(b[k]) || b[k] == Clean;
    }
    if Offered(a) {
      OfferedGoesOn(a, b);
    }
  }

  lemma PlainKeeps(a: Log, b: Log)
    requires Plain(a, b)
    ensures a <= b
    ensures Faithful(b) ==> Faithful(a)
    ensures Offered(a) ==> Offered(b)
  {
    if Faithful(b) {
      forall k | 0 <= k < |a| ensures FaithfulEvent(a[k]) { assert b[k] == a[k]; }
    }
    if Offered(a) {
      OfferedGoesOn(a, b);
    }
  }

  lemma CalmIsBackground(a: Log, b: Log)
    requires Calm(a, b)
    ensures Background(a, b)
  {
  }

  lemma CalmKeeps(a: Log, b: Log)
    requires Calm(a, b)
    ensures Pending(b) == Pending(a) && (Faithful(b) <==> Faithful(a)) && Plain(a, b)
  {
    CalmIsBackground(a, b);
    BackgroundKeeps(a, b);
    BackgroundPlain(a, b);
  }

  lemma BackgroundRest(a: Log, b: Log)
    requires Background(a, b)
    ensures (Faithful(b) <==> Faithful(a)) && (Offered(a) ==> Offered(b))
  {
    BackgroundKeeps(a, b);
    BackgroundOffered(a, b);
  }

  /** A connect that got its CONNECT out, waited, and then offered what was pending. */
  lemma ConnectDone(a: Log, b: Log, c: Log, d: Log)
    requires Offered(a) && |b| == |a| + 1 && a <= b && IsConnect(b[|a|])
    requires Plain(b, c) && Plain(c, d) && Pending(c) == Pending(a)
    requires Pending(a).Some? ==> |c| < |d| && d[|c|].Send? && d[|c|].what == PublishOut(Pending(a).value.packet)
    ensures Offered(d) && a <= d && |a| < |d| && d[|a|] == b[|a|]
    ensures Faithful(d) ==> Faithful(a)
    ensures Pending(a).Some? ==> Resends(d, |a|, Pending(a).value.packet)
  {
    PlainChain(b, c, d);
    assert forall k :: 0 <= k < |b| ==> d[k] == b[k];
    PlainKeeps(b, d);
    if Pending(a).Some? {
      assert OfferAfter(d, |a|, |c|, Pending(a).value.packet);
    }
    OfferedByResend(a, d, |a|);
    if Faithful(d) {
      forall k | 0 <= k < |a| ensures FaithfulEvent(a[k]) { assert d[k] == a[k]; }
    }
  }

  lemma ConnectFailed(a: Log, b: Log)
    requires Offered(a)
    requires b == a || (|b| == |a| + 1 && a <= b && !IsConnect(b[|a|]))
    ensures Offered(b) && a <= b
  {
    if b != a {
      OfferedGoesOn(a, b);
    }
  }

  lemma StoreKeeps(a: Log, e: Event)
    requires e.Store?
    ensures Offered(a) ==> Offered(a + [e])
    ensures Faithful(a + [e]) ==> Faithful(a)
  {
    Append(a, e);
    if Offered(a) {
      OfferedGoesOn(a, a + [e]);
    }
  }

  lemma StillResends(a: Log, b: Log, k: nat, packet: Bytes)
    requires a <= b && Resends(a, k, packet)
    ensures Resends(b, k, packet)
  {
    var m :| k < m < |a| && OfferAfter(a, k, m, packet);
    assert forall c :: k < c <= m ==> b[c] == a[c];
    assert OfferAfter(b, k, m, packet);
  }

  /** Nothing but a connect can leave an offer open. */
  lemma OfferedGoesOn(a: Log, b: Log)
    requires Offered(a) && a <= b
    requires forall k :: |a| <= k < |b| ==> !IsConnect(b[k])
    ensures Offered(b)
  {
    forall k | 0 <= k < |b| && IsConnect(b[k]) && Pending(b[..k]).Some?
      ensures Resends(b, k, Pending(b[..k]).value.packet)
    {
      assert k < |a| && a[k] == b[k] && a[..k] == b[..k];
      StillResends(a, b, k, Pending(a[..k]).value.packet);
    }
  }

  lemma OfferedByResend(a: Log, b: Log, k: nat)
    requires Offered(a) && a <= b && k == |a| < |b|
    requires forall m :: |a| < m < |b| ==> !IsConnect(b[m])
    requires Pending(a).Some? ==> Resends(b, k, Pending(a).value.packet)
    ensures Offered(b)
  {
    assert b[..k] == a;
    forall m | 0 <= m < |b| && IsConnect(b[m]) && Pending(b[..m]).Some?
      ensures Resends(b, m, Pending(b[..m]).value.packet)
    {
      if m < |a| {
        assert a[m] == b[m] && a[..m] == b[..m];
        StillResends(a, b, m, Pending(a[..m]).value.packet);
      }
    }
  }
}
