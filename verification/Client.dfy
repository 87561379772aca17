/**
 The MQTT client (MQTTClient.h), built with MQTTCLIENT_QOS1 and MQTTCLIENT_QOS2. Sending, receiving and the user's
 callbacks are logged in a ghost field; what the log says about delivery is proved in SessionLog.
 */
module ClientModel {
  import opened Base
  import opened RemainingLength
  import opened PacketIO
  import opened PublishPacket
  import opened SubscribePacket
  import opened ConnectPacket
  import opened PacketReader
  import opened IPStackModel
  import opened Qos2Table
  import opened SessionLog
  import T = TopicMatch
  import H = HandlerTable

  const BUFFER_OVERFLOW := -2
  const FAILURE := -1
  const SUCCESS := 0

  /** What readPacket may come back with that `cycle` has a case for; 0 stands for nothing. */
  predicate HasCase(t: int) {
    t in {0, CONNACK as int, PUBLISH, PUBACK, PUBREC, PUBREL, PUBCOMP, SUBACK, UNSUBACK, PINGRESP}
  }

  type QoS = q: int | 0 <= q <= 2

  /** An abstract clock: it expires after finitely many looks at it. */
  class Timer {
    var ticks: nat
    ghost var over: bool    // it has been seen to be expired
    ghost var looks: nat    // how often it has been seen not to be

    constructor (n: nat)
      ensures !over && looks == 0
    {
      ticks, over, looks := n, false, 0;
    }

    method Expired() returns (r: bool)
      modifies this
      ensures ticks <= old(ticks)
      ensures !r ==> ticks < old(ticks)
      ensures over == (old(over) || r) && looks == old(looks) + if r then 0 else 1
    {
      var now: bool := *;
      r := now || ticks == 0;
      over, looks := over || r, looks + if r then 0 else 1;
      if ticks > 0 {
        ticks := ticks - 1;
      }
    }
  }

  /** The timers of the keep-alive: whether they have run out is nothing the client decides. */
  class Clock {
    var sentOver: bool        // last_sent
    var receivedOver: bool    // last_received
    var pingOver: bool        // ping_sent

    constructor () {
    }

    /** Time goes by. */
    method Tick()
      modifies this
    {
      sentOver, receivedOver, pingOver := *, *, *;
    }
  }

  class Client {
    const size: nat       // MAX_MQTT_PACKET_SIZE
    const slots: nat      // MAX_MESSAGE_HANDLERS
    const net: IPStack
    const clock: Clock
    const sendbuf: array<byte>
    const readbuf: array<byte>
    const pubbuf: array<byte>
    var keepAliveInterval: nat
    var pingOutstanding: bool
    var cleansession: bool
    var nextId: u16
    var handlers: H.Table
    var defaultHandler: Option<nat>
    var isconnected: bool
    var inflightLen: nat
    var inflightMsgid: u16
    var inflightQoS: QoS
    var pubrel: bool
    var incoming: seq<u16>
    ghost var log: Log
    ghost var cycles: nat     // calls of `cycle`, and how many of them met trouble
    ghost var troubles: nat

    // ----- What holds between steps -----

    /** Buffers have their sizes and do not overlap. */
    ghost predicate Separate() {
      && 5 <= size <= MAX_PACKET && sendbuf.Length == readbuf.Length == pubbuf.Length == size
      && sendbuf != readbuf && sendbuf != pubbuf && readbuf != pubbuf
      && net.buffer != sendbuf && net.buffer != readbuf && net.buffer != pubbuf
    }

    /** The id table holds, without repetition, exactly the ids the log says are outstanding. */
    ghost predicate TableOk()
      reads this`incoming, this`log
    {
      |incoming| == MAX_INCOMING_QOS2_MESSAGES && Distinct(incoming) && Ids(incoming) == Held(log)
    }

    /** The in-flight fields describe the pending publish; after nothing but orderly calls it is not a QoS 0 one. */
    ghost predicate InflightOk()
      reads this`inflightLen, this`inflightMsgid, this`inflightQoS, this`log, pubbuf
    {
      && (inflightMsgid != 0 <==> Pending(log).Some?)
      && (Pending(log).Some? ==>
            var s := Pending(log).value;
            && (inflightMsgid, inflightQoS as nat) == (s.id, s.qos)
            && inflightLen <= pubbuf.Length && pubbuf[..inflightLen] == s.packet)
      && (Faithful(log) && inflightMsgid != 0 ==> inflightQoS != 0)
    }

    ghost predicate HandlersOk()
      reads this`handlers
    {
      |handlers| == slots && H.Valid(handlers)
    }

    ghost predicate Inv()
      reads this`handlers, this`inflightLen, this`inflightMsgid, this`inflightQoS, this`pubrel, this`incoming, this`log,
            net, net.buffer, pubbuf
    {
      Separate() && net.Valid() && Session() && Settled(log)
    }

    /** As long as every acknowledgement was the awaited one, nothing is pending while the client is connected. */
    ghost predicate AtRest()
      reads this`inflightMsgid, this`isconnected, this`log
    {
      Faithful(log) && isconnected ==> inflightMsgid == 0
    }

    /** What holds between API calls: nothing waits on a connected session, and every offer is complete. */
    ghost predicate Valid()
      reads this, net, net.buffer, pubbuf
    {
      Inv() && AtRest() && Offered(log)
    }

    constructor (network: IPStack, maxPacket: nat, maxHandlers: nat)
      requires 5 <= maxPacket <= MAX_PACKET && network.Valid()
      ensures Valid() && net == network && size == maxPacket && slots == maxHandlers
      ensures log == [Clean] && !isconnected
    {
      hide LogOk, Held, Pending, Faithful, Ids, Distinct, H.Valid, IPStack.Valid, Offered, Settled;
      size, slots, net := maxPacket, maxHandlers, network;
      sendbuf, readbuf, pubbuf := new byte[maxPacket], new byte[maxPacket], new byte[maxPacket];
      clock := new Clock();
      keepAliveInterval, inflightLen, inflightMsgid, inflightQoS := *, *, *, *;
      var unsetSlots, unsetIds := new H.Slot[maxHandlers], new u16[MAX_INCOMING_QOS2_MESSAGES];
      handlers, incoming, pubrel := unsetSlots[..], unsetIds[..], *;
      defaultHandler, nextId, cleansession := None, 0, true;
      pingOutstanding, isconnected := false, false;
      log, cycles, troubles := [], 0, 0;
      new;
      NewLog();
      CloseSession();
      assert log == [Clean];
    }

    // ----- The QoS 2 id table -----

    method IsQoS2msgidFree(id: u16) returns (r: bool)
      ensures r <==> id !in incoming
    {
      for i := 0 to |incoming|
        invariant id !in incoming[..i]
      {
        if incoming[i] == id {
          return false;
        }
        assert incoming[..i + 1] == incoming[..i] + [incoming[i]];
      }
      assert incoming[..|incoming|] == incoming;
      r := true;
    }

    method UseQoS2msgid(id: u16) returns (r: bool)
      modifies this`incoming
      ensures var i := FirstSlot(old(incoming), 0);
              && (r <==> i < |old(incoming)|)
              && incoming == if r then old(incoming)[i := id] else old(incoming)
    {
      for i := 0 to |incoming|
        invariant incoming == old(incoming)
        invariant forall k :: 0 <= k < i ==> incoming[k] != 0
      {
        if incoming[i] == 0 {
          FirstSlotIs(incoming, 0, i);
          incoming := incoming[i := id];
          return true;
        }
      }
      r := false;
    }

    method FreeQoS2msgid(id: u16)
      modifies this`incoming
      ensures var i := FirstSlot(old(incoming), id);
              incoming == if i < |old(incoming)| then old(incoming)[i := 0] else old(incoming)
    {
      for i := 0 to |incoming|
        invariant incoming == old(incoming)
        invariant forall k :: 0 <= k < i ==> incoming[k] != id
      {
        if incoming[i] == id {
          FirstSlotIs(incoming, id, i);
          incoming := incoming[i := 0];
          return;
        }
      }
    }

    // ----- Sessions -----

    method CleanSession()
      requires |incoming| == MAX_INCOMING_QOS2_MESSAGES && |handlers| == slots
      requires LogOk(log) && Settled(log)
      modifies this`handlers, this`inflightMsgid, this`inflightQoS, this`pubrel, this`incoming, this`log
      ensures TableOk() && InflightOk() && HandlersOk() && LogOk(log) && !pubrel
      ensures log == old(log) + [Clean] && inflightMsgid == 0 && H.Filters(handlers) == {}
    {
      var i := 0;
      while i < slots
        invariant i <= slots == |handlers|
        invariant forall k :: 0 <= k < i ==> handlers[k].filter.None?
        modifies this`handlers
      {
        handlers := handlers[i := handlers[i].(filter := None)];
        i := i + 1;
      }
      inflightMsgid := 0;
      inflightQoS := 0;
      pubrel := false;
      i := 0;
      while i < MAX_INCOMING_QOS2_MESSAGES
        invariant i <= MAX_INCOMING_QOS2_MESSAGES == |incoming|
        invariant forall k :: 0 <= k < i ==> incoming[k] == 0
        modifies this`incoming
      {
        incoming := incoming[i := 0];
        i := i + 1;
      }
      Append(log, Clean);
      log := log + [Clean];
      Cleared(incoming);
    }

    method CloseSession()
      requires |incoming| == MAX_INCOMING_QOS2_MESSAGES && |handlers| == slots
      requires LogOk(log) && Settled(log)
      requires !cleansession ==> TableOk() && InflightOk() && HandlersOk() && !pubrel
      modifies this`pingOutstanding, this`isconnected
      modifies this`handlers, this`inflightMsgid, this`inflightQoS, this`pubrel, this`incoming, this`log
      ensures TableOk() && InflightOk() && HandlersOk() && LogOk(log) && !pubrel
      ensures !isconnected && !pingOutstanding && log == old(log) + if cleansession then [Clean] else []
      ensures if cleansession then H.Filters(handlers) == {} else handlers == old(handlers)
      ensures inflightMsgid != 0 ==> (inflightMsgid, inflightQoS) == (old(inflightMsgid), old(inflightQoS))
      ensures !cleansession ==> inflightMsgid == old(inflightMsgid)
    {
      hide LogOk, Held, Pending, Faithful, Ids, Distinct, H.Valid, Settled;
      pingOutstanding := false;
      isconnected := false;
      if cleansession {
        CleanSession();
      }
    }

    // ----- Sending and receiving -----

    /**
     sendPacket: the bytes of `what` stand at the start of the send buffer. Success means the network took exactly
     those bytes.
     */
    method SendPacket(length: nat, timer: Timer, ghost what: Out) returns (rc: int)
      requires Separate() && length <= size && sendbuf[..length] == Wire(what)
      modifies timer, net`sent, net`failures, this`log
      ensures timer.ticks <= old(timer.ticks)
      ensures rc in {SUCCESS, FAILURE}
      ensures log == old(log) + [Send(what, rc == SUCCESS)] && (rc != SUCCESS ==> SendFailed(old(log), log))
      ensures rc == SUCCESS ==> net.sent == old(net.sent) + Wire(what)
      ensures rc != SUCCESS ==> timer.over || net.failures > old(net.failures)
    {
      hide Wire;
      rc := FAILURE;
      var sent := 0;
      while sent < length
        invariant 0 <= sent <= length
        invariant net.sent == old(net.sent) + sendbuf[..sent]
        invariant timer.ticks <= old(timer.ticks)
        invariant net.failures == old(net.failures)
        modifies timer, net`sent, net`failures
        decreases timer.ticks
      {
        rc := net.Write(sendbuf, sent, length - sent);
        if rc < 0 {
          break;
        }
        assert sendbuf[..sent + rc] == sendbuf[..sent] + sendbuf[sent..sent + rc];
        sent := sent + rc;
        var late := timer.Expired();
        if late {
          break;
        }
      }
      rc := if sent == length then SUCCESS else FAILURE;
      log := log + [Send(what, rc == SUCCESS)];
      assert log[|old(log)|] == Send(what, rc == SUCCESS);
    }

    /** As long as nothing has been dropped since, the network still holds `s` from `at` on. */
    ghost predicate InStep(lost0: nat, s: Bytes, at: nat)
      reads net, net.buffer
    {
      && net.Valid() && lost0 <= net.lost
      && (net.lost == lost0 ==> at <= |s| && net.Incoming() == s[at..])
    }

    /** One byte from the network, or none in time. */
    method ReadByte(ghost lost0: nat, ghost s: Bytes, ghost at: nat) returns (rc: nat, c: byte)
      requires InStep(lost0, s, at)
      modifies net, net.buffer
      ensures net.Valid() && old(net.lost) <= net.lost && net.sent == old(net.sent)
      ensures rc <= 1 && net.starved == old(net.starved) + if rc == 1 then 0 else 1
      ensures if rc == 1 then net.count + 1 >= old(net.count) else old(net.count) == 0
      ensures rc == 1 ==> InStep(lost0, s, at + 1) && (net.lost == lost0 ==> c == s[at])
    {
      var cell := new byte[1];
      var polls: nat := *;
      rc := net.Read(cell, 0, 1, polls);
      c := cell[0];
      if rc == 1 && net.lost == lost0 {
        assert cell[0..1] == [c];
        assert s[at..] == [c] + net.Incoming();
        assert s[at] == s[at..][0];
        assert s[at + 1..] == s[at..][1..];
      }
    }

    /**
     decodePacket. `s` is what the stream looked like before the header byte; `short` says that a read came back empty,
     which the code does not report.
     */
    method DecodePacket(ghost lost0: nat, ghost s: Bytes) returns (len: nat, value: nat, ghost short: bool)
      requires InStep(lost0, s, 1)
      modifies net, net.buffer
      ensures net.Valid() && old(net.lost) <= net.lost && net.sent == old(net.sent)
      ensures value <= MAX_REMAINING_LENGTH
      ensures net.starved == old(net.starved) + if short then 1 else 0
      ensures !short && net.lost == lost0 ==> value == FieldAt(s, 1, MAX_LENGTH_BYTES).value
      ensures !short ==> InStep(lost0, s, FieldEnd(s))
      ensures net.lost == lost0 ==>
                if short then FieldAt(s, 1, MAX_LENGTH_BYTES).complete ==> old(net.count) + 1 < FieldEnd(s)
                else net.count + FieldEnd(s) > old(net.count)
    {
      hide FieldAt, Plus, Pow128, FieldEnd, Decoding, Flatten, Ring;
      ghost var whole := Decoding(s, 1, 0, 0, 1);
      FieldIs(s);
      Pow128Values();
      var multiplier: nat := 1;
      len, value, short := 0, 0, false;
      var more := true;
      while more
        invariant len <= MAX_LENGTH_BYTES && multiplier == Pow128(len) && value < Pow128(len)
        invariant InStep(lost0, s, 1 + len) && net.sent == old(net.sent) && old(net.lost) <= net.lost
        invariant net.lost == lost0 && more ==> Decoding(s, 1 + len, len, value, multiplier) == whole
        invariant net.lost == lost0 && !more ==> whole == Field(value, len, true)
        invariant !short && net.starved == old(net.starved) && net.count + len >= old(net.count)
        decreases more, MAX_LENGTH_BYTES - len
      {
        DecodingStep(s, 1 + len, len, value, multiplier);
        len := len + 1;
        if len > MAX_LENGTH_BYTES {
          LengthBound(MAX_LENGTH_BYTES, value);
          return;
        }
        var rc, c := ReadByte(lost0, s, len);
        if rc != 1 {
          short := true;
          LengthBound(len - 1, value);
          return;
        }
        AddedDigit(value, c % 128, len - 1);
        value := Plus(value, c % 128, multiplier);
        multiplier := multiplier * 128;
        more := c >= 128;
      }
      LengthBound(len, value);
    }

    /** There is a whole packet at the start of the stream, and the first `count` bytes of the stream hold it. */
    static predicate Ready(s: Bytes, count: nat) {
      WholePacket(s) && PacketEnd(s) <= count
    }

    static lemma ReadyMeans(s: Bytes, count: nat)
      ensures Ready(s, count) ==>
                var f := FieldAt(s, 1, MAX_LENGTH_BYTES);
                f.complete && 0 < FieldEnd(s) && FieldEnd(s) + f.value <= count
    {
    }

    /** The last step of readPacket: `n` bytes of body after the header. */
    method ReadBody(len: nat, n: nat, ghost lost0: nat, ghost s: Bytes, ghost start: nat) returns (ok: bool)
      requires Separate() && net.Valid() && len + n <= size && lost0 <= net.lost
      modifies net, net.buffer, readbuf
      ensures net.Valid() && old(net.lost) <= net.lost && net.sent == old(net.sent)
      ensures readbuf[..len] == old(readbuf[..len])
      ensures net.starved == old(net.starved) + if ok then 0 else 1
      ensures !ok ==> old(net.count) < n
      ensures ok && old(InStep(lost0, s, start)) ==>
                && InStep(lost0, s, start + n)
                && (net.lost == lost0 ==> readbuf[len..len + n] == s[start..start + n])
    {
      ok := true;
      if n > 0 {
        var polls: nat := *;
        var rc := net.Read(readbuf, len, n, polls);
        ok := rc == n;
        if ok && net.lost == lost0 && old(InStep(lost0, s, start)) {
          SplitSlice(s, start, |s|, readbuf[len..len + n], net.Incoming());
        }
      }
    }

    /**
     readPacket: the packet type, or 0 if no header byte came, 1 if the body came up short, BUFFER_OVERFLOW if the
     packet is too large. `complete` and `short` record what the return code does not tell apart.
     */
    method ReadPacket() returns (rc: int, ghost complete: bool, ghost short: bool)
      requires Separate() && net.Valid()
      modifies net, net.buffer, readbuf, this`log
      ensures net.Valid() && old(net.lost) <= net.lost && net.sent == old(net.sent)
      ensures complete ==> WholePacket(readbuf[..]) && rc == TypeOf(readbuf[0])
      ensures net.starved >= old(net.starved) && (short <==> net.starved > old(net.starved))
      ensures net.lost == old(net.lost) && Ready(old(net.Incoming()), old(net.count)) ==> !short
      ensures log == old(log) + if complete then [Got(Image(readbuf[..]))] else []
      ensures !complete ==> rc in {0, 1, BUFFER_OVERFLOW} && (!short ==> rc == BUFFER_OVERFLOW)
      ensures !short && net.lost == old(net.lost) ==>
                var o := ReadOne(old(net.Incoming()), size);
                && InStep(old(net.lost), old(net.Incoming()), o.taken)
                && (if o.rc >= 0 then complete && rc == o.rc && Image(readbuf[..]) == o.image
                    else rc == BUFFER_OVERFLOW)
    {
      hide Ready, FieldAt, Encoded, Flatten, TypeOf, WholePacket, FieldEnd, Image, ReadOne, Ring, Advance, Wrap32;
      ghost var lost0, s := net.lost, net.Incoming();
      ReadyMeans(s, net.count);
      complete, short := false, false;
      var polls: nat := *;
      rc := net.Read(readbuf, 0, 1, polls);
      if rc != 1 {
        short := true;
        return;
      }
      ghost var h := readbuf[0];
      assert readbuf[..1] == [h];
      StepOver(lost0, s, h);
      var n, remLen;
      n, remLen, short := DecodePacket(lost0, s);
      var len := PutBack(remLen);
      assert readbuf[..len] == [h] + Encoded(remLen);
      ghost var cut;
      rc, complete, cut := ReadRest(len, remLen, lost0, s, h, short);
      short := short || cut;
    }

    /** The rest of readPacket, with the header back in the buffer; `lame` says that it was cut off already. */
    method ReadRest(len: nat, remLen: nat, ghost lost0: nat, ghost s: Bytes, ghost h: byte, ghost lame: bool)
      returns (rc: int, ghost complete: bool, ghost cut: bool)
      requires Separate() && net.Valid() && lost0 <= net.lost && remLen <= MAX_REMAINING_LENGTH && len <= size
      requires readbuf[..len] == [h] + Encoded(remLen)
      requires !lame && net.lost == lost0 ==>
                 && s != [] && s[0] == h && remLen == FieldAt(s, 1, MAX_LENGTH_BYTES).value
                 && InStep(lost0, s, FieldEnd(s))
      modifies net, net.buffer, readbuf, this`log
      ensures net.Valid() && old(net.lost) <= net.lost && net.sent == old(net.sent)
      ensures net.starved == old(net.starved) + if cut then 1 else 0
      ensures cut ==> old(net.count) < remLen
      ensures complete ==> WholePacket(readbuf[..]) && rc == TypeOf(readbuf[0])
      ensures log == old(log) + if complete then [Got(Image(readbuf[..]))] else []
      ensures !complete ==> rc in {0, 1, BUFFER_OVERFLOW} && (!cut ==> rc == BUFFER_OVERFLOW)
      ensures !lame && !cut && net.lost == lost0 ==>
                var o := ReadOne(s, size);
                && InStep(lost0, s, o.taken)
                && (if o.rc >= 0 then complete && rc == o.rc && Image(readbuf[..]) == o.image
                    else rc == BUFFER_OVERFLOW)
    {
      hide FieldAt, Encoded, Flatten, TypeOf, WholePacket, FieldEnd, Image, ReadOne, Ring, Advance, Wrap32;
      complete, cut := false, false;
      ghost var start := FieldEnd(s);
      if remLen > size - len {
        if !lame && net.lost == lost0 {
          TooLarge(s, size);
        }
        return BUFFER_OVERFLOW, false, false;
      }
      var ok := ReadBody(len, remLen, lost0, s, start);
      if !ok {
        return 1, false, true;
      }
      assert readbuf[..][..len] == readbuf[..len];
      ImageOf(readbuf[..], h, remLen);
      if !lame && net.lost == lost0 {
        ReadOneIs(s, size, readbuf[len..len + remLen]);
      }
      rc := TypeOf(readbuf[0]);
      complete := true;
      log := log + [Got(Image(readbuf[..]))];
    }

    /** The remaining length goes back into the buffer, in its shortest form. */
    method PutBack(remLen: nat) returns (len: nat)
      requires Separate() && remLen <= MAX_REMAINING_LENGTH
      modifies readbuf
      ensures len == 1 + |Encoded(remLen)| <= size
      ensures readbuf[..len] == [old(readbuf[0])] + Encoded(remLen)
    {
      FitsFourBytes(remLen);
      len := Encode(readbuf, 1, remLen);
      len := 1 + len;
    }

    lemma StepOver(lost0: nat, s: Bytes, h: byte)
      requires net.Valid() && lost0 <= net.lost
      requires net.lost == lost0 ==> s == [h] + net.Incoming()
      ensures InStep(lost0, s, 1)
    {
    }

    // ----- Message handlers -----

    method SetDefaultMessageHandler(h: Option<nat>)
      modifies this`defaultHandler
      ensures defaultHandler == h
    {
      defaultHandler := h;
    }

    /**
     setMessageHandler: update in place, insert while a slot is free, or remove (`h` absent). A call that fails
     leaves the map as it was.
     */
    method SetMessageHandler(f: Bytes, h: Option<nat>) returns (rc: int)
      requires HandlersOk()
      modifies this`handlers
      ensures HandlersOk()
      ensures rc == SUCCESS <==> CanHandle(old(handlers), f, h)
      ensures rc == SUCCESS ==> Handles(old(handlers), f, h, handlers)
      ensures rc != SUCCESS ==> rc == FAILURE && handlers == old(handlers)
    {
      hide H.Valid, H.Lookup;
      rc := FAILURE;
      var i := FindSlot(Some(f));
      H.Occupied(handlers, f);
      if i < slots {
        if h.None? {
          H.Remove(handlers, i, f, None);
          handlers := handlers[i := H.Slot(None, None)];
        }
        rc := SUCCESS;
      }
      if h.Some? {
        if rc == FAILURE {
          i := FindSlot(None);
          H.FreeSlot(handlers);
          if i < slots {
            rc := SUCCESS;
          }
        }
        if i < slots {
          H.Put(handlers, i, f, h.value);
          handlers := handlers[i := H.Slot(Some(f), h)];
        }
      }
    }

    /** The two search loops of setMessageHandler. */
    method FindSlot(f: Option<Bytes>) returns (i: nat)
      requires |handlers| == slots
      ensures i == H.FirstWith(handlers, f)
    {
      i := 0;
      while i < slots
        invariant i <= slots
        invariant forall k :: 0 <= k < i ==> handlers[k].filter != f
      {
        if handlers[i].filter == f {
          break;
        }
        i := i + 1;
      }
      var j := H.FirstWith(handlers, f);
      assert i == j;
    }

    /** The test deliverMessage makes of a slot: an equal topic, or one the filter matches. */
    method SlotMatches(i: nat, topic: Bytes) returns (r: bool)
      requires HandlersOk() && i < slots && handlers[i].filter.Some?
      ensures r == H.Matches(handlers[i].filter.value, topic)
    {
      r := topic == handlers[i].filter.value;
      if !r {
        r := T.IsTopicMatched(handlers[i].filter.value, topic);
      }
    }

    /** deliverMessage: runs the handlers under matching filters, or else the default one. */
    method DeliverMessage(message: Message) returns (rc: int)
      requires HandlersOk()
      modifies this`log
      ensures log == old(log) + [Deliver(message, H.Called(handlers, defaultHandler, message.topic))]
      ensures rc == SUCCESS <==> H.Called(handlers, defaultHandler, message.topic) != []
    {
      hide H.Valid, H.Matches, H.CalledFrom;
      rc := FAILURE;
      var topic := message.topic;
      var called: seq<nat> := [];
      ghost var all := H.CalledFrom(handlers, topic, 0);
      assert [] + all == all;
      var i := 0;
      while i < slots
        invariant i <= slots && called + H.CalledFrom(handlers, topic, i) == all
        invariant rc == if called == [] then FAILURE else SUCCESS
        modifies {}
      {
        H.CalledNext(handlers, topic, i, called);
        if handlers[i].filter.Some? {
          var matched := SlotMatches(i, topic);
          if matched && handlers[i].fp.Some? {
            called := called + [handlers[i].fp.value];
            rc := SUCCESS;
          }
        }
        i := i + 1;
      }
      H.CalledNone(handlers, topic);
      assert called + [] == called;
      if rc == FAILURE && defaultHandler.Some? {
        called := [defaultHandler.value];
        rc := SUCCESS;
      }
      log := log + [Deliver(message, called)];
    }

    // ----- Incoming packets -----

    /** The session part of the invariant, between steps. */
    ghost predicate Session()
      reads this`handlers, this`inflightLen, this`inflightMsgid, this`inflightQoS, this`pubrel, this`incoming, this`log,
            pubbuf
    {
      TableOk() && InflightOk() && HandlersOk() && LogOk(log) && !pubrel
    }

    /** The read buffer holds the packet the log ends with. */
    ghost predicate Holding(t: byte)
      reads readbuf, this`log
    {
      && WholePacket(readbuf[..]) && TypeOf(readbuf[0]) == t
      && log != [] && log[|log| - 1] == Got(Image(readbuf[..]))
    }

    /** The packet in the read buffer has just come in. */
    ghost predicate Fresh()
      reads readbuf, this`log
    {
      LastIn(log) == Some(Image(readbuf[..]))
    }

    /** The read buffer holds a packet of this type. */
    ghost predicate Arrived(t: int)
      reads readbuf
    {
      WholePacket(readbuf[..]) && TypeOf(readbuf[0]) == t
    }

    /** A packet `cycle` has no answer for: QoS 3, or a handshake packet too short for its id. */
    ghost predicate Unanswerable(t: int)
      reads readbuf
    {
      && WholePacket(readbuf[..])
      && (|| (t == PUBLISH && QosOf(readbuf[0]) == 3)
          || (t in {PUBREC, PUBREL} && !HoldsId(readbuf[..])))
    }

    /** The read buffer holds a PUBLISH that cannot be read, which ends the cycle early. */
    ghost predicate Unparsed(t: int)
      reads readbuf
    {
      t == PUBLISH && WholePacket(readbuf[..]) && ParsePublish(readbuf[..]).Rejected?
    }

    /** `readbuf` read as a PUBLISH, and the message the user will see. Unset fields are arbitrary. */
    method TakePublish() returns (ok: bool, m: Message)
      requires Separate() && Holding(PUBLISH)
      ensures ok <==> ParsePublish(Image(readbuf[..])).Accepted? || BodyStart(readbuf[..]) == 2
      ensures WellFormedPublish(Image(readbuf[..])) ==> ok && Same(m, MessageOf(Image(readbuf[..])))
      ensures (!ok ==> Unparsed(PUBLISH)) && m.qos == QosOf(readbuf[0])
      ensures WellFormedPublish(Image(readbuf[..])) ==> m.qos == ParsePublish(Image(readbuf[..])).qos
      ensures WellFormedPublish(Image(readbuf[..])) && m.qos > 0 ==> m.id == PublishId(Image(readbuf[..]))
    {
      hide FieldAt, ParsePublish, TypeOf;
      ImageParses(readbuf[..]);
      ParsedHeader(readbuf[..]);
      var rc, dup, qos, retained, id, topic, at, len := DeserializePublish(readbuf);
      ok := rc == 1;
      var payload: Bytes := *;
      ParsedExtent(readbuf[..]);
      if ok && 0 <= len && at + len <= size {
        payload := readbuf[at..at + len];
      }
      m := Message(qos, retained, dup, id, topic, payload);
    }

    /** The QoS 2 branch: deliver unless the id is already outstanding or the table is full. */
    method AdmitQoS2(m: Message)
      requires Separate() && Session() && m.qos == 2
      requires log != [] && BringsPublish(log[|log| - 1])
      requires Answers(log, Deliver(m, H.Called(handlers, defaultHandler, m.topic)))
      requires AcksAnswer(log, PUBREC, m.id)
      modifies this`incoming, this`log
      ensures Session() && Calm(old(log), log)
      ensures MayAck(log, PUBREC, m.id)
    {
      hide LogOk, StepOk, Held, Pending, Faithful, Ids, Distinct, Answers, BringsPublish, FirstSlot, H.Valid, H.Called;
      ghost var e := Deliver(m, H.Called(handlers, defaultHandler, m.topic));
      AdmitOk(log, incoming, m, e);
      var free := IsQoS2msgidFree(m.id);
      if free {
        var used := UseQoS2msgid(m.id);
        if used {
          var delivered := DeliverMessage(m);
        }
      }
    }

    /** Serialise an acknowledgement into the send buffer, which always has room for it, and send it. */
    method SendAck(t: byte, id: u16, timer: Timer) returns (rc: int)
      requires Separate()
      modifies timer, net`sent, net`failures, sendbuf, this`log
      ensures timer.ticks <= old(timer.ticks)
      ensures rc in {SUCCESS, FAILURE}
      ensures log == old(log) + [Send(AckOut(t, id), rc == SUCCESS)]
      ensures rc != SUCCESS ==> SendFailed(old(log), log)
    {
      var len := SerializeAck(sendbuf, size, t, 0, id);
      rc := SendPacket(len, timer, AckOut(t, id));
    }

    /** The acknowledgement a delivered or dropped publish asks for; there is none for the reserved QoS 3. */
    method AnswerPublish(m: Message, timer: Timer) returns (rc: int)
      requires Separate() && net.Valid() && Session()
      requires m.qos in {1, 2} ==>
                 MayAck(log, if m.qos == 1 then PUBACK else PUBREC, m.id)
      requires m.qos !in {1, 2} ==> Settled(log)
      modifies timer, net`sent, net`failures, sendbuf, this`log
      ensures timer.ticks <= old(timer.ticks)
      ensures net.Valid() && Session() && Calm(old(log), log) && Settled(log)
      ensures rc in {SUCCESS, FAILURE}
      ensures rc == FAILURE ==> SendFailed(old(log), log) || m.qos !in {0, 1, 2}
    {
      hide LogOk, StepOk, Held, Pending, Faithful, Ids, Distinct, H.Valid, Settled, MayAck, IPStack.Valid, HandlersOk;
      rc := SUCCESS;
      if m.qos != 0 {
        ghost var before := log;
        if m.qos == 1 {
          rc := SendAck(PUBACK, m.id, timer);
          SendOk(before, log[|log| - 1]);
        } else if m.qos == 2 {
          rc := SendAck(PUBREC, m.id, timer);
          SendOk(before, log[|log| - 1]);
        } else {
          rc := FAILURE;
        }
      }
    }

    /** `cycle`, case PUBLISH. `leave` is the code's jump to its exit, past the keep-alive check. */
    method HandlePublish(timer: Timer) returns (rc: int, leave: bool)
      requires Separate() && net.Valid() && Session() && Holding(PUBLISH)
      modifies timer, net`sent, net`failures, sendbuf, this`incoming, this`log
      ensures timer.ticks <= old(timer.ticks)
      ensures net.Valid() && Session() && Calm(old(log), log) && Settled(log)
      ensures rc in {SUCCESS, FAILURE} && (rc == FAILURE ==> leave)
      ensures rc == FAILURE ==> SendFailed(old(log), log) || Unanswerable(PUBLISH)
      ensures rc == SUCCESS && leave ==> Unparsed(PUBLISH)
    {
      hide LogOk, StepOk, Held, Pending, Faithful, Ids, Distinct, H.Valid, H.Called, MessageOf, ParsePublish, PublishId,
           WellFormedPublish, WholePacket, Same, Settled, Answers, BringsPublish, BodyStart, IPStack.Valid, MayAck,
           Unparsed;
      rc, leave := SUCCESS, true;
      PacketArrived(readbuf[..], log);
      var ok, m := TakePublish();
      if !ok {
        return;
      }
      ghost var e := Deliver(m, H.Called(handlers, defaultHandler, m.topic));
      PublishAnswers(log, m, e);
      if m.qos != 2 {
        DeliverOk(log, e);
        var delivered := DeliverMessage(m);
      } else {
        AdmitQoS2(m);
      }
      rc := AnswerPublish(m, timer);
      leave := rc == FAILURE;
    }

    /** PUBREL in answer to a PUBREC. */
    method AnswerPubrec(id: u16, timer: Timer) returns (rc: int)
      requires Separate() && net.Valid() && Session() && MayAck(log, PUBREL, id)
      modifies timer, net`sent, net`failures, sendbuf, this`log
      ensures timer.ticks <= old(timer.ticks)
      ensures net.Valid() && Session() && Calm(old(log), log) && Settled(log)
      ensures log == old(log) + [Send(AckOut(PUBREL, id), rc == SUCCESS)]
      ensures rc != SUCCESS ==> SendFailed(old(log), log)
      ensures rc in {SUCCESS, FAILURE}
    {
      hide SendFailed, LogOk, Held, Pending, Faithful, Ids, Distinct, H.Valid, Settled, MayAck, IPStack.Valid,
           HandlersOk;
      ghost var before := log;
      rc := SendAck(PUBREL, id, timer);
      SendOk(before, log[|log| - 1]);
    }

    /** PUBCOMP in answer to a PUBREL; once it is out the id is forgotten. */
    method AnswerPubrel(id: u16, timer: Timer) returns (rc: int)
      requires Separate() && net.Valid() && Session() && MayAck(log, PUBCOMP, id)
      modifies timer, net`sent, net`failures, sendbuf, this`incoming, this`log
      ensures timer.ticks <= old(timer.ticks)
      ensures net.Valid() && Session() && Calm(old(log), log) && Settled(log)
      ensures log == old(log) + [Send(AckOut(PUBCOMP, id), rc == SUCCESS)]
      ensures rc != SUCCESS ==> SendFailed(old(log), log)
      ensures rc in {SUCCESS, FAILURE}
    {
      hide SendFailed, LogOk, Held, Pending, Faithful, Ids, Distinct, H.Valid, Settled, MayAck, FirstSlot;
      ghost var before := log;
      rc := SendAck(PUBCOMP, id, timer);
      ReleaseOk(before, incoming, id, rc == SUCCESS);
      if rc == SUCCESS {
        FreeQoS2msgid(id);
      }
    }

    /**
     `cycle`, cases PUBREC and PUBREL. A packet too short for an id may be answered with an arbitrary one.
     */
    method HandleHandshake(packetType: byte, timer: Timer) returns (rc: int)
      requires packetType in {PUBREC, PUBREL}
      requires Separate() && net.Valid() && Session() && Holding(packetType)
      modifies timer, net`sent, net`failures, sendbuf, this`incoming, this`log
      ensures timer.ticks <= old(timer.ticks)
      ensures net.Valid() && Session() && Calm(old(log), log) && Settled(log)
      ensures rc in {SUCCESS, FAILURE}
      ensures rc == FAILURE ==> SendFailed(old(log), log) || Unanswerable(packetType)
    {
      hide Session, WholePacket, Settled, HoldsId, AckId, BodyStart, MayAck;
      var r, t, dup, id := DeserializeAck(readbuf);
      AckArrived(readbuf[..], log, id);
      if r != 1 {
        rc := FAILURE;
      } else if packetType == PUBREC {
        rc := AnswerPubrec(id, timer);
      } else {
        rc := AnswerPubrel(id, timer);
      }
    }

    /** Send what stands in the send buffer, when it is no packet the log keeps an account of. */
    method SendOther(length: nat, timer: Timer) returns (rc: int)
      requires Separate() && net.Valid() && Session() && Settled(log) && length <= size
      modifies timer, net`sent, net`failures, this`log
      ensures timer.ticks <= old(timer.ticks)
      ensures net.Valid() && Session() && Calm(old(log), log) && Settled(log)
      ensures rc in {SUCCESS, FAILURE}
      ensures log == old(log) + [Send(OtherOut(sendbuf[..length]), rc == SUCCESS)]
      ensures rc != SUCCESS ==> SendFailed(old(log), log)
    {
      hide SendFailed, LogOk, StepOk, Held, Pending, Faithful, Ids, Distinct, H.Valid, Settled;
      ghost var before, out := log, OtherOut(sendbuf[..length]);
      rc := SendPacket(length, timer, out);
      SettledAnswers(before, Send(out, rc == SUCCESS));
      SendOk(before, Send(out, rc == SUCCESS));
    }

    /** A ping has been sent and not been answered. */
    predicate Pinging()
      reads this`keepAliveInterval, this`pingOutstanding
    {
      keepAliveInterval != 0 && pingOutstanding
    }

    /** A PINGREQ, with a timer of its own. */
    method SendPing() returns (rc: int)
      requires Separate() && net.Valid() && Session() && Settled(log)
      modifies net`sent, net`failures, sendbuf, this`log
      ensures net.Valid() && Session() && Calm(old(log), log) && Settled(log)
      ensures rc in {SUCCESS, FAILURE}
      ensures log == old(log) + [Send(OtherOut([0xC0, 0]), rc == SUCCESS)]
      ensures rc != SUCCESS ==> SendFailed(old(log), log)
    {
      hide SendFailed, Settled, Calm, LogOk, Session, IPStack.Valid;
      var ticks: nat := *;
      var timer := new Timer(ticks);
      var len := SerializeZero(sendbuf, size, PINGREQ);
      rc := SendOther(len, timer);
    }

    /**
     keepalive: fails if the last ping has gone unanswered for too long, and sends one if nothing has been sent, or
     nothing received, for too long.
     */
    method Keepalive() returns (rc: int)
      requires Separate() && net.Valid() && Session() && Settled(log)
      modifies this`pingOutstanding, net`sent, net`failures, sendbuf, this`log
      ensures net.Valid() && Session() && Calm(old(log), log) && Settled(log)
      ensures rc in {SUCCESS, FAILURE}
      ensures if keepAliveInterval != 0 && !old(pingOutstanding) && (clock.sentOver || clock.receivedOver) then
                && log == old(log) + [Send(OtherOut([0xC0, 0]), rc == SUCCESS)] && pingOutstanding == (rc == SUCCESS)
                && (rc == FAILURE ==> SendFailed(old(log), log)) && (rc == SUCCESS ==> EndsWithPing(log))
              else
                && log == old(log) && pingOutstanding == old(pingOutstanding)
                && (rc == FAILURE <==> old(Pinging()) && clock.pingOver)
    {
      hide SendFailed, Settled, Calm, LogOk, Session, IPStack.Valid, Header;
      CalmReflexive(log);
      rc := SUCCESS;
      if keepAliveInterval == 0 {
        return;
      }
      if pingOutstanding {
        if clock.pingOver {
          rc := FAILURE;
        }
      } else if clock.sentOver || clock.receivedOver {
        rc := SendPing();
        if rc == SUCCESS {
          pingOutstanding := true;
        }
      }
    }

    /** The keep-alive check has been made, with a ping outstanding or not, and found nothing wrong. */
    ghost predicate Checked(outstanding: bool)
      reads this`keepAliveInterval, this`pingOutstanding, clock
    {
      keepAliveInterval != 0 ==>
        if outstanding then !clock.pingOver else pingOutstanding || !(clock.sentOver || clock.receivedOver)
    }

    /** The switch of `cycle`. */
    method Dispatch(packetType: int, timer: Timer) returns (rc: int, leave: bool)
      requires Separate() && net.Valid() && Session()
      requires packetType > 1 ==> packetType < 16 && Holding(packetType)
      requires packetType !in {PUBLISH, PUBREC, PUBREL} ==> Settled(log)
      modifies timer, net`sent, net`failures, sendbuf, this`pingOutstanding, this`incoming, this`log
      ensures timer.ticks <= old(timer.ticks)
      ensures net.Valid() && Session() && Calm(old(log), log) && Settled(log)
      ensures packetType in {PUBACK, PUBCOMP} ==> rc == SUCCESS && !leave && log == old(log)
      ensures rc in {SUCCESS, FAILURE} || (leave && rc == packetType && !HasCase(packetType))
      ensures rc == SUCCESS ==> HasCase(packetType) && (leave ==> Unparsed(packetType))
      ensures rc != SUCCESS ==>
                !HasCase(packetType) || SendFailed(old(log), log) || Unanswerable(packetType)
      ensures pingOutstanding == (old(pingOutstanding) && packetType != PINGRESP)
    {
      hide Session, Settled, LogOk, Calm, WholePacket;
      CalmReflexive(log);
      rc, leave := SUCCESS, false;
      if packetType == 0 {
        // timed out reading packet
      } else if packetType == CONNACK || packetType == PUBACK || packetType == SUBACK || packetType == UNSUBACK {
      } else if packetType == PUBLISH {
        rc, leave := HandlePublish(timer);
      } else if packetType == PUBREC || packetType == PUBREL {
        rc := HandleHandshake(packetType, timer);
        leave := rc == FAILURE;
      } else if packetType == PUBCOMP {
      } else if packetType == PINGRESP {
        pingOutstanding := false;
      } else {
        rc, leave := packetType, true;
      }
    }

    /** Reading a packet and logging its arrival leaves the session as it was. */
    method Receive() returns (packetType: int, ghost came: Option<Bytes>)
      requires Inv()
      modifies net, net.buffer, readbuf, this`log
      ensures net.Valid() && Session() && Calm(old(log), log)
      ensures packetType > 1 ==> packetType < 16 && Holding(packetType)
      ensures packetType !in {PUBLISH, PUBREC, PUBREL} ==> Settled(log)
      ensures old(net.lost) <= net.lost && old(net.starved) <= net.starved
      ensures Took(size, packetType, came, net.lost == old(net.lost), net.starved > old(net.starved),
                   old(net.Incoming()), net.Incoming())
      ensures net.lost == old(net.lost) && Ready(old(net.Incoming()), old(net.count)) ==>
                net.starved == old(net.starved)
      ensures log == old(log) + if came.Some? then [Got(came.value)] else []
    {
      hide Ready, LogOk, StepOk, Held, Pending, Faithful, Ids, Distinct, H.Valid, WholePacket, ReadOne, Image, Flatten,
           Ring, Settled, Calm, Advance, Wrap32, TypeOf;
      ghost var before, complete, short := log, false, false;
      packetType, complete, short := ReadPacket();
      CalmReflexive(before);
      came := None;
      if complete {
        came := Some(Image(readbuf[..]));
        ImageHead(readbuf[..]);
        ArrivalOk(before, readbuf[..]);
      }
      assert before + [] == before;
    }

    /** Why a cycle may fail: a packet it has no case or no answer for, an answer that did not get out, a lost ping. */
    ghost predicate Trouble(read: int, before: Log, unanswered: bool)
      reads readbuf, this`log
    {
      !HasCase(read) || Unanswerable(read) || SendFailed(before, log) || unanswered
    }

    /** The switch and the keep-alive check after it, which most failures in the switch jump over. */
    method React(packetType: int, timer: Timer) returns (rc: int)
      requires Separate() && net.Valid() && Session()
      requires packetType > 1 ==> packetType < 16 && Holding(packetType)
      requires packetType !in {PUBLISH, PUBREC, PUBREL} ==> Settled(log)
      modifies timer, net`sent, net`failures, sendbuf, this`pingOutstanding, this`incoming, this`log
      ensures timer.ticks <= old(timer.ticks)
      ensures net.Valid() && Session() && Calm(old(log), log) && Settled(log)
      ensures rc in {SUCCESS, FAILURE} || (rc == packetType && !HasCase(packetType))
      ensures rc == SUCCESS ==> HasCase(packetType)
      ensures rc != SUCCESS ==> Trouble(packetType, old(log), old(Pinging()) && clock.pingOver)
      ensures rc == SUCCESS && !Unparsed(packetType) ==> Checked(old(pingOutstanding) && packetType != PINGRESP)
      ensures rc == SUCCESS && packetType == PINGRESP && pingOutstanding ==> EndsWithPing(log)
      ensures rc == SUCCESS && packetType in {PUBACK, PUBCOMP} ==> Fresh()
    {
      hide Session, LogOk, Settled, Calm, Background, WholePacket, IPStack.Valid, Pending, Held, Faithful;
      hide SendFailed, Unanswerable, HasCase;
      ghost var before := log;
      var leave;
      rc, leave := Dispatch(packetType, timer);
      ghost var dispatched := log;
      if !leave {
        var alive := Keepalive();
        if alive != SUCCESS {
          rc := FAILURE;
        }
      } else {
        CalmReflexive(log);
      }
      CalmReflexive(before);
      CalmChain(before, before, dispatched, log);
    }

    /** The steps of `cycle` up to its exit: a packet is read, answered, and the connection kept alive. */
    method Turn(timer: Timer) returns (rc: int, packetType: int, ghost came: Option<Bytes>)
      requires Inv()
      modifies timer, net, net.buffer, sendbuf, readbuf, this`pingOutstanding, this`incoming, this`log
      ensures timer.ticks <= old(timer.ticks)
      ensures Inv() && Calm(old(log), log)
      ensures old(net.lost) <= net.lost && old(net.starved) <= net.starved
      ensures Took(size, packetType, came, net.lost == old(net.lost), net.starved > old(net.starved),
                   old(net.Incoming()), net.Incoming())
      ensures net.lost == old(net.lost) && Ready(old(net.Incoming()), old(net.count)) ==>
                net.starved == old(net.starved)
      ensures came.Some? ==> |old(log)| < |log| && log[|old(log)|] == Got(came.value)
      ensures rc in {SUCCESS, FAILURE} || (rc == packetType && !HasCase(packetType))
      ensures rc == SUCCESS ==> HasCase(packetType)
      ensures rc != SUCCESS ==> Trouble(packetType, old(log), old(Pinging()) && clock.pingOver)
      ensures rc == SUCCESS && !Unparsed(packetType) ==> Checked(old(pingOutstanding) && packetType != PINGRESP)
      ensures rc == SUCCESS && packetType == PINGRESP && pingOutstanding ==> EndsWithPing(log)
      ensures packetType > 1 ==> Arrived(packetType)
      ensures rc == SUCCESS && packetType in {PUBACK, PUBCOMP} ==> Fresh()
    {
      hide Ready, Session, LogOk, Settled, Calm, Background, WholePacket, IPStack.Valid, Pending, Held, Faithful, Took;
      hide SendFailed, Unanswerable, HasCase, Fresh, Pinging, Checked, Unparsed;
      ghost var before := log;
      packetType, came := Receive();
      ghost var received := log;
      rc := React(packetType, timer);
      CalmReflexive(received);
      CalmChain(before, received, received, log);
    }

    /**
     cycle: one packet is read, and what it calls for is done. `read` is what readPacket came back with and `came` the
     packet. Apart from the answers it sends, all it can do to a connected session is to close it, and that only when
     there is trouble.
     */
    method Cycle(timer: Timer) returns (rc: int, ghost read: int, ghost came: Option<Bytes>)
      requires Inv()
      modifies timer, clock, net, net.buffer, sendbuf, readbuf
      modifies this`pingOutstanding, this`isconnected, this`handlers, this`inflightMsgid, this`inflightQoS, this`pubrel
      modifies this`incoming, this`log, this`cycles, this`troubles
      ensures timer.ticks <= old(timer.ticks)
      ensures Inv() && Background(old(log), log)
      ensures old(net.lost) <= net.lost && old(net.starved) <= net.starved
      ensures Took(size, read, came, net.lost == old(net.lost), net.starved > old(net.starved),
                   old(net.Incoming()), net.Incoming())
      ensures net.lost == old(net.lost) && Ready(old(net.Incoming()), old(net.count)) ==>
                net.starved == old(net.starved)
      ensures came.Some? ==> |old(log)| < |log| && log[|old(log)|] == Got(came.value)
      ensures cycles == old(cycles) + 1 && old(troubles) <= troubles <= old(troubles) + 1
      ensures troubles == old(troubles) ==>
                && rc == read && HasCase(read) && isconnected == old(isconnected) && handlers == old(handlers)
                && (read == PINGRESP && pingOutstanding ==> EndsWithPing(log))
                && (!Unparsed(read) ==> Checked(old(pingOutstanding) && read != PINGRESP))
      ensures troubles > old(troubles) ==>
                && Trouble(read, old(log), old(Pinging()) && clock.pingOver) && !isconnected
                && (rc == FAILURE || (rc == read && !HasCase(read)))
      ensures isconnected ==> old(isconnected)
      ensures inflightMsgid != 0 ==> (inflightMsgid, inflightQoS) == (old(inflightMsgid), old(inflightQoS))
      ensures !cleansession ==> inflightMsgid == old(inflightMsgid)
      ensures !old(isconnected) ==> Calm(old(log), log) && inflightMsgid == old(inflightMsgid)
      ensures rc > 1 ==> Arrived(rc)
      ensures rc in {PUBACK, PUBCOMP} ==> Fresh()
    {
      hide Ready, Session, LogOk, Settled, Calm, Background, WholePacket, IPStack.Valid, Pending, Held, Faithful, Took;
      hide SendFailed, Unanswerable, Arrived, Fresh, Checked, Unparsed, H.Filters, EndsWithPing, Inv;
      ghost var before := log;
      var packetType;
      clock.Tick();
      rc, packetType, came := Turn(timer);
      read := packetType;
      cycles := cycles + 1;
      CalmIsBackground(before, log);
      if rc == SUCCESS {
        rc := packetType;
      } else {
        troubles := troubles + 1;
        if isconnected {
          ghost var turned := log;
          Close();
          BackgroundTransitive(before, turned, log);
        }
      }
    }

    /** closeSession, between steps. */
    method Close()
      requires Inv()
      modifies this`pingOutstanding, this`isconnected, this`handlers, this`inflightMsgid, this`inflightQoS, this`pubrel
      modifies this`incoming, this`log
      ensures Inv() && Background(old(log), log) && !isconnected && !pingOutstanding
      ensures if cleansession then H.Filters(handlers) == {} else handlers == old(handlers)
      ensures log == old(log) + if cleansession then [Clean] else []
      ensures inflightMsgid != 0 ==> (inflightMsgid, inflightQoS) == (old(inflightMsgid), old(inflightQoS))
      ensures !cleansession ==> inflightMsgid == old(inflightMsgid)
    {
      hide LogOk, Held, Pending, Faithful, Ids, Distinct, H.Valid;
      CloseSession();
    }

    // ----- Waiting -----

    /** Why waiting may be in vain: the time is up, or a cycle met trouble. */
    ghost predicate GaveUp(timer: Timer, troubles0: nat)
      reads timer, this`troubles
    {
      timer.over || troubles > troubles0
    }

    /** waitfor: cycles until a packet of the type comes, a cycle fails, or the time is up. */
    method WaitFor(packetType: byte, timer: Timer) returns (rc: int)
      requires Inv() && packetType > 1
      modifies timer, clock, net, net.buffer, sendbuf, readbuf
      modifies this`pingOutstanding, this`isconnected, this`handlers, this`inflightMsgid, this`inflightQoS, this`pubrel
      modifies this`incoming, this`log, this`cycles, this`troubles
      ensures Inv() && Background(old(log), log)
      ensures isconnected ==> old(isconnected)
      ensures inflightMsgid != 0 ==> (inflightMsgid, inflightQoS) == (old(inflightMsgid), old(inflightQoS))
      ensures !cleansession ==> inflightMsgid == old(inflightMsgid)
      ensures !old(isconnected) ==> Calm(old(log), log) && inflightMsgid == old(inflightMsgid)
      ensures rc != packetType ==> GaveUp(timer, old(troubles))
      ensures troubles == old(troubles) ==> isconnected == old(isconnected) && handlers == old(handlers)
      ensures cycles == old(cycles) ==> timer.looks == old(timer.looks)
      ensures troubles >= old(troubles)
      ensures rc == packetType ==> Arrived(rc) && (rc in {PUBACK, PUBCOMP} ==> Fresh())
    {
      hide Inv, Background, Calm, WholePacket;
      CalmReflexive(log);
      rc := FAILURE;
      var more := true;
      while more
        invariant Inv() && Background(old(log), log)
        invariant isconnected ==> old(isconnected)
        invariant inflightMsgid != 0 ==> (inflightMsgid, inflightQoS) == (old(inflightMsgid), old(inflightQoS))
        invariant !cleansession ==> inflightMsgid == old(inflightMsgid)
        invariant !old(isconnected) ==> Calm(old(log), log) && inflightMsgid == old(inflightMsgid)
        invariant cycles >= old(cycles) && (cycles == old(cycles) ==> timer.looks == old(timer.looks))
        invariant troubles >= old(troubles)
        invariant troubles == old(troubles) ==> isconnected == old(isconnected) && handlers == old(handlers)
        invariant !more && rc != packetType ==> troubles > old(troubles)
        invariant rc == packetType ==> Arrived(rc) && (rc in {PUBACK, PUBCOMP} ==> Fresh())
        decreases more, timer.ticks
      {
        var expired := timer.Expired();
        if expired {
          break;
        }
        ghost var before := log;
        ghost var read, came;
        rc, read, came := Cycle(timer);
        BackgroundTransitive(old(log), before, log);
        more := rc != packetType && rc >= 0;
      }
    }

    /** yield. */
    method Yield(timer: Timer) returns (rc: int)
      requires Valid()
      modifies timer, clock, net, net.buffer, sendbuf, readbuf
      modifies this`pingOutstanding, this`isconnected, this`handlers, this`inflightMsgid, this`inflightQoS, this`pubrel
      modifies this`incoming, this`log, this`cycles, this`troubles
      ensures Valid() && Background(old(log), log)
      ensures rc in {SUCCESS, FAILURE} && if rc == SUCCESS then timer.over else troubles > old(troubles)
      ensures troubles == old(troubles) ==> isconnected == old(isconnected) && handlers == old(handlers)
      ensures cycles == old(cycles) ==> timer.looks == old(timer.looks)
    {
      hide Background, Calm, Offered, Faithful, Pending, Inv, Took, Trouble;
      CalmReflexive(log);
      rc := SUCCESS;
      var more := true;
      while more
        invariant Inv() && Background(old(log), log)
        invariant isconnected ==> old(isconnected)
        invariant cycles >= old(cycles) && (cycles == old(cycles) ==> timer.looks == old(timer.looks))
        invariant troubles >= old(troubles) && rc == SUCCESS
        invariant troubles == old(troubles) ==> isconnected == old(isconnected) && handlers == old(handlers)
        invariant inflightMsgid in {0, old(inflightMsgid)}
        decreases more, timer.ticks
      {
        var expired := timer.Expired();
        if expired {
          break;
        }
        ghost var before := log;
        ghost var read, came;
        var r;
        r, read, came := Cycle(timer);
        BackgroundTransitive(old(log), before, log);
        if r < 0 {
          rc := FAILURE;
          break;
        }
      }
      BackgroundKeeps(old(log), log);
      BackgroundOffered(old(log), log);
    }

    // ----- Publishing -----

    /** PacketId::getNext. */
    method GetNext() returns (id: u16)
      modifies this`nextId
      ensures 1 <= id && nextId == id && id != old(nextId)
      ensures id == if old(nextId) == 65535 then 1 else old(nextId) + 1
    {
      nextId := if nextId == 65535 then 1 else nextId + 1;
      id := nextId;
    }

    /** The log ends with an acknowledgement, consumed while `awaited` was in flight; only that id settles it. */
    ghost predicate EndsAcked(awaited: u16)
      reads this`inflightMsgid, this`log
    {
      log != [] && var e := log[|log| - 1];
      e.Acked? && e.awaited == awaited && inflightMsgid == if e.got == awaited then 0 else awaited
    }

    /** An acknowledgement that has arrived is consumed: the publish in flight is done if the id is the awaited one. */
    method ConsumeAck() returns (rc: int)
      requires Inv() && Fresh() && (Arrived(PUBACK) || Arrived(PUBCOMP))
      requires Faithful(log) && inflightMsgid != 0 ==> Arrived(FinalAck(inflightQoS))
      modifies this`inflightMsgid, this`log
      ensures Inv() && Plain(old(log), log)
      ensures rc in {SUCCESS, FAILURE}
      ensures rc == SUCCESS && Faithful(log) ==> inflightMsgid == 0
      ensures inflightMsgid in {0, old(inflightMsgid)}
      ensures rc == SUCCESS ==> EndsAcked(old(inflightMsgid))
      ensures HoldsId(readbuf[..]) ==>
                rc == SUCCESS && log == old(log) + [Acked(AckId(readbuf[..]), old(inflightMsgid))]
    {
      hide LogOk, Held, Pending, Faithful, Ids, Distinct, H.Valid, WholePacket, IPStack.Valid, HoldsId, AckId,
           BodyStart;
      var r, t, dup, id := DeserializeAck(readbuf);
      if r != 1 {
        rc := FAILURE;
        PlainReflexive(log);
      } else {
        AckHere(readbuf[..], log, id);
        AckedOk(log, id, inflightMsgid);
        log := log + [Acked(id, inflightMsgid)];
        if inflightMsgid == id {
          inflightMsgid := 0;
        }
        rc := SUCCESS;
      }
    }

    /** A packet of this type came, too short to hold an id. */
    ghost predicate Unreadable(t: int)
      reads readbuf
    {
      Arrived(t) && !HoldsId(readbuf[..])
    }

    /** The acknowledgement that ends an exchange at this QoS has come and been consumed. */
    ghost predicate Acknowledged(qos: QoS)
      reads readbuf, this`log
    {
      Arrived(FinalAck(qos)) && log != [] && log[|log| - 1].Acked?
    }

    /**
     The inner publish: offer the packet in the send buffer and, at QoS 1 and 2, wait for the acknowledgement that
     ends the exchange.
     */
    method Offer(len: nat, timer: Timer, qos: QoS, ghost packet: Bytes) returns (rc: int)
      requires Inv() && len <= size && sendbuf[..len] == packet
      requires Faithful(log) && inflightMsgid != 0 ==> qos == inflightQoS
      modifies timer, clock, net, net.buffer, sendbuf, readbuf
      modifies this`pingOutstanding, this`isconnected, this`handlers, this`inflightMsgid, this`inflightQoS, this`pubrel
      modifies this`incoming, this`log, this`cycles, this`troubles
      ensures Inv() && Plain(old(log), log)
      ensures |old(log)| < |log| && log[|old(log)|].Send? && log[|old(log)|].what == PublishOut(packet)
      ensures isconnected ==> old(isconnected)
      ensures rc == SUCCESS && Faithful(log) && qos != 0 ==> inflightMsgid == 0
      ensures inflightMsgid in {0, old(inflightMsgid)}
      ensures rc != SUCCESS ==> !isconnected
      ensures rc == SUCCESS && qos != 0 ==> Acknowledged(qos) && (!cleansession ==> EndsAcked(old(inflightMsgid)))
      ensures qos == 0 ==> (rc == SUCCESS <==> log[|old(log)|].ok) && (rc == SUCCESS ==> |log| == |old(log)| + 1)
      ensures rc == SUCCESS && qos == 0 ==> inflightMsgid == old(inflightMsgid)
      ensures rc in {SUCCESS, FAILURE} && (rc == SUCCESS ==> log[|old(log)|].ok)
      ensures rc != SUCCESS && log[|old(log)|].ok ==> GaveUp(timer, old(troubles)) || Unreadable(FinalAck(qos))
      ensures troubles >= old(troubles)
      ensures rc == SUCCESS && troubles == old(troubles) ==>
                isconnected == old(isconnected) && handlers == old(handlers)
    {
      hide H.Filters, GaveUp, Inv, LogOk, Held, Pending, Faithful, Background, Plain, WholePacket;
      rc := SendPublish(len, timer, packet);
      ghost var sent := log;
      assert sent[|old(log)|] == Send(PublishOut(packet), rc == SUCCESS);
      PlainReflexive(sent);
      if rc == SUCCESS && qos != 0 {
        var awaited := FinalAck(qos);
        var got := WaitFor(awaited, timer);
        BackgroundPlain(sent, log);
        BackgroundKeeps(sent, log);
        ghost var waited := log;
        if got == awaited {
          rc := ConsumeAck();
          PlainChain(sent, waited, log);
        } else {
          rc := FAILURE;
        }
      }
      ghost var before := log;
      if rc != SUCCESS {
        Close();
        BackgroundPlain(before, log);
        PlainChain(sent, before, log);
      }
      PlainChain(old(log), sent, log);
    }

    method SendPublish(len: nat, timer: Timer, ghost packet: Bytes) returns (rc: int)
      requires Inv() && len <= size && sendbuf[..len] == packet
      modifies timer, net`sent, net`failures, this`log
      ensures timer.ticks <= old(timer.ticks)
      ensures rc in {SUCCESS, FAILURE}
      ensures Inv() && Plain(old(log), log) && log == old(log) + [Send(PublishOut(packet), rc == SUCCESS)]
      ensures Faithful(log) <==> Faithful(old(log))
    {
      hide SendFailed, LogOk, Held, Pending, Faithful, Ids, Distinct, H.Valid, Settled;
      ghost var before := log;
      rc := SendPacket(len, timer, PublishOut(packet));
      SettledAnswers(before, Send(PublishOut(packet), rc == SUCCESS));
      SendOk(before, Send(PublishOut(packet), rc == SUCCESS));
    }

    /** Keep a copy of the serialised publish for a reconnect; QoS 0 leaves the id it was given. */
    method Remember(len: nat, id: u16, qos: QoS, ghost packet: Bytes)
      requires Valid() && isconnected && len <= size && sendbuf[..len] == packet
      modifies pubbuf, this`inflightMsgid, this`inflightLen, this`inflightQoS, this`pubrel, this`log
      ensures Inv() && log == old(log) + [Store(qos, id, packet)]
      ensures inflightMsgid == id && inflightQoS == qos
      ensures Faithful(log) ==> Faithful(old(log)) && (qos == 0 ==> id == 0)
    {
      hide LogOk, Held, Pending, Faithful, Ids, Distinct, H.Valid, Settled, Offered;
      StoreOk(log, qos, id, packet);
      forall i | 0 <= i < len {
        pubbuf[i] := sendbuf[i];
      }
      assert pubbuf[..len] == packet;
      inflightMsgid := id;
      inflightLen := len;
      inflightQoS := qos;
      pubrel := false;
      log := log + [Store(qos, id, packet)];
    }

    /**
     publish. On a connected session with room for the packet, the packet is stored if the session is to be kept,
     and then offered. As long as every acknowledgement consumed carried the awaited id, no stored publish has been
     given up for it. After success one is left in flight exactly when the acknowledgement carried another id, or at
     QoS 0 when the caller gave an id other than 0.
     */
    method Publish(topic: Bytes, payload: Bytes, givenId: u16, qos: QoS, retained: bool, timer: Timer)
      returns (rc: int, id: u16)
      requires Valid()
      modifies timer, clock, net, net.buffer, sendbuf, readbuf, pubbuf
      modifies this`pingOutstanding, this`isconnected, this`handlers, this`inflightMsgid, this`inflightQoS, this`pubrel
      modifies this`incoming, this`log, this`cycles, this`troubles, this`inflightLen, this`nextId
      ensures Valid()
      ensures old(log) <= log
      ensures !old(isconnected) ==> rc == FAILURE && log == old(log) && id == givenId && nextId == old(nextId)
      ensures qos == 0 ==> id == givenId && nextId == old(nextId)
      ensures old(isconnected) && qos != 0 ==> id == nextId == if old(nextId) == 65535 then 1 else old(nextId) + 1
      ensures var packet := PublishBytes(0, qos, if retained then 1 else 0, id, topic, payload);
              var stored := [Store(qos, id, packet)];
              old(isconnected) ==>
                if PacketLen(PublishLength(qos, MqttString(Some(topic), None), |payload|)) > size then
                  rc == FAILURE && log == old(log)
                else
                  var start := |old(log)| + if cleansession then 0 else 1;
                  && old(log) + (if cleansession then [] else stored) <= log
                  && start < |log| && log[start].Send? && log[start].what == PublishOut(packet)
                  && (if log[start].ok then
                        rc != SUCCESS ==> qos != 0 && (GaveUp(timer, old(troubles)) || Unreadable(FinalAck(qos)))
                      else rc != SUCCESS)
                  && (rc != SUCCESS ==> !isconnected)
                  && (rc == SUCCESS && troubles == old(troubles) ==> isconnected && handlers == old(handlers))
      ensures rc in {SUCCESS, FAILURE} && (rc == SUCCESS && Faithful(log) ==> inflightMsgid == 0)
      ensures rc == SUCCESS && qos != 0 ==> Acknowledged(qos)
      ensures rc == SUCCESS && !cleansession ==> if qos == 0 then inflightMsgid == id else EndsAcked(id)
    {
      hide LogOk, Held, Pending, Faithful, EndsAcked, PublishBytes, Plain, Session, Settled, Offered, IPStack.Valid,
           PublishLength, GaveUp, Unreadable, Acknowledged, HandlersOk;
      rc, id := FAILURE, givenId;
      if !isconnected {
        return;
      }
      if qos == 1 || qos == 2 {
        id := GetNext();
      }
      var len := SerializePublish(sendbuf, size, 0, qos, if retained then 1 else 0, id, MqttString(Some(topic), None),
                                  payload);
      if len <= 0 {
        return;
      }
      ghost var packet := sendbuf[..len];
      if !cleansession {
        StoreKeeps(log, Store(qos, id, packet));
        Remember(len, id, qos, packet);
      }
      ghost var stored := log;
      rc := Offer(len, timer, qos, packet);
      PlainKeeps(stored, log);
    }

    // ----- Connecting -----

    /** The CONNECT packet goes out, or is found too large for the buffer and nothing happens. */
    method SendConnect(options: ConnectData, timer: Timer) returns (rc: int)
      requires Inv()
      requires options.version in {3, 4} && StringsAgree(options)
      modifies timer, net`sent, net`failures, sendbuf, this`log
      ensures timer.ticks <= old(timer.ticks)
      ensures Inv() && rc in {SUCCESS, FAILURE}
      ensures Pending(log) == Pending(old(log)) && (Faithful(log) <==> Faithful(old(log)))
      ensures if PacketLen(ConnectLength(options)) > size then rc == FAILURE && log == old(log)
              else log == old(log) + [Send(ConnectOut(options), rc == SUCCESS)]
    {
      hide SendFailed, LogOk, Held, Pending, Faithful, Ids, Distinct, H.Valid, Settled, ConnectBytes, ConnectLength,
           IPStack.Valid, HandlersOk;
      var len := SerializeConnect(sendbuf, size, options);
      if len <= 0 {
        rc := FAILURE;
      } else {
        ghost var before := log;
        rc := SendPacket(len, timer, ConnectOut(options));
        SettledAnswers(before, Send(ConnectOut(options), rc == SUCCESS));
        SendOk(before, Send(ConnectOut(options), rc == SUCCESS));
      }
    }

    /** A CONNACK has come, and this is what it says. */
    ghost predicate ConnackSays(rc: int)
      reads readbuf
    {
      Arrived(CONNACK) && rc == ConnackCode(readbuf[..])
    }

    /** Wait for the CONNACK: its return code, or FAILURE. */
    method AwaitConnack(timer: Timer) returns (rc: int)
      requires Inv() && !isconnected
      modifies timer, clock, net, net.buffer, sendbuf, readbuf
      modifies this`pingOutstanding, this`isconnected, this`handlers, this`inflightMsgid, this`inflightQoS, this`pubrel
      modifies this`incoming, this`log, this`cycles, this`troubles
      ensures Inv() && !isconnected && Calm(old(log), log)
      ensures ConnackSays(rc) || (rc == FAILURE && GaveUp(timer, old(troubles)))
      ensures troubles >= old(troubles)
    {
      hide Inv, Background, Calm;
      var got := WaitFor(CONNACK, timer);
      rc := FAILURE;
      if got == CONNACK {
        var r, sessionPresent, returnCode := DeserializeConnack(readbuf, 0, 0);
        if r == 1 {
          rc := returnCode;
        }
      }
    }

    /** How offering a publish of this QoS ends; `ok` says that it got out. */
    ghost predicate OfferEnds(rc: int, qos: nat, ok: bool, timer: Timer, troubles0: nat)
      requires qos <= 2
      reads this`troubles, this`log, timer, readbuf
    {
      if rc == SUCCESS then qos != 0 ==> Acknowledged(qos)
      else ok ==> qos != 0 && (GaveUp(timer, troubles0) || Unreadable(FinalAck(qos)))
    }

    /** The stored publish, if there is one, is offered again; its PUBREL never is, for `pubrel` is never set. */
    method ResendPending(rc0: int, timer: Timer) returns (rc: int)
      requires Inv() && !isconnected
      modifies timer, clock, net, net.buffer, sendbuf, readbuf
      modifies this`pingOutstanding, this`isconnected, this`handlers, this`inflightMsgid, this`inflightQoS, this`pubrel
      modifies this`incoming, this`log, this`cycles, this`troubles
      ensures Inv() && !isconnected && Plain(old(log), log)
      ensures rc == SUCCESS && Faithful(log) ==> inflightMsgid == 0
      ensures troubles >= old(troubles)
      ensures Pending(old(log)).None? ==>
                && rc == rc0 && log == old(log) && readbuf[..] == old(readbuf[..])
                && timer.over == old(timer.over) && troubles == old(troubles)
      ensures Pending(old(log)).Some? ==>
                |old(log)| < |log| && log[|old(log)|].Send?
                && log[|old(log)|].what == PublishOut(Pending(old(log)).value.packet)
                && OfferEnds(rc, Pending(old(log)).value.qos, log[|old(log)|].ok, timer, old(troubles))
    {
      hide LogOk, Held, Pending, Faithful, Ids, Distinct, H.Valid, Settled, Plain, IPStack.Valid;
      rc := rc0;
      PlainReflexive(log);
      if inflightMsgid > 0 && inflightQoS == 2 && pubrel {
        assert false;
      } else if inflightMsgid > 0 {
        forall i | 0 <= i < size {
          sendbuf[i] := pubbuf[i];
        }
        ghost var packet, before := Pending(log).value.packet, log;
        assert sendbuf[..inflightLen] == pubbuf[..inflightLen] == packet;
        rc := Offer(inflightLen, timer, inflightQoS, packet);
        PlainKeeps(before, log);
      }
    }

    /**
     How a connect ends. If the CONNECT packet is too large nothing happens. If it got out, and nothing was pending, the
     CONNACK has the say; a pending publish is offered again, and its outcome is that of the connect.
     */
    ghost predicate ConnectEnds(options: ConnectData, rc: int, before: Log, timer: Timer, troubles0: nat)
      requires Pending(before).Some? ==> Pending(before).value.qos <= 2
      reads this`troubles, this`log, timer, readbuf
    {
      if PacketLen(ConnectLength(options)) > size then rc == FAILURE && log == before
      else
        var k := |before|;
        && k < |log| && log[k].Send? && log[k].what == ConnectOut(options)
        && if !log[k].ok then rc == FAILURE
           else match Pending(before)
             case None => ConnackSays(rc) || (rc == FAILURE && GaveUp(timer, troubles0))
             case Some(p) =>
               && Resends(log, k, p.packet)
               && OfferEnds(rc, p.qos, !SendFailed(before, log), timer, troubles0)
    }

    /** `connect` from the CONNECT packet to its exit. */
    method Introduce(options: ConnectData, timer: Timer) returns (rc: int)
      requires Inv() && Offered(log) && !isconnected
      requires options.version in {3, 4} && StringsAgree(options)
      modifies timer, clock, net, net.buffer, sendbuf, readbuf
      modifies this`pingOutstanding, this`isconnected, this`handlers, this`inflightMsgid, this`inflightQoS, this`pubrel
      modifies this`incoming, this`log, this`cycles, this`troubles
      ensures Inv() && Offered(log) && !isconnected && old(log) <= log
      ensures rc == SUCCESS && Faithful(log) ==> inflightMsgid == 0
      ensures ConnectEnds(options, rc, old(log), timer, old(troubles))
    {
      hide LogOk, Held, Pending, Faithful, Plain, Session, Settled, Offered, IPStack.Valid, Calm, ConnectLength,
           StringsAgree, ConnackCode, WholePacket;
      ghost var before := log;
      rc := SendConnect(options, timer);
      ghost var sent := log;
      if rc == SUCCESS {
        rc := AwaitConnack(timer);
        ghost var waited := log;
        CalmKeeps(sent, waited);
        rc := ResendPending(rc, timer);
        ConnectDone(before, sent, waited, log);
        assert |waited| < |log| && log[|waited|].Send? && !log[|waited|].ok ==> SendFailed(before, log);
      } else {
        ConnectFailed(before, sent);
      }
    }

    /**
     connect. Once the CONNECT packet is out, a stored publish is offered again byte for byte, whatever the CONNACK
     said; if there is one, its outcome is the outcome of the connect.
     */
    method Connect(options: ConnectData, timer: Timer) returns (rc: int)
      requires Valid()
      requires options.version in {3, 4} && StringsAgree(options)
      modifies timer, clock, net, net.buffer, sendbuf, readbuf
      modifies this`pingOutstanding, this`isconnected, this`handlers, this`inflightMsgid, this`inflightQoS, this`pubrel
      modifies this`incoming, this`log, this`cycles, this`troubles, this`keepAliveInterval, this`cleansession
      ensures Valid() && old(log) <= log
      ensures old(isconnected) ==> rc == FAILURE && log == old(log) && isconnected
      ensures !old(isconnected) ==> (isconnected <==> rc == SUCCESS)
      ensures !old(isconnected) ==>
                keepAliveInterval == options.keepAlive && cleansession == (options.cleanSession != 0)
      ensures rc == SUCCESS ==> !pingOutstanding
      ensures !old(isconnected) ==> ConnectEnds(options, rc, old(log), timer, old(troubles))
    {
      hide LogOk, Held, Pending, Faithful, Plain, Session, Settled, Offered, IPStack.Valid, Calm, ConnectLength,
           StringsAgree, ConnackCode, WholePacket;
      rc := FAILURE;
      if isconnected {
        return;
      }
      keepAliveInterval := options.keepAlive;
      cleansession := options.cleanSession != 0;
      rc := Introduce(options, timer);
      if rc == SUCCESS {
        isconnected := true;
        pingOutstanding := false;
      }
    }

    // ----- Subscribing -----

    /** A request packet is logged first, or not at all if it is found too large for the send buffer. */
    ghost predicate Asks(remLen: nat, packet: Bytes, before: Log, after: Log) {
      if PacketLen(remLen) > size then Untouched(before, after)
      else |before| < |after| && after[|before|].Send? && after[|before|].what == OtherOut(packet)
    }

    /**
     subscribe. A failure closes the session, even one that was not open. On success the handler is in the table, unless
     the SUBACK refused the filter or could not be read: the code then returns success without adding it.
     */
    method Subscribe(f: Bytes, qos: QoS, h: Option<nat>, timer: Timer) returns (rc: int)
      requires Valid()
      modifies timer, clock, net, net.buffer, sendbuf, readbuf
      modifies this`pingOutstanding, this`isconnected, this`handlers, this`inflightMsgid, this`inflightQoS, this`pubrel
      modifies this`incoming, this`log, this`cycles, this`troubles, this`nextId
      ensures Valid() && Background(old(log), log)
      ensures rc in {SUCCESS, FAILURE} && (rc == FAILURE ==> !isconnected)
      ensures !old(isconnected) ==> rc == FAILURE && Untouched(old(log), log)
      ensures nextId == if !old(isconnected) then old(nextId) else if old(nextId) == 65535 then 1 else old(nextId) + 1
      ensures old(isconnected) ==> Asks(5 + |f|, SubscribeBytes(0, nextId, [Entry(f, qos)]), old(log), log)
      ensures rc == SUCCESS ==> GotOut(old(log), log) && Arrived(SUBACK)
      ensures rc == SUCCESS && Granted(readbuf[..]) ==> H.Lookup(handlers, f) == h
      ensures rc == SUCCESS && troubles == old(troubles) ==>
                && isconnected
                && (if Granted(readbuf[..]) then Handles(old(handlers), f, h, handlers) else handlers == old(handlers))
      ensures rc == FAILURE && GotOut(old(log), log) ==>
                GaveUp(timer, old(troubles)) || (Granted(readbuf[..]) && !CanHandle(old(handlers), f, h))
    {
      hide Session, LogOk, Settled, Background, Calm, IPStack.Valid, Offered, ListBytes, H.Lookup, Handles, Faithful;
      hide Pending, Granted, CanHandle, Arrived;
      ghost var start := log;
      CalmReflexive(log);
      rc := FAILURE;
      if isconnected {
        rc := RequestTopic(f, qos, h, timer);
      }
      if rc == FAILURE {
        CloseAfter(start);
      }
    }

    /** `subscribe` up to its exit. */
    method RequestTopic(f: Bytes, qos: QoS, h: Option<nat>, timer: Timer) returns (rc: int)
      requires Valid() && isconnected
      modifies timer, clock, net, net.buffer, sendbuf, readbuf
      modifies this`pingOutstanding, this`isconnected, this`handlers, this`inflightMsgid, this`inflightQoS, this`pubrel
      modifies this`incoming, this`log, this`cycles, this`troubles, this`nextId
      ensures Valid() && Background(old(log), log)
      ensures rc in {SUCCESS, FAILURE}
      ensures nextId == if old(nextId) == 65535 then 1 else old(nextId) + 1
      ensures Asks(5 + |f|, SubscribeBytes(0, nextId, [Entry(f, qos)]), old(log), log)
      ensures PacketLen(5 + |f|) > size ==> rc == FAILURE && log == old(log)
      ensures rc == SUCCESS ==> GotOut(old(log), log) && Arrived(SUBACK)
      ensures rc == SUCCESS && Granted(readbuf[..]) ==> H.Lookup(handlers, f) == h
      ensures rc == SUCCESS && troubles == old(troubles) ==>
                && isconnected
                && (if Granted(readbuf[..]) then Handles(old(handlers), f, h, handlers) else handlers == old(handlers))
      ensures rc == FAILURE && GotOut(old(log), log) ==>
                GaveUp(timer, old(troubles)) || (Granted(readbuf[..]) && !CanHandle(old(handlers), f, h))
    {
      hide Session, LogOk, Settled, Background, Calm, IPStack.Valid, Offered, LengthFrom, ListBytes, OneLength;
      hide H.Lookup, Handles, Faithful, Pending, Granted, CanHandle, Arrived, SendFailed;
      ghost var start := log;
      CalmReflexive(log);
      rc := FAILURE;
      var id := GetNext();
      OneFilter(f, true);
      var len := SerializeList(sendbuf, size, SUBSCRIBE, 0, id, [MqttString(Some(f), None)], [qos], true);
      OneEntry(f, qos);
      if len > 0 {
        rc := SendOther(len, timer);
        CalmIsBackground(start, log);
        if rc == SUCCESS {
          ghost var sent := log;
          var got := WaitFor(SUBACK, timer);
          BackgroundTransitive(start, sent, log);
          if got == SUBACK {
            rc := TakeSuback(f, h);
          } else {
            rc := FAILURE;
          }
        }
      }
      BackgroundRest(start, log);
    }

    /** The exit of `subscribe` and `unsubscribe` on failure. */
    method CloseAfter(ghost start: Log)
      requires Valid() && Background(start, log)
      modifies this`pingOutstanding, this`isconnected, this`handlers, this`inflightMsgid, this`inflightQoS, this`pubrel
      modifies this`incoming, this`log
      ensures Valid() && Background(start, log) && !isconnected
      ensures Untouched(old(log), log)
      ensures |start| < |old(log)| ==> |start| < |log| && log[|start|] == old(log[|start|])
    {
      hide Session, LogOk, Settled, Background, Calm, IPStack.Valid, Offered, Faithful, Pending;
      ghost var before := log;
      CalmReflexive(before);
      Close();
      BackgroundTransitive(start, before, log);
      BackgroundRest(before, log);
    }

    /** A SUBACK has come: the handler goes into the table, unless the SUBACK refuses the filter or cannot be read. */
    method TakeSuback(f: Bytes, h: Option<nat>) returns (rc: int)
      requires Inv() && Arrived(SUBACK)
      modifies this`handlers
      ensures Inv() && rc in {SUCCESS, FAILURE}
      ensures rc == SUCCESS <==> Granted(readbuf[..]) ==> CanHandle(old(handlers), f, h)
      ensures if rc == SUCCESS && Granted(readbuf[..]) then
                Handles(old(handlers), f, h, handlers) && H.Lookup(handlers, f) == h
              else handlers == old(handlers)
    {
      hide Inv, Handles, CanHandle;
      rc := SUCCESS;
      var r, ackId, granted := DeserializeSuback(readbuf, 1);
      if r == 1 && !(granted != [] && granted[0] == 0x80) {
        rc := SetHandler(f, h);
      }
    }

    /** setMessageHandler, with what it leaves alone. */
    method SetHandler(f: Bytes, h: Option<nat>) returns (rc: int)
      requires Inv()
      modifies this`handlers
      ensures Inv() && rc in {SUCCESS, FAILURE}
      ensures rc == SUCCESS <==> CanHandle(old(handlers), f, h)
      ensures rc == SUCCESS || h.None? ==> Handles(old(handlers), f, h, handlers) && H.Lookup(handlers, f) == h
      ensures rc != SUCCESS ==> handlers == old(handlers)
    {
      hide LogOk, Held, Pending, Faithful, Ids, Distinct, H.Valid, Settled, IPStack.Valid;
      rc := SetMessageHandler(f, h);
      if rc != SUCCESS {
        H.Occupied(handlers, f);
      }
    }

    /**
     unsubscribe. A failure closes the session, even one that was not open; success leaves no handler for the filter.
     */
    method Unsubscribe(f: Bytes, timer: Timer) returns (rc: int)
      requires Valid()
      modifies timer, clock, net, net.buffer, sendbuf, readbuf
      modifies this`pingOutstanding, this`isconnected, this`handlers, this`inflightMsgid, this`inflightQoS, this`pubrel
      modifies this`incoming, this`log, this`cycles, this`troubles, this`nextId
      ensures Valid() && Background(old(log), log)
      ensures rc in {SUCCESS, FAILURE} && (rc != SUCCESS ==> !isconnected)
      ensures !old(isconnected) ==> rc == FAILURE && Untouched(old(log), log)
      ensures nextId == if !old(isconnected) then old(nextId) else if old(nextId) == 65535 then 1 else old(nextId) + 1
      ensures old(isconnected) ==> Asks(4 + |f|, UnsubscribeBytes(0, nextId, [Entry(f, 0)]), old(log), log)
      ensures rc == SUCCESS ==> GotOut(old(log), log) && Arrived(UNSUBACK) && H.Lookup(handlers, f) == None
      ensures rc == SUCCESS && troubles == old(troubles) ==> isconnected && Handles(old(handlers), f, None, handlers)
      ensures rc == FAILURE && GotOut(old(log), log) ==> GaveUp(timer, old(troubles))
    {
      hide Session, LogOk, Settled, Background, Calm, IPStack.Valid, Offered, ListBytes, H.Lookup, Handles, Faithful;
      hide Pending, Arrived;
      ghost var start := log;
      CalmReflexive(log);
      rc := FAILURE;
      if isconnected {
        rc := RequestRemoval(f, timer);
      }
      if rc != SUCCESS {
        CloseAfter(start);
      }
    }

    /** `unsubscribe` up to its exit. */
    method RequestRemoval(f: Bytes, timer: Timer) returns (rc: int)
      requires Valid() && isconnected
      modifies timer, clock, net, net.buffer, sendbuf, readbuf
      modifies this`pingOutstanding, this`isconnected, this`handlers, this`inflightMsgid, this`inflightQoS, this`pubrel
      modifies this`incoming, this`log, this`cycles, this`troubles, this`nextId
      ensures Valid() && Background(old(log), log)
      ensures rc in {SUCCESS, FAILURE}
      ensures nextId == if old(nextId) == 65535 then 1 else old(nextId) + 1
      ensures Asks(4 + |f|, UnsubscribeBytes(0, nextId, [Entry(f, 0)]), old(log), log)
      ensures PacketLen(4 + |f|) > size ==> rc == FAILURE && log == old(log)
      ensures rc == SUCCESS ==> GotOut(old(log), log) && Arrived(UNSUBACK) && H.Lookup(handlers, f) == None
      ensures rc == SUCCESS && troubles == old(troubles) ==> isconnected && Handles(old(handlers), f, None, handlers)
      ensures rc == FAILURE && GotOut(old(log), log) ==> GaveUp(timer, old(troubles))
    {
      hide Session, LogOk, Settled, Background, Calm, IPStack.Valid, Offered, LengthFrom, ListBytes, OneLength;
      hide H.Lookup, Handles, Faithful, Pending, CanHandle, Arrived, SendFailed;
      ghost var start := log;
      CalmReflexive(log);
      rc := FAILURE;
      var id := GetNext();
      OneFilter(f, false);
      var len := SerializeList(sendbuf, size, UNSUBSCRIBE, 0, id, [MqttString(Some(f), None)], [0], false);
      OneEntry(f, 0);
      if len > 0 {
        rc := SendOther(len, timer);
        CalmIsBackground(start, log);
        if rc == SUCCESS {
          ghost var sent := log;
          var got := WaitFor(UNSUBACK, timer);
          BackgroundTransitive(start, sent, log);
          if got == UNSUBACK {
            var removed := SetHandler(f, None);
          } else {
            rc := FAILURE;
          }
        }
      }
      BackgroundRest(start, log);
    }

    /** disconnect. */
    method Disconnect(timer: Timer) returns (rc: int)
      requires Valid()
      modifies timer, net`sent, net`failures, sendbuf
      modifies this`pingOutstanding, this`isconnected, this`handlers, this`inflightMsgid, this`inflightQoS, this`pubrel
      modifies this`incoming, this`log
      ensures Valid() && Background(old(log), log) && !isconnected
      ensures rc in {SUCCESS, FAILURE} && !pingOutstanding
      ensures log == old(log) + [Send(OtherOut([0xE0, 0]), rc == SUCCESS)] + if cleansession then [Clean] else []
    {
      hide H.Filters, Session, LogOk, Settled, Background, Calm, IPStack.Valid, Offered;
      ghost var start := log;
      var len := SerializeZero(sendbuf, size, DISCONNECT);
      rc := SendOther(len, timer);
      CalmIsBackground(start, log);
      ghost var sent := log;
      Close();
      BackgroundTransitive(start, sent, log);
      BackgroundRest(start, log);
    }
  }

  // ----- Facts about buffers and numbers used above -----

  /** The packet at the start of a buffer. */
  function Image(t: Bytes): Bytes {
    if WholePacket(t) then t[..PacketEnd(t)] else []
  }

  /** A PINGREQ has just gone out. */
  predicate EndsWithPing(log: Log) {
    log != [] && log[|log| - 1] == Send(OtherOut([0xC0, 0]), true)
  }

  lemma ImageHead(t: Bytes)
    requires WholePacket(t)
    ensures Image(t) != [] && Image(t)[0] == t[0]
  {
  }

  /**
   What the first step of a cycle came back with, and what that says of the stream `s` it read from and the `rest` of
   it: unless bytes were dropped or a read ran out of time, one packet has been taken off it. Without a packet there is
   a type to come back with only when a read ran out of time.
   */
  predicate Took(size: nat, read: int, came: Option<Bytes>, lossless: bool, late: bool, s: Bytes, rest: Bytes) {
    && (match came
        case Some(p) => p != [] && read == TypeOf(p[0])
        case None => read == BUFFER_OVERFLOW || (read in {0, 1} && late))
    && (lossless && !late ==>
          var o := ReadOne(s, size);
          && o.taken <= |s| && rest == s[o.taken..]
          && if o.rc >= 0 then read == o.rc && came == Some(o.image) else read == BUFFER_OVERFLOW && came == None)
  }

  lemma ImageOf(t: Bytes, h: byte, n: nat)
    requires n <= MAX_REMAINING_LENGTH
    requires var len := 1 + |Encoded(n)|; len + n <= |t| && t[..len] == [h] + Encoded(n)
    ensures var len := 1 + |Encoded(n)|;
            WholePacket(t) && t[0] == h && Image(t) == [h] + Encoded(n) + t[len..len + n]
  {
    hide Encoded, FieldAt;
    var len := 1 + |Encoded(n)|;
    var body, rest := t[len..len + n], t[len + n..];
    assert t == t[..len] + body + rest;
    FixedHeader(h, body, rest);
    assert t[0] == t[..len][0];
    assert Image(t) == t[..len + n] == t[..len] + body;
  }

  lemma TooLarge(s: Bytes, size: nat)
    requires s != [] && FieldAt(s, 1, MAX_LENGTH_BYTES).value + |HeaderImage(s)| > size
    ensures ReadOne(s, size) == Outcome(-1, HeaderImage(s), FieldEnd(s))
  {
  }

  lemma ReadOneIs(s: Bytes, size: nat, body: Bytes)
    requires s != [] && |body| == FieldAt(s, 1, MAX_LENGTH_BYTES).value && |body| + |HeaderImage(s)| <= size
    requires FieldEnd(s) + |body| <= |s| && s[FieldEnd(s)..FieldEnd(s) + |body|] == body
    ensures ReadOne(s, size) == Outcome(TypeOf(s[0]), HeaderImage(s) + body, FieldEnd(s) + |body|)
  {
  }

  /** How the decoding loop's result relates to the field. */
  lemma FieldIs(s: Bytes)
    ensures var whole := Decoding(s, 1, 0, 0, 1);
            && whole == FieldAt(s, 1, MAX_LENGTH_BYTES)
            && FieldEnd(s) == if whole.complete then 1 + whole.len else whole.len
  {
    DecodingMeaning(s, 1, 0, 0, 1);
  }

  lemma DecodingStep(s: Bytes, pos: nat, len: nat, value: nat, multiplier: nat)
    requires len <= MAX_LENGTH_BYTES
    ensures Decoding(s, pos, len, value, multiplier).len > len
    ensures len == MAX_LENGTH_BYTES ==> Decoding(s, pos, len, value, multiplier) == Field(value, len + 1, false)
    ensures len < MAX_LENGTH_BYTES && pos < |s| ==>
              var sum := Plus(value, s[pos] % 128, multiplier);
              Decoding(s, pos, len, value, multiplier) ==
              if s[pos] < 128 then Field(sum, len + 1, true) else Decoding(s, pos + 1, len + 1, sum, multiplier * 128)
  {
    DecodingMeaning(s, pos, len, value, multiplier);
  }

  lemma Pow128Values()
    ensures Pow128(0) == 1 && Pow128(1) == 128 && Pow128(2) == 16384 && Pow128(3) == 2097152 && Pow128(4) == 268435456
  {
  }

  lemma AddedDigit(value: nat, digit: nat, k: nat)
    requires value < Pow128(k) && digit < 128 && k < MAX_LENGTH_BYTES
    ensures Plus(value, digit, Pow128(k)) < Pow128(k + 1)
  {
    if k == 0 {
      assert Pow128(0) == 1;
    } else if k == 1 {
      assert Pow128(1) == 128;
    } else if k == 2 {
      assert Pow128(2) == 16384;
    } else {
      assert Pow128(3) == 2097152;
    }
  }

  lemma LengthBound(k: nat, value: nat)
    requires k <= MAX_LENGTH_BYTES && value < Pow128(k)
    ensures value <= MAX_REMAINING_LENGTH
  {
    assert Pow128(1) == 128 && Pow128(2) == 16384 && Pow128(3) == 2097152 && Pow128(4) == 268435456;
  }

  /** A QoS 2 message is taken exactly when its id is new and a slot is free; either way PUBREC is then in order. */
  lemma AdmitOk(log: Log, t: seq<u16>, m: Message, e: Event)
    requires |t| == MAX_INCOMING_QOS2_MESSAGES && Distinct(t) && Ids(t) == Held(log) && LogOk(log)
    requires m.qos == 2 && e.Deliver? && e.message == m
    requires log != [] && BringsPublish(log[|log| - 1]) && Answers(log, e)
    requires AcksAnswer(log, PUBREC, m.id)
    ensures var i := FirstSlot(t, 0);
            if m.id !in t && i < |t| then
              && Distinct(t[i := m.id]) && Ids(t[i := m.id]) == Held(log + [e]) && LogOk(log + [e])
              && Pending(log + [e]) == Pending(log) && (Faithful(log + [e]) <==> Faithful(log))
              && MayAck(log + [e], PUBREC, m.id)
            else MayAck(log, PUBREC, m.id)
  {
    hide WholePacket, TypeOf, ParsePublish, WellFormedPublish, MessageOf, HoldsId, FirstSlot;
    FullWhen(t);
    FirstFree(t);
    Append(log, e);
    var i := FirstSlot(t, 0);
    if m.id !in t && i < |t| {
      Occupy(t, i, m.id);
    }
  }

  /** A logged arrival, and what it asks for. */
  lemma PacketArrived(t: Bytes, log: Log)
    requires WholePacket(t) && TypeOf(t[0]) == PUBLISH && log != [] && log[|log| - 1] == Got(Image(t))
    ensures BringsPublish(log[|log| - 1])
    ensures !WellFormedPublish(Image(t)) ==> Settled(log)
  {
    ImageParses(t);
  }

  /** The message taken from a well-formed publish is the answer the publish asks for. */
  lemma PublishAnswers(log: Log, m: Message, e: Event)
    requires log != [] && BringsPublish(log[|log| - 1])
    requires e.Deliver? && e.message == m
    requires var p := log[|log| - 1].packet;
             WellFormedPublish(p) ==>
               && Same(m, MessageOf(p)) && m.qos == ParsePublish(p).qos
               && (m.qos > 0 ==> m.id == PublishId(p))
    ensures Answers(log, e)
    ensures m.qos == 2 ==> AcksAnswer(log, PUBREC, m.id)
  {
    hide ParsePublish, PublishId, PublishPayload, WholePacket;
  }

  /** Delivering at another QoS than 2. */
  lemma DeliverOk(log: Log, e: Event)
    requires LogOk(log) && log != [] && BringsPublish(log[|log| - 1])
    requires e.Deliver? && e.message.qos != 2 && Answers(log, e)
    ensures Unaffected(log, log + [e])
    ensures e.message.qos == 1 ==> MayAck(log + [e], PUBACK, e.message.id)
    ensures e.message.qos != 1 ==> Settled(log + [e])
  {
    hide WholePacket, TypeOf, ParsePublish, WellFormedPublish, MessageOf, HoldsId, LogOk, Held, Pending, Faithful;
    Append(log, e);
  }

  /** Sending something other than a PUBCOMP. */
  lemma SendOk(log: Log, e: Event)
    requires LogOk(log) && e.Send?
    requires StepOk(log, e) || (e.what.AckOut? && MayAck(log, e.what.packetType, e.what.id))
    requires e.what.AckOut? ==> e.what.packetType != PUBCOMP
    ensures Unaffected(log, log + [e]) && Settled(log + [e])
  {
    Append(log, e);
  }

  /** A PUBREC or PUBREL that arrived may be answered with the id it carries, or with any if it carries none. */
  lemma AckArrived(t: Bytes, log: Log, id: u16)
    requires WholePacket(t) && TypeOf(t[0]) in {PUBREC, PUBREL} && log != [] && log[|log| - 1] == Got(Image(t))
    requires HoldsId(t) ==> id == AckId(t)
    ensures MayAck(log, if TypeOf(t[0]) == PUBREC then PUBREL else PUBCOMP, id)
    ensures !HoldsId(t) ==> Settled(log)
  {
    ImageParses(t);
  }

  /** Sending a PUBCOMP, and taking its id out of the table if it got out. */
  lemma ReleaseOk(log: Log, t: seq<u16>, id: u16, ok: bool)
    requires LogOk(log) && MayAck(log, PUBCOMP, id)
    requires |t| == MAX_INCOMING_QOS2_MESSAGES && Distinct(t) && Ids(t) == Held(log)
    ensures var e := Send(AckOut(PUBCOMP, id), ok);
            var i := FirstSlot(t, id);
            var t' := if ok && i < |t| then t[i := 0] else t;
            && LogOk(log + [e]) && Pending(log + [e]) == Pending(log) && (Faithful(log + [e]) <==> Faithful(log))
            && Settled(log + [e])
            && Distinct(t') && Ids(t') == Held(log + [e])
  {
    hide WholePacket, TypeOf, HoldsId, AckId, ParsePublish, WellFormedPublish, MessageOf, LogOk, Faithful, Ids,
         Distinct, FirstSlot;
    Append(log, Send(AckOut(PUBCOMP, id), ok));
    Release(t, id);
    NoZero(t);
  }

  lemma ArrivalOk(log: Log, t: Bytes)
    requires LogOk(log) && Settled(log) && WholePacket(t)
    ensures Unaffected(log, log + [Got(Image(t))]) && Calm(log, log + [Got(Image(t))])
    ensures TypeOf(t[0]) !in {PUBLISH, PUBREC, PUBREL} ==> Settled(log + [Got(Image(t))])
  {
    hide WellFormedPublish, MessageOf, LogOk, Faithful, Held, Pending, ParsePublish, HoldsId, AckId, FieldAt;
    ImageParses(t);
    Append(log, Got(Image(t)));
  }

  lemma StoreOk(log: Log, qos: nat, id: u16, packet: Bytes)
    requires LogOk(log) && Settled(log) && (Faithful(log) ==> Pending(log).None?)
    ensures var log' := log + [Store(qos, id, packet)];
            && LogOk(log') && Settled(log') && Held(log') == Held(log)
            && Pending(log') == (if id == 0 then None else Some(Stored(qos, id, packet)))
            && (Faithful(log') <==> Faithful(log) && (qos == 0 ==> id == 0))
  {
    hide WellFormedPublish, MessageOf, LogOk, Faithful, Held, Pending, ParsePublish, HoldsId, AckId, FieldAt;
    Append(log, Store(qos, id, packet));
  }

  lemma OneFilter(f: Bytes, withQos: bool)
    ensures OneLength(MqttString(Some(f), None))
    ensures LengthFrom([MqttString(Some(f), None)], 0, withQos) == 2 + |f| + if withQos then 1 else 0
  {
    assert LengthFrom([MqttString(Some(f), None)], 1, withQos) == 0;
  }

  lemma OneEntry(f: Bytes, qos: QoS)
    ensures Entries([MqttString(Some(f), None)], [qos]) == [Entry(f, qos)]
  {
  }

  /**
   What `connect` makes of a CONNACK: its return code. One too short to hold it counts as accepting when its length
   field is one byte long, and otherwise as a failure.
   */
  function ConnackCode(p: Bytes): int
    requires WholePacket(p)
  {
    if HoldsId(p) then p[BodyStart(p) + 1] as int else if BodyStart(p) == 2 then SUCCESS else FAILURE
  }

  /** Nothing happened, but that the session may have been cleaned. */
  predicate Untouched(a: Log, b: Log) { b == a || b == a + [Clean] }

  /**
   A SUBACK that does not refuse the filter. One too short for an id counts as such when its length field is one byte
   long, and so does one without a list.
   */
  predicate Granted(p: Bytes) {
    WholePacket(p) && TypeOf(p[0]) == SUBACK &&
    if HoldsId(p) then
      var list := p[BodyStart(p) + 2..PacketEnd(p)];
      |list| <= 2 && !(list != [] && list[0] == 0x80)
    else BodyStart(p) == 2
  }

  /** A packet was logged first, and it got out. */
  predicate GotOut(a: Log, b: Log) {
    |a| < |b| && b[|a|].Send? && b[|a|].ok
  }

  /** There is a slot for this handler under this filter. */
  predicate CanHandle(t: H.Table, f: Bytes, h: Option<nat>) {
    f in H.Filters(t) || (h.Some? && |H.Filters(t)| < |t|)
  }

  /** The handler under this filter has been set, and no other. */
  ghost predicate Handles(a: H.Table, f: Bytes, h: Option<nat>, b: H.Table) {
    forall g :: H.Lookup(b, g) == if g == f then h else H.Lookup(a, g)
  }

  /** An acknowledgement that has just come in may be consumed. */
  lemma AckHere(t: Bytes, log: Log, got: u16)
    requires WholePacket(t) && TypeOf(t[0]) in {PUBACK, PUBCOMP} && LastIn(log) == Some(Image(t))
    requires HoldsId(t) ==> got == AckId(t)
    requires Faithful(log) && Pending(log).Some? ==> TypeOf(t[0]) == FinalAck(Pending(log).value.qos)
    ensures AckCame(log, got)
  {
    hide Faithful, Pending, LastIn, FieldAt;
    ImageParses(t);
  }

  lemma AckedOk(log: Log, got: u16, awaited: u16)
    requires LogOk(log) && Settled(log) && awaited == PendingId(log) && AckCame(log, got)
    ensures var log' := log + [Acked(got, awaited)];
            && LogOk(log') && Settled(log') && Held(log') == Held(log) && Plain(log, log')
            && Pending(log') == (if got == awaited then None else Pending(log))
            && (Faithful(log') ==> Faithful(log) && (awaited == 0 || got == awaited))
  {
    hide WellFormedPublish, MessageOf, LogOk, Faithful, Held, Pending, ParsePublish, HoldsId, AckId, FieldAt, LastIn;
    Append(log, Acked(got, awaited));
  }

  lemma NoZero(t: seq<u16>)
    ensures 0 !in Ids(t)
  {
  }

  lemma NewLog()
    ensures LogOk([]) && Settled([])
    ensures Offered([Clean]) && Settled([Clean])
  {
  }

  lemma SettledAnswers(log: Log, e: Event)
    requires Settled(log) && e.Send? && !e.what.AckOut?
    ensures StepOk(log, e)
  {
  }

  /** The longer log is in order and says the same about the session. */
  predicate Unaffected(a: Log, b: Log) {
    LogOk(b) && Held(b) == Held(a) && Pending(b) == Pending(a) && (Faithful(b) <==> Faithful(a))
  }

  lemma FirstSlotIs(t: seq<u16>, id: u16, i: nat)
    requires i < |t| && t[i] == id && forall k :: 0 <= k < i ==> t[k] != id
    ensures FirstSlot(t, id) == i
  {
    var j := FirstSlot(t, id);
    assert i <= j ==> j == i;
  }
}
