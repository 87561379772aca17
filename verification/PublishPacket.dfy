/**
 PUBLISH and the four acknowledgement packets (MQTTSerializePublish.c, MQTTDeserializePublish.c;
 sections 3.3 to 3.7 of MQTT 3.1.1).
 */
module PublishPacket {
  import opened Base
  import opened RemainingLength
  import opened PacketIO

  /** Everything after the fixed header: topic, packet id unless QoS 0, payload. */
  function PublishBody(qos: int, id: u16, topic: Bytes, payload: Bytes): Bytes {
    StringBytes(topic) + (if qos > 0 then BigEndian(id) else []) + payload
  }

  function PublishBytes(dup: byte, qos: int, retained: byte, id: u16, topic: Bytes, payload: Bytes): Bytes {
    var body := PublishBody(qos, id, topic, payload);
    [Header(PUBLISH, dup, qos % 4, retained)] + Encoded(|body|) + body
  }

  /**
   What the deserialiser reports for a whole packet. `Rejected` carries its return code, which on a malformed
   topic is the size of the length field, so that 1, "success", is reported with nothing filled in.
   */
  datatype PublishView =
    | Rejected(rc: nat)
    | Accepted(dup: byte, qos: byte, retained: byte, topic: Bytes, idAt: nat, payloadAt: nat, payloadLen: int)

  function ParsePublish(s: Bytes): (v: PublishView)
    requires WholePacket(s)
    ensures v.Accepted? && v.payloadLen >= 0 ==> v.payloadAt + v.payloadLen == PacketEnd(s)
  {
    if TypeOf(s[0]) != PUBLISH then Rejected(0)
    else
      var start, end := BodyStart(s), PacketEnd(s);
      match ReadString(s, start, end)
      case NoString => Rejected(start - 1)
      case GotString(topic, next) =>
        var payloadAt := if QosOf(s[0]) > 0 then next + 2 else next;
        Accepted(DupOf(s[0]), QosOf(s[0]), RetainOf(s[0]), topic, next, payloadAt, end - payloadAt)
  }

  /** MQTTSerialize_publishLength. */
  function PublishLength(qos: int, topic: MqttString, payloadLen: nat): nat {
    2 + StrLen(topic) + payloadLen + if qos > 0 then 2 else 0
  }

  /**
   MQTTSerialize_publish. Either the estimate exceeds `buflen` and nothing is written, or exactly the packet is,
   inside `buflen`.
   */
  method SerializePublish(buf: array<byte>, buflen: nat, dup: byte, qos: int, retained: byte, id: u16,
                          topic: MqttString, payload: Bytes) returns (rc: int)
    requires buflen <= buf.Length
    requires OneLength(topic)
    requires AllowedOrRefused(PublishLength(qos, topic, |payload|), buflen)
    modifies buf
    ensures var packet := PublishBytes(dup, qos, retained, id, Content(topic), payload);
            if PacketLen(PublishLength(qos, topic, |payload|)) > buflen then
              rc == MQTTPACKET_BUFFER_TOO_SHORT && buf[..] == old(buf[..])
            else
              && rc == |packet| == TrueLen(PublishLength(qos, topic, |payload|)) <= buflen
              && buf[..rc] == packet
              && forall i :: rc <= i < buf.Length ==> buf[i] == old(buf[i])
  {
    hide Encoded, StringBytes, BigEndian, Header, Content, StrLen, OneLength;
    StrLenIsWritten(topic);
    var remLen := PublishLength(qos, topic, |payload|);
    var size := Len(remLen);
    if size > buflen {
      return MQTTPACKET_BUFFER_TOO_SHORT;
    }
    ghost var body := PublishBody(qos, id, Content(topic), payload);
    assert |body| == remLen;
    var h: byte := Header(PUBLISH, dup, qos % 4, retained);
    var ptr := WriteFixedHeader(buf, h, remLen);
    ptr := WriteMqttString(buf, ptr, topic);
    if qos > 0 {
      ptr := WriteInt(buf, ptr, id);
    }
    ptr := CopyIn(buf, ptr, payload);
    rc := ptr;
    assert buf[..rc] == [h] + Encoded(remLen) + body;
  }

  /** MQTTDeserialize_publish. Fields it does not reach are left to the caller's initial values, here arbitrary. */
  method DeserializePublish(buf: array<byte>)
    returns (rc: nat, dup: byte, qos: byte, retained: byte, id: u16, topic: Bytes, payloadAt: nat, payloadLen: int)
    requires WholePacket(buf[..])
    ensures var v := ParsePublish(buf[..]);
            if v.Rejected? then rc == v.rc && (TypeOf(buf[0]) == PUBLISH ==> qos == QosOf(buf[0]))
            else
              && rc == 1 && v == Accepted(dup, qos, retained, topic, v.idAt, payloadAt, payloadLen)
              && (qos > 0 && v.idAt + 2 <= buf.Length ==> id == Word16(buf[v.idAt], buf[v.idAt + 1]))
  {
    dup, qos, retained, id, topic, payloadAt, payloadLen := *, *, *, *, *, *, *;
    rc := 0;
    if TypeOf(buf[0]) != PUBLISH {
      return;
    }
    dup, qos, retained := DupOf(buf[0]), QosOf(buf[0]), RetainOf(buf[0]);
    var mylen;
    rc, mylen := DecodeBuf(buf, 1);
    var curdata := 1 + rc;
    var enddata := curdata + mylen;
    var r := ReadMqttLenString(buf, curdata, enddata);
    if r.NoString? {
      return;
    }
    topic, curdata := r.text, r.next;
    if qos > 0 {
      id, curdata := ReadInt(buf, curdata);
    }
    payloadLen := enddata - curdata;
    payloadAt := curdata;
    rc := 1;
  }

  lemma ParsedHeader(s: Bytes)
    requires WholePacket(s) && TypeOf(s[0]) == PUBLISH
    ensures ParsePublish(s).Accepted? ==> ParsePublish(s).qos == QosOf(s[0])
    ensures ParsePublish(s).Rejected? ==> ParsePublish(s).rc == BodyStart(s) - 1
  {
  }

  lemma ParsedExtent(s: Bytes)
    requires WholePacket(s)
    ensures var v := ParsePublish(s);
            v.Accepted? ==> v.idAt <= PacketEnd(s) && v.payloadAt == (if v.qos > 0 then v.idAt + 2 else v.idAt)
                            && v.payloadLen == PacketEnd(s) - v.payloadAt
  {
  }

  /** The id and the payload a parsed packet carries when they lie inside it. */
  function PublishId(s: Bytes): u16
    requires WholePacket(s)
  {
    match ParsePublish(s)
    case Rejected(_) => 0
    case Accepted(_, qos, _, _, idAt, _, payloadLen) =>
      if qos > 0 && payloadLen >= 0 then Word16(s[idAt], s[idAt + 1]) else 0
  }

  function PublishPayload(s: Bytes): Bytes
    requires WholePacket(s)
  {
    match ParsePublish(s)
    case Rejected(_) => []
    case Accepted(_, _, _, _, _, at, len) => if len >= 0 then s[at..at + len] else []
  }

  /** Where the parts of a publish packet lie when more bytes follow it. */
  lemma PublishLaidOut(h: byte, qos: int, id: u16, topic: Bytes, payload: Bytes, rest: Bytes)
    requires |topic| < 65536 && |PublishBody(qos, id, topic, payload)| <= MAX_REMAINING_LENGTH
    ensures var body := PublishBody(qos, id, topic, payload);
            var s := [h] + Encoded(|body|) + body + rest;
            var idAt := BodyStart(s) + 2 + |topic|;
            var payloadAt := if qos > 0 then idAt + 2 else idAt;
            && WholePacket(s) && s[0] == h
            && PacketEnd(s) == |[h] + Encoded(|body|) + body| == payloadAt + |payload|
            && ReadString(s, BodyStart(s), PacketEnd(s)) == GotString(topic, idAt)
            && (qos > 0 ==> s[idAt..payloadAt] == BigEndian(id))
            && s[payloadAt..PacketEnd(s)] == payload
  {
    hide Encoded, FieldAt, StringBytes, ReadString, BigEndian;
    var body := PublishBody(qos, id, topic, payload);
    var s := [h] + Encoded(|body|) + body + rest;
    FixedHeader(h, body, rest);
    var idBytes: Bytes := if qos > 0 then BigEndian(id) else [];
    var pre := [h] + Encoded(|body|);
    var start, idAt := |pre|, |pre| + 2 + |topic|;
    assert body == StringBytes(topic) + (idBytes + payload);
    SplitSlice(s, start, PacketEnd(s), StringBytes(topic), idBytes + payload);
    ReadStringAt(s, start, PacketEnd(s), topic);
    SplitSlice(s, idAt, PacketEnd(s), idBytes, payload);
  }

  lemma PublishParsed(dup: byte, qos: int, retained: byte, id: u16, topic: Bytes, payload: Bytes, rest: Bytes)
    requires 0 <= qos < 4
    requires |topic| < 65536
    requires |PublishBody(qos, id, topic, payload)| <= MAX_REMAINING_LENGTH
    ensures var packet := PublishBytes(dup, qos, retained, id, topic, payload);
            var s := packet + rest;
            var idAt := BodyStart(s) + 2 + |topic|;
            var payloadAt := if qos > 0 then idAt + 2 else idAt;
            && WholePacket(s)
            && PacketEnd(s) == |packet| == payloadAt + |payload|
            && ParsePublish(s) == Accepted(dup % 2, qos, retained % 2, topic, idAt, payloadAt, |payload|)
            && (qos > 0 ==> s[idAt..payloadAt] == BigEndian(id))
            && s[payloadAt..PacketEnd(s)] == payload
  {
    hide Encoded, FieldAt, Header, StringBytes, ReadString, BigEndian, TypeOf, DupOf, QosOf, RetainOf, PublishBody;
    var h: byte := Header(PUBLISH, dup, qos % 4, retained);
    HeaderFields(PUBLISH, dup, qos % 4, retained);
    PublishLaidOut(h, qos, id, topic, payload, rest);
  }

  /** Every publish with a topic the length bytes can hold is recovered exactly, at every QoS. */
  lemma PublishRoundTrip(dup: byte, qos: int, retained: byte, id: u16, topic: Bytes, payload: Bytes, rest: Bytes)
    requires 0 <= qos < 4
    requires |topic| < 65536
    requires |PublishBody(qos, id, topic, payload)| <= MAX_REMAINING_LENGTH
    ensures var packet := PublishBytes(dup, qos, retained, id, topic, payload);
            var s := packet + rest;
            && WholePacket(s)
            && PacketEnd(s) == |packet|
            && ParsePublish(s).Accepted?
            && (ParsePublish(s).dup, ParsePublish(s).qos, ParsePublish(s).retained) == (dup % 2, qos, retained % 2)
            && ParsePublish(s).topic == topic
            && PublishPayload(s) == payload
            && PublishId(s) == if qos > 0 then id else 0
  {
    hide PublishBytes, ParsePublish, WholePacket, PacketEnd, BodyStart, BigEndian;
    var s := PublishBytes(dup, qos, retained, id, topic, payload) + rest;
    PublishParsed(dup, qos, retained, id, topic, payload, rest);
    if qos > 0 {
      WordAt(s, BodyStart(s) + 2 + |topic|, id);
    }
  }

  // ----- Acknowledgements -----

  /** PUBACK, PUBREC, PUBREL, PUBCOMP (and UNSUBACK): fixed header and packet id. */
  function AckBytes(packetType: byte, dup: byte, id: u16): Bytes {
    [Header(packetType, dup, if packetType == PUBREL then 1 else 0, 0), 2] + BigEndian(id)
  }

  /** MQTTSerialize_ack. */
  method SerializeAck(buf: array<byte>, buflen: nat, packetType: byte, dup: byte, id: u16) returns (rc: int)
    requires buflen <= buf.Length
    modifies buf
    ensures if buflen < 4 then rc == MQTTPACKET_BUFFER_TOO_SHORT && buf[..] == old(buf[..])
            else rc == 4 && buf[..4] == AckBytes(packetType, dup, id)
                 && forall i :: 4 <= i < buf.Length ==> buf[i] == old(buf[i])
  {
    hide Header, BigEndian;
    if buflen < 4 {
      return MQTTPACKET_BUFFER_TOO_SHORT;
    }
    var h: byte := Header(packetType, dup, if packetType == PUBREL then 1 else 0, 0);
    var ptr := WriteFixedHeader(buf, h, 2);
    ptr := WriteInt(buf, ptr, id);
    rc := ptr;
  }

  /** A packet of this shape holds an id when at least two bytes follow the fixed header. */
  predicate HoldsId(s: Bytes)
    requires WholePacket(s)
  {
    PacketEnd(s) - BodyStart(s) >= 2
  }

  function AckId(s: Bytes): u16
    requires WholePacket(s) && HoldsId(s)
  {
    Word16(s[BodyStart(s)], s[BodyStart(s) + 1])
  }

  /**
   MQTTDeserialize_ack. When the packet is too short to hold an id the return code is the size of its length
   field, and the id is whatever the caller's variable held.
   */
  method DeserializeAck(buf: array<byte>) returns (rc: nat, packetType: byte, dup: byte, id: u16)
    requires WholePacket(buf[..])
    ensures packetType == TypeOf(buf[0]) && dup == DupOf(buf[0])
    ensures if HoldsId(buf[..]) then rc == 1 && id == AckId(buf[..]) else rc == BodyStart(buf[..]) - 1
  {
    id := *;
    dup, packetType := DupOf(buf[0]), TypeOf(buf[0]);
    var mylen;
    rc, mylen := DecodeBuf(buf, 1);
    var curdata := 1 + rc;
    var enddata := curdata + mylen;
    if enddata - curdata < 2 {
      return;
    }
    id, curdata := ReadInt(buf, curdata);
    rc := 1;
  }

  lemma AckRoundTrip(packetType: byte, dup: byte, id: u16, rest: Bytes)
    requires packetType < 16
    ensures var s := AckBytes(packetType, dup, id) + rest;
            WholePacket(s) && PacketEnd(s) == 4 && HoldsId(s)
            && TypeOf(s[0]) == packetType && DupOf(s[0]) == dup % 2 && AckId(s) == id
            && QosOf(s[0]) == (if packetType == PUBREL then 1 else 0) && RetainOf(s[0]) == 0
  {
    hide Header;
    var h: byte := Header(packetType, dup, if packetType == PUBREL then 1 else 0, 0);
    var s := AckBytes(packetType, dup, id) + rest;
    HeaderFields(packetType, dup, if packetType == PUBREL then 1 else 0, 0);
    FixedHeader(h, BigEndian(id), rest);
    assert Encoded(2) == [2];
    assert s == [h] + Encoded(2) + BigEndian(id) + rest;
    WordAt(s, 2, id);
  }

  // ----- A packet taken out of the buffer it came in -----

  lemma {:induction false} FieldOfPrefix(s: Bytes, p: Bytes, pos: nat, fuel: nat)
    requires p <= s
    requires FieldAt(s, pos, fuel).complete && pos + FieldAt(s, pos, fuel).len <= |p|
    ensures FieldAt(p, pos, fuel) == FieldAt(s, pos, fuel)
    decreases fuel
  {
    assert p[pos] == s[pos];
    if s[pos] >= 128 {
      FieldOfPrefix(s, p, pos + 1, fuel - 1);
    }
  }

  lemma ReadStringOfPrefix(s: Bytes, end: nat, start: nat)
    requires start <= end <= |s|
    ensures ReadString(s[..end], start, end) == ReadString(s, start, end)
  {
    var p := s[..end];
    if start + 2 <= end {
      var len := Word16(s[start], s[start + 1]);
      if start + 2 + len <= end {
        assert p[start + 2..start + 2 + len] == s[start + 2..start + 2 + len];
      }
    }
  }

  /** What lies behind a packet in the buffer makes no difference to what is read from the packet. */
  lemma ImageParses(s: Bytes)
    requires WholePacket(s)
    ensures var p := s[..PacketEnd(s)];
            && p != [] && p[0] == s[0]
            && WholePacket(p) && BodyStart(p) == BodyStart(s) && PacketEnd(p) == PacketEnd(s) == |p|
            && ParsePublish(p) == ParsePublish(s)
            && (HoldsId(p) <==> HoldsId(s))
            && (HoldsId(s) ==> AckId(p) == AckId(s))
            && PublishId(p) == PublishId(s) && PublishPayload(p) == PublishPayload(s)
  {
    hide FieldAt, ReadString;
    var p := s[..PacketEnd(s)];
    FieldOfPrefix(s, p, 1, MAX_LENGTH_BYTES);
    var start, end := BodyStart(s), PacketEnd(s);
    ReadStringOfPrefix(s, end, start);
    match ParsePublish(s) {
      case Rejected(_) =>
      case Accepted(_, qos, _, _, idAt, at, len) =>
        if len >= 0 {
          assert p[at..at + len] == s[at..at + len];
        }
    }
  }
}
