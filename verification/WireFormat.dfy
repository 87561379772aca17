/**
 The packets byte by byte, as sections 2 and 3 of MQTT 3.1.1 draw them. A field that writer and reader had both
 misplaced would still make the round trip; it would not stand where these say.
 */
module WireFormat {
  import opened Base
  import opened RemainingLength
  import opened PacketIO
  import opened PublishPacket
  import opened SubscribePacket
  import opened ConnectPacket

  /** Two bytes, the high one first. */
  function Word(n: u16): Bytes { [n / 256, n % 256] }

  /** Table 2.2 and the figures of section 3: the first byte of each packet but PUBLISH. */
  lemma FirstBytes()
    ensures Header(CONNECT, 0, 0, 0) == 0x10 && Header(CONNACK, 0, 0, 0) == 0x20
    ensures Header(PUBACK, 0, 0, 0) == 0x40 && Header(PUBREC, 0, 0, 0) == 0x50
    ensures Header(PUBREL, 0, 1, 0) == 0x62 && Header(PUBCOMP, 0, 0, 0) == 0x70
    ensures Header(SUBSCRIBE, 0, 1, 0) == 0x82 && Header(SUBACK, 0, 0, 0) == 0x90
    ensures Header(UNSUBSCRIBE, 0, 1, 0) == 0xA2 && Header(UNSUBACK, 0, 0, 0) == 0xB0
    ensures Header(PINGREQ, 0, 0, 0) == 0xC0 && Header(DISCONNECT, 0, 0, 0) == 0xE0
  {
    hide Header;
    forall t, qos: nat | 0 <= t < 16 && qos < 2 ensures Header(t, 0, qos, 0) == 16 * t + 2 * qos {
      FirstByte(t, qos);
    }
  }

  lemma FirstByte(t: nat, qos: nat)
    requires t < 16 && qos < 2
    ensures Header(t, 0, qos, 0) == 16 * t + 2 * qos
  {
  }

  /** Table 2.4: the least and the greatest value for each size of the remaining length. */
  lemma LengthSizes()
    ensures Encoded(0) == [0x00] && Encoded(127) == [0x7F]
    ensures Encoded(128) == [0x80, 0x01] && Encoded(16383) == [0xFF, 0x7F]
    ensures Encoded(16384) == [0x80, 0x80, 0x01] && Encoded(2097151) == [0xFF, 0xFF, 0x7F]
    ensures Encoded(2097152) == [0x80, 0x80, 0x80, 0x01] && Encoded(268435455) == [0xFF, 0xFF, 0xFF, 0x7F]
  {
    assert Encoded(127) == [0x7F] && Encoded(1) == [0x01];
    assert Encoded(16383) == [0xFF] + Encoded(127) && Encoded(128) == [0x80] + Encoded(1);
    assert Encoded(2097151) == [0xFF] + Encoded(16383) && Encoded(16384) == [0x80] + Encoded(128);
    assert Encoded(268435455) == [0xFF] + Encoded(2097151) && Encoded(2097152) == [0x80] + Encoded(16384);
  }

  lemma PublishDrawn(dup: byte, qos: byte, retained: byte, id: u16, topic: Bytes, payload: Bytes)
    requires dup < 2 && qos < 3 && retained < 2 && |topic| < 65536
    ensures var n := 2 + |topic| + (if qos > 0 then 2 else 0) + |payload|;
            PublishBytes(dup, qos, retained, id, topic, payload) ==
            [0x30 + 8 * dup + 2 * qos + retained] + Encoded(n) + Word(|topic|) + topic
            + (if qos > 0 then Word(id) else []) + payload
  {
    hide Encoded, Header;
    FirstByteOfPublish(dup, qos, retained);
    var body := PublishBody(qos, id, topic, payload);
    assert StringBytes(topic) == Word(|topic|) + topic;
    assert body == Word(|topic|) + topic + (if qos > 0 then Word(id) else []) + payload;
    assert |body| == 2 + |topic| + (if qos > 0 then 2 else 0) + |payload|;
  }

  lemma FirstByteOfPublish(dup: byte, qos: byte, retained: byte)
    requires dup < 2 && qos < 3 && retained < 2
    ensures Header(PUBLISH, dup, qos % 4, retained) == 0x30 + 8 * dup + 2 * qos + retained
  {
  }

  lemma AcksDrawn(id: u16)
    ensures AckBytes(PUBACK, 0, id) == [0x40, 2] + Word(id)
    ensures AckBytes(PUBREC, 0, id) == [0x50, 2] + Word(id)
    ensures AckBytes(PUBREL, 0, id) == [0x62, 2] + Word(id)
    ensures AckBytes(PUBCOMP, 0, id) == [0x70, 2] + Word(id)
    ensures AckBytes(UNSUBACK, 0, id) == [0xB0, 2] + Word(id)
  {
    hide Header;
    FirstBytes();
  }

  /** A string with its two length bytes. */
  function Drawn(x: Bytes): Bytes
    requires |x| < 65536
  {
    Word(|x|) + x
  }

  lemma StringDrawn(x: Bytes)
    requires |x| < 65536
    ensures StringBytes(x) == Drawn(x)
  {
  }

  lemma EntriesDrawn(f: Bytes, p: byte, g: Bytes, q: byte, withQos: bool)
    requires |f| < 65536 && |g| < 65536
    ensures var a := Drawn(f) + if withQos then [p] else [];
            var b := Drawn(g) + if withQos then [q] else [];
            && EntriesFrom([Entry(f, p)], 0, withQos) == a
            && EntriesFrom([Entry(f, p), Entry(g, q)], 0, withQos) == a + b
  {
    hide StringBytes, Drawn;
    StringDrawn(f);
    StringDrawn(g);
    var one, two := [Entry(f, p)], [Entry(f, p), Entry(g, q)];
    assert EntriesFrom(one, 1, withQos) == [] && EntriesFrom(two, 2, withQos) == [];
    assert EntriesFrom(two, 1, withQos) == EntryBytes(two[1], withQos);
  }

  lemma ListDrawn(id: u16, es: seq<Entry>, withQos: bool, payload: Bytes)
    requires EntriesFrom(es, 0, withQos) == payload
    ensures ListBytes(if withQos then SUBSCRIBE else UNSUBSCRIBE, 0, id, es, withQos) ==
            [if withQos then 0x82 else 0xA2] + Encoded(2 + |payload|) + (Word(id) + payload)
  {
    hide Encoded, EntriesFrom, Header;
    FirstBytes();
  }

  /** Lists of one filter and of two: the id, then each filter, in a SUBSCRIBE with its QoS after it. */
  lemma ListsDrawn(id: u16, f: Bytes, p: byte, g: Bytes, q: byte)
    requires |f| < 65536 && |g| < 65536
    ensures SubscribeBytes(0, id, [Entry(f, p)]) == [0x82] + Encoded(5 + |f|) + (Word(id) + (Drawn(f) + [p]))
    ensures SubscribeBytes(0, id, [Entry(f, p), Entry(g, q)]) ==
            [0x82] + Encoded(8 + |f| + |g|) + (Word(id) + (Drawn(f) + [p] + (Drawn(g) + [q])))
    ensures UnsubscribeBytes(0, id, [Entry(f, p)]) == [0xA2] + Encoded(4 + |f|) + (Word(id) + Drawn(f))
    ensures UnsubscribeBytes(0, id, [Entry(f, p), Entry(g, q)]) ==
            [0xA2] + Encoded(6 + |f| + |g|) + (Word(id) + (Drawn(f) + Drawn(g)))
  {
    hide Encoded, EntriesFrom, ListBytes;
    EntriesDrawn(f, p, g, q, true);
    EntriesDrawn(f, p, g, q, false);
    assert Drawn(f) + [] == Drawn(f) && Drawn(g) + [] == Drawn(g);
    ListDrawn(id, [Entry(f, p)], true, Drawn(f) + [p]);
    ListDrawn(id, [Entry(f, p), Entry(g, q)], true, Drawn(f) + [p] + (Drawn(g) + [q]));
    ListDrawn(id, [Entry(f, p)], false, Drawn(f));
    ListDrawn(id, [Entry(f, p), Entry(g, q)], false, Drawn(f) + Drawn(g));
  }

  lemma AnswersDrawn(id: u16, granted: seq<byte>, returnCode: byte, sessionPresent: byte)
    requires sessionPresent < 2
    ensures SubackBytes(id, granted) == [0x90] + Encoded(2 + |granted|) + Word(id) + granted
    ensures ConnackBytes(returnCode, sessionPresent) == [0x20, 2, sessionPresent, returnCode]
  {
    hide Encoded, Header;
    FirstBytes();
  }

  /** The CONNECT packet of version 4 with all its strings, and with none but the client id; the flags bit by bit. */
  lemma ConnectDrawn(o: ConnectData)
    requires o.version == 4 && o.cleanSession < 2 && o.will.qos < 3 && o.will.retained < 2 && ShortStrings(PayloadOf(o))
    ensures ConnectBytes(o) == [0x10] + Encoded(|ConnectBody(o)|) + ConnectBody(o)
    ensures var flags := 0xC4 + 2 * o.cleanSession + 8 * o.will.qos + 32 * o.will.retained;
            var p := PayloadOf(o);
            o.willFlag != 0 && p.username.Some? && p.password.Some? ==>
              ConnectBody(o) ==
              [0, 4, 77, 81, 84, 84, 4, flags] + Word(o.keepAlive)
              + (Drawn(p.clientId)
                 + (Drawn(p.will.value.0)
                    + (Drawn(p.will.value.1) + (Drawn(p.username.value) + Drawn(p.password.value)))))
    ensures var p := PayloadOf(o);
            o.willFlag == 0 && p.username.None? && p.password.None? ==>
              ConnectBody(o) ==
              [0, 4, 77, 81, 84, 84, 4, 2 * o.cleanSession] + Word(o.keepAlive) + Drawn(p.clientId)
  {
    hide Encoded, Content, StringBytes, Drawn, Header;
    FirstBytes();
    var p, flags := PayloadOf(o), ConnectFlags(o);
    assert VariableHeader(4, flags, o.keepAlive) == [0, 4, 77, 81, 84, 84, 4, flags] + Word(o.keepAlive) by {
      NameDrawn();
    }
    StringDrawn(p.clientId);
    if p.will.Some? {
      StringDrawn(p.will.value.0);
      StringDrawn(p.will.value.1);
    }
    if p.username.Some? {
      StringDrawn(p.username.value);
    }
    if p.password.Some? {
      StringDrawn(p.password.value);
    }
  }

  lemma NameDrawn()
    ensures StringBytes(NameOf(4)) == [0, 4, 77, 81, 84, 84]
  {
  }
}
