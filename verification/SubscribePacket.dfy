/**
 SUBSCRIBE, SUBACK, UNSUBSCRIBE and UNSUBACK, both halves (MQTTSubscribeClient.c, MQTTSubscribeServer.c,
 MQTTUnsubscribeClient.c, MQTTUnsubscribeServer.c; sections 3.8 to 3.11 of MQTT 3.1.1).
 */
module SubscribePacket {
  import opened Base
  import opened RemainingLength
  import opened PacketIO
  import opened PublishPacket

  /** One topic filter with its requested QoS. */
  datatype Entry = Entry(filter: Bytes, qos: byte)

  /** The entries of a SUBSCRIBE payload on the wire; an UNSUBSCRIBE payload leaves the QoS bytes out. */
  function EntryBytes(e: Entry, withQos: bool): (r: Bytes)
    ensures |r| >= 2
  {
    StringBytes(e.filter) + if withQos then [e.qos] else []
  }

  function EntriesFrom(es: seq<Entry>, i: nat, withQos: bool): Bytes
    requires i <= |es|
    decreases |es| - i
  {
    if i == |es| then [] else EntryBytes(es[i], withQos) + EntriesFrom(es, i + 1, withQos)
  }

  function ListBody(id: u16, es: seq<Entry>, withQos: bool): Bytes {
    BigEndian(id) + EntriesFrom(es, 0, withQos)
  }

  function ListBytes(packetType: byte, dup: byte, id: u16, es: seq<Entry>, withQos: bool): Bytes {
    var body := ListBody(id, es, withQos);
    [Header(packetType, dup, 1, 0)] + Encoded(|body|) + body
  }

  function SubscribeBytes(dup: byte, id: u16, es: seq<Entry>): Bytes { ListBytes(SUBSCRIBE, dup, id, es, true) }

  function UnsubscribeBytes(dup: byte, id: u16, es: seq<Entry>): Bytes { ListBytes(UNSUBSCRIBE, dup, id, es, false) }

  /** The list parser: what is found from `pos`, or nothing if an entry is cut off or there are more than `room`. */
  function ParseEntries(s: Bytes, pos: nat, end: nat, room: Option<nat>, withQos: bool): Option<seq<Entry>>
    requires end <= |s|
    decreases end - pos
  {
    if pos >= end then Some([])
    else if room == Some(0) then None
    else
      match ReadString(s, pos, end)
      case NoString => None
      case GotString(text, next) =>
        if withQos && next >= end then None
        else
          var after := if withQos then next + 1 else next;
          var room' := if room.Some? then Some(room.value - 1) else None;
          match ParseEntries(s, after, end, room', withQos)
          case None => None
          case Some(es) => Some([Entry(text, if withQos then s[next] else 0)] + es)
  }

  // ----- Serialising -----

  /** The filters and QoS values of a call, as entries: QoS values keep their low byte. */
  function Entries(filters: seq<MqttString>, qoss: seq<int>): (es: seq<Entry>)
    requires |filters| == |qoss|
    ensures |es| == |filters|
  {
    seq(|filters|, i requires 0 <= i < |filters| => Entry(Content(filters[i]), qoss[i] % 256))
  }

  /** MQTTSerialize_subscribeLength and MQTTSerialize_unsubscribeLength, from entry `i` on. */
  function LengthFrom(filters: seq<MqttString>, i: nat, withQos: bool): nat
    requires i <= |filters|
    decreases |filters| - i
  {
    if i == |filters| then 0
    else 2 + StrLen(filters[i]) + (if withQos then 1 else 0) + LengthFrom(filters, i + 1, withQos)
  }

  lemma {:induction false} LengthIsWritten(filters: seq<MqttString>, qoss: seq<int>, i: nat, withQos: bool)
    requires i <= |filters| == |qoss|
    requires forall k :: 0 <= k < |filters| ==> OneLength(filters[k])
    ensures LengthFrom(filters, i, withQos) == |EntriesFrom(Entries(filters, qoss), i, withQos)|
    decreases |filters| - i
  {
    if i < |filters| {
      LengthIsWritten(filters, qoss, i + 1, withQos);
      StrLenIsWritten(filters[i]);
    }
  }

  /** The length loop of both client halves. */
  method ListLength(filters: seq<MqttString>, withQos: bool) returns (len: nat)
    ensures len == 2 + LengthFrom(filters, 0, withQos)
  {
    len := 2;
    for i := 0 to |filters|
      invariant len + LengthFrom(filters, i, withQos) == 2 + LengthFrom(filters, 0, withQos)
    {
      len := len + 2 + StrLen(filters[i]) + if withQos then 1 else 0;
    }
  }

  /** MQTTSerialize_subscribe (`withQos`) and MQTTSerialize_unsubscribe, which differ in the type and the QoS bytes. */
  method SerializeList(buf: array<byte>, buflen: nat, packetType: byte, dup: byte, id: u16,
                       filters: seq<MqttString>, qoss: seq<int>, withQos: bool) returns (rc: int)
    requires buflen <= buf.Length
    requires |filters| == |qoss|
    requires forall k :: 0 <= k < |filters| ==> OneLength(filters[k])
    requires AllowedOrRefused(2 + LengthFrom(filters, 0, withQos), buflen)
    modifies buf
    ensures var packet := ListBytes(packetType, dup, id, Entries(filters, qoss), withQos);
            var remLen := 2 + LengthFrom(filters, 0, withQos);
            if PacketLen(remLen) > buflen then
              rc == MQTTPACKET_BUFFER_TOO_SHORT && buf[..] == old(buf[..])
            else
              && rc == |packet| == TrueLen(remLen) <= buflen
              && buf[..rc] == packet
              && forall i :: rc <= i < buf.Length ==> buf[i] == old(buf[i])
  {
    hide Encoded, Header, BigEndian, OneLength, LengthFrom;
    ghost var es := Entries(filters, qoss);
    LengthIsWritten(filters, qoss, 0, withQos);
    var remLen := ListLength(filters, withQos);
    var size := Len(remLen);
    if size > buflen {
      return MQTTPACKET_BUFFER_TOO_SHORT;
    }
    ghost var body := ListBody(id, es, withQos);
    ghost var total := 1 + |Encoded(remLen)| + |body|;
    assert |body| == remLen;
    var h: byte := Header(packetType, dup, 1, 0);
    var ptr := WriteFixedHeader(buf, h, remLen);
    ptr := WriteInt(buf, ptr, id);
    ptr := WriteEntries(buf, ptr, filters, qoss, withQos);
    rc := ptr;
    assert buf[..rc] == [h] + Encoded(remLen) + body;
  }

  /** The write loop of both client halves. */
  method WriteEntries(buf: array<byte>, pos: nat, filters: seq<MqttString>, qoss: seq<int>, withQos: bool)
    returns (next: nat)
    requires |filters| == |qoss|
    requires pos + |EntriesFrom(Entries(filters, qoss), 0, withQos)| <= buf.Length
    modifies buf
    ensures next == pos + |EntriesFrom(Entries(filters, qoss), 0, withQos)|
    ensures buf[..next] == old(buf[..pos]) + EntriesFrom(Entries(filters, qoss), 0, withQos)
    ensures forall i :: next <= i < buf.Length ==> buf[i] == old(buf[i])
  {
    hide StringBytes, Content;
    ghost var es := Entries(filters, qoss);
    ghost var all := EntriesFrom(es, 0, withQos);
    next := pos;
    for i := 0 to |filters|
      invariant pos <= next && next + |EntriesFrom(es, i, withQos)| == pos + |all|
      invariant buf[..next] + EntriesFrom(es, i, withQos) == old(buf[..pos]) + all
      invariant forall k :: next <= k < buf.Length ==> buf[k] == old(buf[k])
    {
      ghost var before := buf[..next];
      next := WriteMqttString(buf, next, filters[i]);
      if withQos {
        next := WriteChar(buf, next, qoss[i] % 256);
      }
      assert buf[..next] == before + EntryBytes(es[i], withQos);
      assert buf[..next] + EntriesFrom(es, i + 1, withQos)
          == before + (EntryBytes(es[i], withQos) + EntriesFrom(es, i + 1, withQos));
    }
  }

  // ----- Deserialising -----

  /**
   MQTTDeserialize_subscribe and MQTTDeserialize_unsubscribe. The first refuses more than `maxcount` entries and
   reports every failure as a read error; the second never looks at `maxcount` and, when a filter is cut off,
   returns the size of the length field.
   */
  method DeserializeList(buf: array<byte>, packetType: byte, maxcount: nat, withQos: bool)
    returns (rc: int, dup: byte, id: u16, entries: seq<Entry>)
    requires WholePacket(buf[..])
    ensures var s := buf[..];
            var failed := if withQos then MQTTPACKET_READ_ERROR else BodyStart(s) - 1;
            var room := if withQos then Some(maxcount) else None;
            if TypeOf(s[0]) != packetType then rc == (if withQos then MQTTPACKET_READ_ERROR else 0)
            else
              && dup == DupOf(s[0])
              && (BodyStart(s) + 2 <= |s| ==> id == Word16(s[BodyStart(s)], s[BodyStart(s) + 1]))
              && match ParseEntries(s, BodyStart(s) + 2, PacketEnd(s), room, withQos)
                 case None => rc == failed
                 case Some(es) => rc == 1 && entries == es
  {
    hide FieldAt, ReadString;
    ghost var s := buf[..];
    dup, id, entries := *, *, [];
    rc := if withQos then MQTTPACKET_READ_ERROR else 0;
    if TypeOf(buf[0]) != packetType {
      return;
    }
    dup := DupOf(buf[0]);
    var n, mylen := DecodeBuf(buf, 1);
    rc := if withQos then MQTTPACKET_READ_ERROR else n;
    var curdata := 1 + n;
    var enddata := curdata + mylen;
    id, curdata := ReadInt(buf, curdata);
    entries := [];
    ghost var room := if withQos then Some(maxcount) else None;
    ghost var all := ParseEntries(s, curdata, enddata, room, withQos);
    assert all.Some? ==> [] + all.value == all.value;
    while curdata < enddata
      invariant withQos ==> room.Some? && |entries| + room.value == maxcount
      invariant !withQos ==> room.None?
      invariant var rest := ParseEntries(s, curdata, enddata, room, withQos);
                if rest.None? then all.None? else all == Some(entries + rest.value)
      decreases if curdata < enddata then enddata - curdata else 0
    {
      if withQos && |entries| == maxcount {
        return;
      }
      var r := ReadMqttLenString(buf, curdata, enddata);
      if r.NoString? {
        return;
      }
      curdata := r.next;
      var qos: byte := 0;
      if withQos {
        if curdata >= enddata {
          return;
        }
        qos := ReadChar(buf, curdata);
        curdata := curdata + 1;
        room := Some(room.value - 1);
      }
      ghost var rest := ParseEntries(s, curdata, enddata, room, withQos);
      assert rest.Some? ==>
          entries + ([Entry(r.text, qos)] + rest.value) == (entries + [Entry(r.text, qos)]) + rest.value;
      entries := entries + [Entry(r.text, qos)];
    }
    assert entries + [] == entries;
    rc := 1;
  }

  /** One written entry, followed by `tail`, reads back. */
  lemma ReadEntry(s: Bytes, pos: nat, end: nat, e: Entry, tail: Bytes, withQos: bool)
    requires pos <= end <= |s|
    requires s[pos..end] == EntryBytes(e, withQos) + tail
    requires |e.filter| < 65536
    ensures var next := pos + 2 + |e.filter|;
            var after := pos + |EntryBytes(e, withQos)|;
            && after == end - |tail|
            && ReadString(s, pos, end) == GotString(e.filter, next)
            && (withQos ==> next < end && s[next] == e.qos)
            && s[after..end] == tail
  {
    hide StringBytes, ReadString;
    var q: Bytes := if withQos then [e.qos] else [];
    var next := pos + 2 + |e.filter|;
    assert s[pos..end] == StringBytes(e.filter) + (q + tail);
    SplitSlice(s, pos, end, StringBytes(e.filter), q + tail);
    ReadStringAt(s, pos, end, e.filter);
    SplitSlice(s, next, end, q, tail);
    assert withQos ==> s[next] == s[next..next + 1][0];
  }

  /** The list parser recovers a written list of any length that fits, in order. */
  lemma {:induction false} ParseWritten(s: Bytes, pos: nat, end: nat, es: seq<Entry>, i: nat, room: Option<nat>,
                                        withQos: bool)
    requires i <= |es| && pos <= end <= |s|
    requires s[pos..end] == EntriesFrom(es, i, withQos)
    requires forall k :: 0 <= k < |es| ==> |es[k].filter| < 65536 && (!withQos ==> es[k].qos == 0)
    requires room.Some? ==> |es| - i <= room.value
    ensures ParseEntries(s, pos, end, room, withQos) == Some(es[i..])
    decreases |es| - i
  {
    hide ReadString, StringBytes;
    if i < |es| {
      var after := pos + |EntryBytes(es[i], withQos)|;
      ReadEntry(s, pos, end, es[i], EntriesFrom(es, i + 1, withQos), withQos);
      ParseWritten(s, after, end, es, i + 1, if room.Some? then Some(room.value - 1) else None, withQos);
      assert es[i..] == [es[i]] + es[i + 1..];
    }
  }

  /** SUBSCRIBE and UNSUBSCRIBE: every list that fits the packet and the table is recovered with its count and order. */
  lemma ListRoundTrip(packetType: byte, dup: byte, id: u16, es: seq<Entry>, maxcount: nat, withQos: bool, rest: Bytes)
    requires packetType < 16
    requires forall k :: 0 <= k < |es| ==> |es[k].filter| < 65536 && (!withQos ==> es[k].qos == 0)
    requires withQos ==> |es| <= maxcount
    requires |ListBody(id, es, withQos)| <= MAX_REMAINING_LENGTH
    ensures var packet := ListBytes(packetType, dup, id, es, withQos);
            var s := packet + rest;
            && WholePacket(s)
            && PacketEnd(s) == |packet|
            && TypeOf(s[0]) == packetType && DupOf(s[0]) == dup % 2 && QosOf(s[0]) == 1 && RetainOf(s[0]) == 0
            && HoldsId(s) && AckId(s) == id
            && ParseEntries(s, BodyStart(s) + 2, PacketEnd(s), if withQos then Some(maxcount) else None, withQos)
               == Some(es)
  {
    hide Encoded, FieldAt, Header, BigEndian, TypeOf, DupOf, QosOf, RetainOf, ParseEntries, EntriesFrom;
    var h: byte := Header(packetType, dup, 1, 0);
    var body := ListBody(id, es, withQos);
    var s := ListBytes(packetType, dup, id, es, withQos) + rest;
    HeaderFields(packetType, dup, 1, 0);
    FixedHeader(h, body, rest);
    var start := BodyStart(s);
    SplitSlice(s, start, PacketEnd(s), BigEndian(id), EntriesFrom(es, 0, withQos));
    WordAt(s, start, id);
    ParseWritten(s, start + 2, PacketEnd(s), es, 0, if withQos then Some(maxcount) else None, withQos);
    assert es[0..] == es;
  }

  // ----- SUBACK -----

  /** SUBACK on the wire; each granted QoS keeps its low byte. */
  function SubackBytes(id: u16, granted: seq<byte>): Bytes {
    [Header(SUBACK, 0, 0, 0)] + Encoded(2 + |granted|) + BigEndian(id) + granted
  }

  /**
   MQTTSerialize_suback. Its size check counts only what follows the fixed header, so the bytes written stay
   inside `buflen` exactly when there is room for the fixed header as well.
   */
  method SerializeSuback(buf: array<byte>, buflen: nat, id: u16, granted: seq<byte>) returns (rc: int)
    requires |SubackBytes(id, granted)| <= buf.Length
    modifies buf
    ensures if buflen < 2 + |granted| then rc == MQTTPACKET_BUFFER_TOO_SHORT && buf[..] == old(buf[..])
            else
              && rc == |SubackBytes(id, granted)|
              && buf[..rc] == SubackBytes(id, granted)
              && forall i :: rc <= i < buf.Length ==> buf[i] == old(buf[i])
    ensures rc > 0 ==> (rc <= buflen <==> TrueLen(2 + |granted|) <= buflen)
  {
    hide Encoded, Header, BigEndian;
    if buflen < 2 + |granted| {
      return MQTTPACKET_BUFFER_TOO_SHORT;
    }
    var h: byte := Header(SUBACK, 0, 0, 0);
    var ptr := WriteFixedHeader(buf, h, 2 + |granted|);
    ptr := WriteInt(buf, ptr, id);
    ghost var start, before := ptr, buf[..ptr];
    for i := 0 to |granted|
      invariant ptr == start + i
      invariant buf[..ptr] == before + granted[..i]
      invariant forall k :: ptr <= k < buf.Length ==> buf[k] == old(buf[k])
    {
      ptr := WriteChar(buf, ptr, granted[i]);
      assert granted[..i + 1] == granted[..i] + [granted[i]];
    }
    assert granted[..|granted|] == granted;
    rc := ptr;
  }

  /**
   MQTTSerialize_unsuback. The guard asks for two bytes and the packet has four: it comes out longer than `buflen`
   exactly for buffers of two and three bytes.
   */
  method SerializeUnsuback(buf: array<byte>, buflen: nat, id: u16) returns (rc: int)
    requires buflen >= 2 ==> 4 <= buf.Length
    modifies buf
    ensures if buflen < 2 then rc == MQTTPACKET_BUFFER_TOO_SHORT && buf[..] == old(buf[..])
            else rc == 4 && buf[..4] == AckBytes(UNSUBACK, 0, id)
                 && forall i :: 4 <= i < buf.Length ==> buf[i] == old(buf[i])
    ensures rc > buflen <==> buflen in {2, 3}
  {
    hide Header, BigEndian;
    if buflen < 2 {
      return MQTTPACKET_BUFFER_TOO_SHORT;
    }
    var h: byte := Header(UNSUBACK, 0, 0, 0);
    var ptr := WriteFixedHeader(buf, h, 2);
    ptr := WriteInt(buf, ptr, id);
    rc := ptr;
  }

  /**
   MQTTDeserialize_suback. The loop tests `count > maxcount` before storing, so it accepts one entry more than
   `maxcount`.
   */
  method DeserializeSuback(buf: array<byte>, maxcount: nat) returns (rc: int, id: u16, granted: seq<byte>)
    requires WholePacket(buf[..])
    ensures var s := buf[..];
            if TypeOf(s[0]) != SUBACK then rc == 0
            else if !HoldsId(s) then rc == BodyStart(s) - 1 && granted == []
            else
              && id == AckId(s)
              && var list := s[BodyStart(s) + 2..PacketEnd(s)];
                 if |list| > maxcount + 1 then rc == -1 else rc == 1 && granted == list
  {
    hide FieldAt;
    id, granted := *, [];
    rc := 0;
    if TypeOf(buf[0]) != SUBACK {
      return;
    }
    var mylen;
    rc, mylen := DecodeBuf(buf, 1);
    var curdata := 1 + rc;
    var enddata := curdata + mylen;
    if enddata - curdata < 2 {
      return;
    }
    id, curdata := ReadInt(buf, curdata);
    ghost var start := curdata;
    while curdata < enddata
      invariant start <= curdata <= enddata <= buf.Length
      invariant granted == buf[start..curdata]
      invariant |granted| <= maxcount + 1
    {
      if |granted| > maxcount {
        rc := -1;
        return;
      }
      var c := ReadChar(buf, curdata);
      granted := granted + [c];
      curdata := curdata + 1;
    }
    rc := 1;
  }

  lemma SubackRoundTrip(id: u16, granted: seq<byte>, rest: Bytes)
    requires 2 + |granted| <= MAX_REMAINING_LENGTH
    ensures var packet := SubackBytes(id, granted);
            var s := packet + rest;
            && WholePacket(s) && PacketEnd(s) == |packet|
            && TypeOf(s[0]) == SUBACK && HoldsId(s) && AckId(s) == id
            && s[BodyStart(s) + 2..PacketEnd(s)] == granted
  {
    hide Encoded, FieldAt, Header, BigEndian, TypeOf;
    var h: byte := Header(SUBACK, 0, 0, 0);
    var body := BigEndian(id) + granted;
    var s := SubackBytes(id, granted) + rest;
    HeaderFields(SUBACK, 0, 0, 0);
    FixedHeader(h, body, rest);
    assert s == [h] + Encoded(|body|) + body + rest;
    var start := BodyStart(s);
    SplitSlice(s, start, PacketEnd(s), BigEndian(id), granted);
    WordAt(s, start, id);
  }
}
