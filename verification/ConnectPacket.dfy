/**
 CONNECT and CONNACK, both halves, and the two-byte packets (MQTTConnectClient.c, MQTTConnectServer.c;
 sections 3.1 and 3.2 of MQTT 3.1.1).
 */
module ConnectPacket {
  import opened Base
  import opened RemainingLength
  import opened PacketIO

  datatype Will = Will(topic: MqttString, message: MqttString, retained: byte, qos: byte)

  /** MQTTPacket_connectData. */
  datatype ConnectData = ConnectData(version: byte, clientId: MqttString, keepAlive: u16, cleanSession: byte,
                                     willFlag: byte, will: Will, username: MqttString, password: MqttString)

  const MQTT_NAME: Bytes := [77, 81, 84, 84]
  const MQISDP_NAME: Bytes := [77, 81, 73, 115, 100, 112]

  /** A credential counts as supplied when either of its pointers is set. */
  predicate Supplied(s: MqttString) {
    s.cstring.Some? || s.lenstring.Some?
  }

  /** For each string writeMQTTString writes as many bytes as MQTTstrlen counts. */
  predicate StringsAgree(o: ConnectData) {
    && OneLength(o.clientId) && OneLength(o.username) && OneLength(o.password)
    && OneLength(o.will.topic) && OneLength(o.will.message)
  }

  /** The MQTTConnectFlags bit fields. */
  function Flags(clean: nat, will: bool, willQos: nat, willRetain: nat, password: bool, username: bool): byte {
    2 * (clean % 2) + (if will then 4 + 8 * (willQos % 4) + 32 * (willRetain % 2) else 0)
    + (if password then 64 else 0) + if username then 128 else 0
  }

  function ConnectFlags(o: ConnectData): byte {
    Flags(o.cleanSession, o.willFlag != 0, o.will.qos, o.will.retained, Supplied(o.password), Supplied(o.username))
  }

  predicate Bit(flags: byte, mask: nat)
    requires mask > 0
  {
    flags / mask % 2 == 1
  }

  lemma FlagBits(clean: nat, will: bool, willQos: nat, willRetain: nat, password: bool, username: bool)
    ensures var f := Flags(clean, will, willQos, willRetain, password, username);
            && f / 2 % 2 == clean % 2 && (Bit(f, 4) <==> will)
            && (Bit(f, 64) <==> password) && (Bit(f, 128) <==> username)
            && (will ==> f / 8 % 4 == willQos % 4 && f / 32 % 2 == willRetain % 2)
  {
    var w, q, r := if will then 1 else 0, if will then willQos % 4 else 0, if will then willRetain % 2 else 0;
    var p, u := if password then 1 else 0, if username then 1 else 0;
    DigitOfTwo(clean % 2, w + 2 * q + 8 * r + 16 * p + 32 * u);
    DigitOfFour(2 * (clean % 2), w, q + 4 * r + 8 * p + 16 * u);
    DigitOfEight(2 * (clean % 2) + 4 * w, q, r + 2 * p + 4 * u);
    HighDigits(r, p, u, 2 * (clean % 2) + 4 * w + 8 * q);
  }

  lemma DigitOfTwo(d: nat, high: nat)
    requires d < 2
    ensures (2 * d + 4 * high) / 2 % 2 == d
  {
  }

  lemma DigitOfFour(low: nat, d: nat, high: nat)
    requires low < 4 && d < 2
    ensures (low + 4 * d + 8 * high) / 4 % 2 == d
  {
    Divided(low + 4 * d + 8 * high, 4, d + 2 * high);
  }

  lemma DigitOfEight(low: nat, d: nat, high: nat)
    requires low < 8 && d < 4
    ensures (low + 8 * d + 32 * high) / 8 % 4 == d
  {
    Divided(low + 8 * d + 32 * high, 8, d + 4 * high);
  }

  lemma HighDigits(r: nat, p: nat, u: nat, low: nat)
    requires r < 2 && p < 2 && u < 2 && low < 32
    ensures var f := low + 32 * (r + 2 * p + 4 * u);
            f / 32 % 2 == r && f / 64 % 2 == p && f / 128 % 2 == u
  {
    var f := low + 32 * (r + 2 * p + 4 * u);
    Divided(f, 32, r + 2 * (p + 2 * u));
    Divided(f, 64, p + 2 * u);
    Divided(f, 128, u);
  }

  // ----- The packet -----

  function OptionalString(present: bool, x: Bytes): Bytes {
    if present then StringBytes(x) else []
  }

  /** The strings of a CONNECT payload, in their fixed order. */
  datatype Payload =
    Payload(clientId: Bytes, will: Option<(Bytes, Bytes)>, username: Option<Bytes>, password: Option<Bytes>)

  function PayloadBytes(p: Payload): Bytes {
    StringBytes(p.clientId)
    + (OptionalString(p.will.Some?, if p.will.Some? then p.will.value.0 else [])
       + (OptionalString(p.will.Some?, if p.will.Some? then p.will.value.1 else [])
          + (OptionalString(p.username.Some?, if p.username.Some? then p.username.value else [])
             + OptionalString(p.password.Some?, if p.password.Some? then p.password.value else []))))
  }

  function PayloadOf(o: ConnectData): Payload {
    Payload(Content(o.clientId),
            if o.willFlag != 0 then Some((Content(o.will.topic), Content(o.will.message))) else None,
            if Supplied(o.username) then Some(Content(o.username)) else None,
            if Supplied(o.password) then Some(Content(o.password)) else None)
  }

  function NameOf(version: byte): Bytes {
    if version == 4 then MQTT_NAME else MQISDP_NAME
  }

  /** Protocol name, version, flags and keep-alive: the variable header. */
  function VariableHeader(version: byte, flags: byte, keepAlive: u16): Bytes {
    StringBytes(NameOf(version)) + [if version == 4 then 4 else 3, flags] + BigEndian(keepAlive)
  }

  function ConnectBody(o: ConnectData): Bytes {
    VariableHeader(o.version, ConnectFlags(o), o.keepAlive) + PayloadBytes(PayloadOf(o))
  }

  function ConnectBytes(o: ConnectData): Bytes {
    [Header(CONNECT, 0, 0, 0)] + Encoded(|ConnectBody(o)|) + ConnectBody(o)
  }

  /** MQTTSerialize_connectLength. */
  function ConnectLength(o: ConnectData): nat {
    (if o.version == 3 then 12 else if o.version == 4 then 10 else 0)
    + StrLen(o.clientId) + 2
    + (if o.willFlag != 0 then StrLen(o.will.topic) + 2 + StrLen(o.will.message) + 2 else 0)
    + (if Supplied(o.username) then StrLen(o.username) + 2 else 0)
    + (if Supplied(o.password) then StrLen(o.password) + 2 else 0)
  }

  /** The computed length is the length of what is written, for the two versions the library knows. */
  lemma ConnectLengthIsWritten(o: ConnectData)
    requires StringsAgree(o)
    ensures ConnectLength(o) == |ConnectBody(o)| <==> o.version in {3, 4}
  {
    hide Content, StrLen, BigEndian;
    StrLenIsWritten(o.clientId);
    StrLenIsWritten(o.will.topic);
    StrLenIsWritten(o.will.message);
    StrLenIsWritten(o.username);
    StrLenIsWritten(o.password);
  }

  /** MQTTSerialize_connect. */
  method SerializeConnect(buf: array<byte>, buflen: nat, o: ConnectData) returns (rc: int)
    requires buflen <= buf.Length
    requires o.version in {3, 4} && StringsAgree(o)
    requires AllowedOrRefused(ConnectLength(o), buflen)
    modifies buf
    ensures var packet := ConnectBytes(o);
            if PacketLen(ConnectLength(o)) > buflen then
              rc == MQTTPACKET_BUFFER_TOO_SHORT && buf[..] == old(buf[..])
            else
              && rc == |packet| == TrueLen(ConnectLength(o)) <= buflen
              && buf[..rc] == packet
              && forall i :: rc <= i < buf.Length ==> buf[i] == old(buf[i])
  {
    hide Encoded, Header, ConnectLength, ConnectFlags, PayloadBytes, PayloadOf, StringsAgree, VariableHeader;
    ConnectLengthIsWritten(o);
    var len := ConnectLength(o);
    var size := Len(len);
    if size > buflen {
      return MQTTPACKET_BUFFER_TOO_SHORT;
    }
    var h: byte := Header(CONNECT, 0, 0, 0);
    var ptr := WriteFixedHeader(buf, h, len);
    ptr := WriteVariableHeader(buf, ptr, o.version, ConnectFlags(o), o.keepAlive);
    ptr := WritePayload(buf, ptr, o);
    rc := ptr;
    assert buf[..rc] == [h] + Encoded(len) + ConnectBody(o);
  }

  /** Protocol name and level, flags and keep-alive. */
  method WriteVariableHeader(buf: array<byte>, pos: nat, version: byte, flags: byte, keepAlive: u16) returns (next: nat)
    requires pos + |VariableHeader(version, flags, keepAlive)| <= buf.Length
    modifies buf
    ensures next == pos + |VariableHeader(version, flags, keepAlive)|
    ensures buf[..next] == old(buf[..pos]) + VariableHeader(version, flags, keepAlive)
    ensures forall i :: next <= i < buf.Length ==> buf[i] == old(buf[i])
  {
    hide BigEndian, StringBytes;
    if version == 4 {
      next := WriteMqttString(buf, pos, MqttString(Some(MQTT_NAME), None));
      next := WriteChar(buf, next, 4);
    } else {
      next := WriteMqttString(buf, pos, MqttString(Some(MQISDP_NAME), None));
      next := WriteChar(buf, next, 3);
    }
    next := WriteChar(buf, next, flags);
    next := WriteInt(buf, next, keepAlive);
  }

  method WriteOptional(buf: array<byte>, pos: nat, present: bool, s: MqttString) returns (next: nat)
    requires pos + |OptionalString(present, Content(s))| <= buf.Length
    modifies buf
    ensures next == pos + |OptionalString(present, Content(s))|
    ensures buf[..next] == old(buf[..pos]) + OptionalString(present, Content(s))
    ensures forall i :: next <= i < buf.Length ==> buf[i] == old(buf[i])
  {
    next := pos;
    if present {
      next := WriteMqttString(buf, pos, s);
    }
  }

  lemma RightNested(o: Bytes, a: Bytes, b: Bytes, c: Bytes, d: Bytes, e: Bytes)
    ensures o + a + b + c + d + e == o + (a + (b + (c + (d + e))))
  {
    assert b + c + d + e == b + (c + (d + e));
    assert o + a + b + c + d + e == o + a + (b + c + d + e);
  }

  /** The strings after the variable header. */
  method WritePayload(buf: array<byte>, pos: nat, o: ConnectData) returns (next: nat)
    requires pos + |PayloadBytes(PayloadOf(o))| <= buf.Length
    modifies buf
    ensures next == pos + |PayloadBytes(PayloadOf(o))|
    ensures buf[..next] == old(buf[..pos]) + PayloadBytes(PayloadOf(o))
    ensures forall i :: next <= i < buf.Length ==> buf[i] == old(buf[i])
  {
    hide Content, OptionalString, Supplied;
    var will := o.willFlag != 0;
    ghost var a := StringBytes(Content(o.clientId));
    ghost var b := OptionalString(will, Content(o.will.topic));
    ghost var c := OptionalString(will, Content(o.will.message));
    ghost var d := OptionalString(Supplied(o.username), Content(o.username));
    ghost var e := OptionalString(Supplied(o.password), Content(o.password));
    assert PayloadBytes(PayloadOf(o)) == a + (b + (c + (d + e))) by { PayloadPieces(o); }
    hide PayloadBytes, StringBytes;
    next := WriteMqttString(buf, pos, o.clientId);
    next := WriteOptional(buf, next, will, o.will.topic);
    next := WriteOptional(buf, next, will, o.will.message);
    next := WriteOptional(buf, next, Supplied(o.username), o.username);
    next := WriteOptional(buf, next, Supplied(o.password), o.password);
    RightNested(old(buf[..pos]), a, b, c, d, e);
  }

  lemma PayloadPieces(o: ConnectData)
    ensures PayloadBytes(PayloadOf(o)) ==
            StringBytes(Content(o.clientId))
            + (OptionalString(o.willFlag != 0, Content(o.will.topic))
               + (OptionalString(o.willFlag != 0, Content(o.will.message))
                  + (OptionalString(Supplied(o.username), Content(o.username))
                     + OptionalString(Supplied(o.password), Content(o.password)))))
  {
    hide Content, StringBytes, Supplied;
  }

  // ----- Deserialising -----

  /** One string of the payload, read only if its flag is set and at least `least` bytes are left. */
  datatype FieldRead = Missing | Absent | Present(text: Bytes, next: nat)

  function ReadField(s: Bytes, pos: nat, end: nat, flag: bool, least: nat): FieldRead
    requires end <= |s|
  {
    if !flag then Absent
    else if pos + least > end then Missing
    else match ReadString(s, pos, end)
         case NoString => Missing
         case GotString(text, next) => Present(text, next)
  }

  function After(r: FieldRead, pos: nat): nat {
    if r.Present? then r.next else pos
  }

  function TextOf(r: FieldRead): Option<Bytes> {
    if r.Present? then Some(r.text) else None
  }

  /** The payload of a CONNECT whose flags byte is `flags`; a set credential must be at least one character long. */
  function ParsePayload(s: Bytes, pos: nat, end: nat, flags: byte): Option<Payload>
    requires end <= |s|
  {
    var client := ReadField(s, pos, end, true, 0);
    var p1 := After(client, pos);
    var topic := ReadField(s, p1, end, Bit(flags, 4), 0);
    var p2 := After(topic, p1);
    var message := ReadField(s, p2, end, Bit(flags, 4), 0);
    var p3 := After(message, p2);
    var username := ReadField(s, p3, end, Bit(flags, 128), 3);
    var p4 := After(username, p3);
    var password := ReadField(s, p4, end, Bit(flags, 64), 3);
    if client.Missing? || topic.Missing? || message.Missing? || username.Missing? || password.Missing? then None
    else if Bit(flags, 64) && !Bit(flags, 128) then None
    else Some(Payload(if client.Present? then client.text else [],
                      if topic.Present? && message.Present? then Some((topic.text, message.text)) else None,
                      TextOf(username), TextOf(password)))
  }

  /** MQTTPacket_checkVersion: memcmp over the shorter of the two names. */
  predicate CheckVersion(protocol: Bytes, version: byte) {
    || (version == 3 && (protocol <= MQISDP_NAME || MQISDP_NAME <= protocol))
    || (version == 4 && (protocol <= MQTT_NAME || MQTT_NAME <= protocol))
  }

  /** What MQTTDeserialize_connect fills in. */
  datatype ConnectView =
    | Refused
    | Overrun   // the fixed bytes of the variable header lie outside the buffer
    | Connect(cleanSession: byte, keepAlive: u16, willQos: byte, willRetain: byte, payload: Payload)

  function ParseConnect(s: Bytes, end: nat): ConnectView
    requires WholePacket(s) && end <= |s|
  {
    if TypeOf(s[0]) != CONNECT then Refused
    else match ReadString(s, BodyStart(s), end)
         case NoString => Refused
         case GotString(protocol, next) =>
           if next + 4 > |s| then Overrun
           else if !CheckVersion(protocol, s[next]) then Refused
           else
             var flags := s[next + 1];
             match ParsePayload(s, next + 4, end, flags)
             case None => Refused
             case Some(p) =>
               Connect(flags / 2 % 2, Word16(s[next + 2], s[next + 3]), flags / 8 % 4, flags / 32 % 2, p)
  }

  method ReadFieldFrom(buf: array<byte>, pos: nat, end: nat, flag: bool, least: nat) returns (r: FieldRead)
    requires end <= buf.Length
    ensures r == ReadField(buf[..], pos, end, flag, least)
  {
    if !flag {
      return Absent;
    }
    if pos + least > end {
      return Missing;
    }
    var text := ReadMqttLenString(buf, pos, end);
    r := if text.NoString? then Missing else Present(text.text, text.next);
  }

  /** The strings of the payload, read until one is missing. */
  method ReadPayload(buf: array<byte>, pos: nat, end: nat, flags: byte) returns (r: Option<Payload>)
    requires end <= buf.Length
    ensures r == ParsePayload(buf[..], pos, end, flags)
  {
    hide ReadField, ReadString, Bit;
    assert ReadField(buf[..], pos, end, true, 0) != Absent by { RequiredField(buf[..], pos, end); }
    r := None;
    var client := ReadFieldFrom(buf, pos, end, true, 0);
    if client.Missing? { return; }
    var topic := ReadFieldFrom(buf, client.next, end, Bit(flags, 4), 0);
    if topic.Missing? { return; }
    var p := After(topic, client.next);
    var message := ReadFieldFrom(buf, p, end, Bit(flags, 4), 0);
    if message.Missing? { return; }
    p := After(message, p);
    var username := ReadFieldFrom(buf, p, end, Bit(flags, 128), 3);
    if username.Missing? { return; }
    p := After(username, p);
    var password := ReadFieldFrom(buf, p, end, Bit(flags, 64), 3);
    if password.Missing? || (Bit(flags, 64) && !Bit(flags, 128)) { return; }
    r := Some(Payload(client.text,
                      if topic.Present? && message.Present? then Some((topic.text, message.text)) else None,
                      TextOf(username), TextOf(password)));
  }

  lemma RequiredField(s: Bytes, pos: nat, end: nat)
    requires end <= |s|
    ensures ReadField(s, pos, end, true, 0) != Absent
  {
  }

  /** MQTTDeserialize_connect, where `len` bounds the strings and nothing bounds the four fixed bytes. */
  method DeserializeConnect(buf: array<byte>, len: nat)
    returns (rc: nat, clean: byte, keepAlive: u16, willQos: byte, willRetain: byte, payload: Payload)
    requires WholePacket(buf[..]) && len <= buf.Length
    ensures rc <= 1
    ensures match ParseConnect(buf[..], len)
            case Overrun => true
            case Refused => rc == 0
            case Connect(c, k, q, r, p) =>
              rc == 1 && (clean, keepAlive, willQos, willRetain, payload) == (c, k, q, r, p)
  {
    hide FieldAt, ReadString, ParsePayload, CheckVersion;
    rc := 0;
    clean, keepAlive, willQos, willRetain, payload := *, *, *, *, *;
    if TypeOf(buf[0]) != CONNECT {
      return;
    }
    var n, mylen := DecodeBuf(buf, 1);
    var curdata := 1 + n;
    var protocol := ReadMqttLenString(buf, curdata, len);
    if protocol.NoString? {
      return;
    }
    curdata := protocol.next;
    var version := ReadChar(buf, curdata);
    if CheckVersion(protocol.text, version) {
      var flags := ReadChar(buf, curdata + 1);
      clean := flags / 2 % 2;
      keepAlive, curdata := ReadInt(buf, curdata + 2);
      willQos, willRetain := flags / 8 % 4, flags / 32 % 2;
      var p := ReadPayload(buf, curdata, len, flags);
      if p.Some? {
        payload := p.value;
        rc := 1;
      }
    }
  }

  // ----- Round trip -----

  /** A written string is read where it stands, unless fewer than `least` bytes are left in the packet. */
  lemma ReadFieldAt(s: Bytes, pos: nat, end: nat, present: bool, x: Bytes, least: nat, tail: Bytes)
    requires pos <= end <= |s|
    requires s[pos..end] == OptionalString(present, x) + tail
    requires |x| < 65536
    ensures var r := ReadField(s, pos, end, present, least);
            && (!present ==> r == Absent)
            && (present ==> r == if pos + least <= end then Present(x, pos + 2 + |x|) else Missing)
            && (!r.Missing? ==> After(r, pos) <= end && end - After(r, pos) == |tail| && s[After(r, pos)..end] == tail)
  {
    hide StringBytes, ReadString;
    if present {
      SplitSlice(s, pos, end, StringBytes(x), tail);
      ReadStringAt(s, pos, end, x);
    }
  }

  /**
   The credentials the parser lets through. It wants three bytes left before each, so an empty password is
   refused, and an empty user name only when no password follows it.
   */
  predicate CredentialsAccepted(p: Payload) {
    && (p.password.Some? ==> p.username.Some? && p.password.value != [])
    && (p.username.Some? && p.password.None? ==> p.username.value != [])
  }

  predicate ShortStrings(p: Payload) {
    && |p.clientId| < 65536
    && (p.will.Some? ==> |p.will.value.0| < 65536 && |p.will.value.1| < 65536)
    && (p.username.Some? ==> |p.username.value| < 65536)
    && (p.password.Some? ==> |p.password.value| < 65536)
  }

  lemma ParsePayloadWritten(s: Bytes, pos: nat, end: nat, flags: byte, p: Payload)
    requires pos <= end <= |s|
    requires s[pos..end] == PayloadBytes(p)
    requires Bit(flags, 4) <==> p.will.Some?
    requires Bit(flags, 128) <==> p.username.Some?
    requires Bit(flags, 64) <==> p.password.Some?
    requires ShortStrings(p)
    ensures ParsePayload(s, pos, end, flags) == if CredentialsAccepted(p) then Some(p) else None
  {
    hide ReadField, OptionalString, Bit, After;
    var topic: Bytes := if p.will.Some? then p.will.value.0 else [];
    var message: Bytes := if p.will.Some? then p.will.value.1 else [];
    var user: Bytes := if p.username.Some? then p.username.value else [];
    var pass: Bytes := if p.password.Some? then p.password.value else [];
    var e := OptionalString(p.password.Some?, pass);
    var d := OptionalString(p.username.Some?, user);
    var c := OptionalString(p.will.Some?, message);
    var b := OptionalString(p.will.Some?, topic);
    assert OptionalString(true, p.clientId) == StringBytes(p.clientId) by { OptionalLength(true, p.clientId); }
    OptionalLength(p.password.Some?, pass);
    OptionalLength(p.username.Some?, user);
    ReadFieldAt(s, pos, end, true, p.clientId, 0, b + (c + (d + e)));
    var p1 := After(ReadField(s, pos, end, true, 0), pos);
    ReadFieldAt(s, p1, end, p.will.Some?, topic, 0, c + (d + e));
    var p2 := After(ReadField(s, p1, end, Bit(flags, 4), 0), p1);
    ReadFieldAt(s, p2, end, p.will.Some?, message, 0, d + e);
    var p3 := After(ReadField(s, p2, end, Bit(flags, 4), 0), p2);
    ReadFieldAt(s, p3, end, p.username.Some?, user, 3, e);
    var r4 := ReadField(s, p3, end, Bit(flags, 128), 3);
    if !r4.Missing? {
      assert e == e + [];
      ReadFieldAt(s, After(r4, p3), end, p.password.Some?, pass, 3, []);
    }
  }

  lemma OptionalLength(present: bool, x: Bytes)
    ensures present ==> OptionalString(present, x) == StringBytes(x)
    ensures |OptionalString(present, x)| == if present then 2 + |x| else 0
  {
  }

  /** What the deserialiser finds up to the end of the variable header. */
  lemma VariableHeaderAt(s: Bytes, pos: nat, end: nat, version: byte, flags: byte, keepAlive: u16, tail: Bytes)
    requires pos <= end <= |s| && version in {3, 4}
    requires s[pos..end] == VariableHeader(version, flags, keepAlive) + tail
    ensures var next := pos + 2 + |NameOf(version)|;
            && next + 4 <= end && next + 4 == end - |tail|
            && ReadString(s, pos, end) == GotString(NameOf(version), next)
            && s[next] == version && s[next + 1] == flags
            && Word16(s[next + 2], s[next + 3]) == keepAlive
            && s[next + 4..end] == tail
  {
    hide StringBytes, BigEndian, ReadString;
    var name := NameOf(version);
    var next := pos + 2 + |name|;
    var fixed: Bytes := [version, flags];
    assert s[pos..end] == StringBytes(name) + (fixed + (BigEndian(keepAlive) + tail));
    SplitSlice(s, pos, end, StringBytes(name), fixed + (BigEndian(keepAlive) + tail));
    ReadStringAt(s, pos, end, name);
    SplitSlice(s, next, end, fixed, BigEndian(keepAlive) + tail);
    assert s[next] == s[next..next + 2][0] && s[next + 1] == s[next..next + 2][1];
    SplitSlice(s, next + 2, end, BigEndian(keepAlive), tail);
    WordAt(s, next + 2, keepAlive);
  }

  /** The server half recovers every field the client half was given, exactly when it accepts the credentials. */
  lemma ConnectRoundTrip(o: ConnectData, rest: Bytes)
    requires o.version in {3, 4}
    requires ShortStrings(PayloadOf(o))
    requires |ConnectBody(o)| <= MAX_REMAINING_LENGTH
    ensures var packet := ConnectBytes(o);
            var s := packet + rest;
            && WholePacket(s) && PacketEnd(s) == |packet|
            && var v := ParseConnect(s, |packet|);
            && (v.Connect? <==> CredentialsAccepted(PayloadOf(o)))
            && (v.Connect? ==>
                  && v.cleanSession == o.cleanSession % 2
                  && v.keepAlive == o.keepAlive
                  && v.payload == PayloadOf(o)
                  && (o.willFlag != 0 ==> v.willQos == o.will.qos % 4 && v.willRetain == o.will.retained % 2))
  {
    hide Encoded, FieldAt, Header, TypeOf, PayloadBytes, ParsePayload, Flags, Bit, VariableHeader, ReadString, Content,
         CredentialsAccepted, ShortStrings;
    var h: byte := Header(CONNECT, 0, 0, 0);
    var flags := ConnectFlags(o);
    var s := ConnectBytes(o) + rest;
    HeaderFields(CONNECT, 0, 0, 0);
    FixedHeader(h, ConnectBody(o), rest);
    FlagBits(o.cleanSession, o.willFlag != 0, o.will.qos, o.will.retained, Supplied(o.password), Supplied(o.username));
    var start, end := BodyStart(s), PacketEnd(s);
    VariableHeaderAt(s, start, end, o.version, flags, o.keepAlive, PayloadBytes(PayloadOf(o)));
    ParsePayloadWritten(s, start + 2 + |NameOf(o.version)| + 4, end, flags, PayloadOf(o));
  }

  // ----- CONNACK and the packets without a body -----

  function ConnackBytes(returnCode: byte, sessionPresent: byte): Bytes {
    [Header(CONNACK, 0, 0, 0), 2, sessionPresent % 2, returnCode]
  }

  /** MQTTSerialize_connack writes four bytes but asks only for a buffer of two. */
  method SerializeConnack(buf: array<byte>, buflen: nat, returnCode: byte, sessionPresent: byte) returns (rc: int)
    requires buflen >= 2 ==> 4 <= buf.Length
    modifies buf
    ensures if buflen < 2 then rc == MQTTPACKET_BUFFER_TOO_SHORT && buf[..] == old(buf[..])
            else
              && rc == 4
              && buf[..4] == ConnackBytes(returnCode, sessionPresent)
              && forall i :: 4 <= i < buf.Length ==> buf[i] == old(buf[i])
    ensures rc > buflen <==> buflen in {2, 3}
  {
    hide Header;
    if buflen < 2 {
      return MQTTPACKET_BUFFER_TOO_SHORT;
    }
    var h: byte := Header(CONNACK, 0, 0, 0);
    var ptr := WriteFixedHeader(buf, h, 2);
    ptr := WriteChar(buf, ptr, sessionPresent % 2);
    ptr := WriteChar(buf, ptr, returnCode);
    rc := ptr;
  }

  /**
   MQTTDeserialize_connack; on a short packet the return code is the size of the length field, and the two values are
   still those the caller had set.
   */
  method DeserializeConnack(buf: array<byte>, sessionPresent0: byte, returnCode0: byte)
    returns (rc: nat, sessionPresent: byte, returnCode: byte)
    requires WholePacket(buf[..])
    ensures var s := buf[..];
            var start := BodyStart(s);
            if TypeOf(s[0]) == CONNACK && PacketEnd(s) - start >= 2 then
              rc == 1 && sessionPresent == s[start] % 2 && returnCode == s[start + 1]
            else
              && rc == (if TypeOf(s[0]) == CONNACK then start - 1 else 0)
              && (sessionPresent, returnCode) == (sessionPresent0, returnCode0)
  {
    sessionPresent, returnCode := sessionPresent0, returnCode0;
    rc := 0;
    if TypeOf(buf[0]) != CONNACK {
      return;
    }
    var mylen;
    rc, mylen := DecodeBuf(buf, 1);
    var curdata := 1 + rc;
    if mylen < 2 {
      return;
    }
    var flags := ReadChar(buf, curdata);
    sessionPresent := flags % 2;
    returnCode := ReadChar(buf, curdata + 1);
    rc := 1;
  }

  lemma ConnackRoundTrip(returnCode: byte, sessionPresent: byte, rest: Bytes)
    ensures var s := ConnackBytes(returnCode, sessionPresent) + rest;
            && WholePacket(s) && PacketEnd(s) == 4 && TypeOf(s[0]) == CONNACK
            && BodyStart(s) == 2 && s[2] % 2 == sessionPresent % 2 && s[3] == returnCode
  {
    hide Header;
    var h: byte := Header(CONNACK, 0, 0, 0);
    var body: Bytes := [sessionPresent % 2, returnCode];
    HeaderFields(CONNACK, 0, 0, 0);
    FixedHeader(h, body, rest);
    assert Encoded(2) == [2];
    assert ConnackBytes(returnCode, sessionPresent) + rest == [h] + Encoded(2) + body + rest;
  }

  /** MQTTSerialize_zero, behind PINGREQ and DISCONNECT. */
  method SerializeZero(buf: array<byte>, buflen: nat, packetType: byte) returns (rc: int)
    requires buflen <= buf.Length
    modifies buf
    ensures if buflen < 2 then rc == MQTTPACKET_BUFFER_TOO_SHORT && buf[..] == old(buf[..])
            else
              && rc == 2
              && buf[..2] == [Header(packetType, 0, 0, 0), 0]
              && forall i :: 2 <= i < buf.Length ==> buf[i] == old(buf[i])
  {
    hide Header;
    if buflen < 2 {
      return MQTTPACKET_BUFFER_TOO_SHORT;
    }
    var h: byte := Header(packetType, 0, 0, 0);
    rc := WriteFixedHeader(buf, h, 0);
  }
}
