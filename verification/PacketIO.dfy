/**
 The readers and writers the packet functions are made of (MQTTPacket.c): 16-bit integers, "UTF" strings and the
 fixed header. Writers advance a position in a shared buffer; each is specified by the bytes it appends.
 */
module PacketIO {
  import opened Base
  import opened RemainingLength

  const MQTTPACKET_BUFFER_TOO_SHORT := -2
  const MQTTPACKET_READ_ERROR := -1

  // enum msgTypes
  const CONNECT: byte := 1
  const CONNACK: byte := 2
  const PUBLISH: byte := 3
  const PUBACK: byte := 4
  const PUBREC: byte := 5
  const PUBREL: byte := 6
  const PUBCOMP: byte := 7
  const SUBSCRIBE: byte := 8
  const SUBACK: byte := 9
  const UNSUBSCRIBE: byte := 10
  const UNSUBACK: byte := 11
  const PINGREQ: byte := 12
  const PINGRESP: byte := 13
  const DISCONNECT: byte := 14

  /** The MQTTHeader bit fields: each member keeps the low bits of what is assigned to it. */
  function Header(packetType: nat, dup: nat, qos: nat, retain: nat): byte {
    16 * (packetType % 16) + 8 * (dup % 2) + 2 * (qos % 4) + retain % 2
  }

  function TypeOf(header: byte): (t: byte)
    ensures t < 16
  {
    header / 16
  }

  function DupOf(header: byte): byte { header / 8 % 2 }

  function QosOf(header: byte): byte { header / 2 % 4 }

  function RetainOf(header: byte): byte { header % 2 }

  lemma HeaderFields(packetType: nat, dup: nat, qos: nat, retain: nat)
    ensures var h := Header(packetType, dup, qos, retain);
            TypeOf(h) == packetType % 16 && DupOf(h) == dup % 2 && QosOf(h) == qos % 4 && RetainOf(h) == retain % 2
  {
    var h := Header(packetType, dup, qos, retain);
    var low := 8 * (dup % 2) + 2 * (qos % 4) + retain % 2;
    assert h / 8 == 2 * (packetType % 16) + dup % 2;
    assert h / 2 == 8 * (packetType % 16) + 4 * (dup % 2) + qos % 4;
  }

  /** A buffer that holds a whole packet, as every deserialiser's documentation asks of its caller. */
  predicate WholePacket(s: Bytes) {
    |s| >= 1 && FieldAt(s, 1, MAX_LENGTH_BYTES).complete && PacketEnd(s) <= |s|
  }

  /** Where the fixed header ends, and where the packet ends. */
  function BodyStart(s: Bytes): nat { 1 + FieldAt(s, 1, MAX_LENGTH_BYTES).len }

  function PacketEnd(s: Bytes): nat { BodyStart(s) + FieldAt(s, 1, MAX_LENGTH_BYTES).value }

  /** The fixed header of a serialised packet reads back, whatever follows the packet in the buffer. */
  lemma FixedHeader(h: byte, body: Bytes, rest: Bytes)
    requires |body| <= MAX_REMAINING_LENGTH
    ensures var s := [h] + Encoded(|body|) + body + rest;
            && WholePacket(s)
            && BodyStart(s) == 1 + |Encoded(|body|)|
            && PacketEnd(s) == BodyStart(s) + |body|
            && s[BodyStart(s)..PacketEnd(s)] == body
  {
    FitsFourBytes(|body|);
    var s := [h] + Encoded(|body|) + body + rest;
    assert s == [h] + Encoded(|body|) + (body + rest);
    DecodeEncoded([h], |body|, body + rest, MAX_LENGTH_BYTES);
  }

  // ----- Strings -----

  /**
   MQTTString: a C string pointer and a length-delimited string, either of which may be absent. An absent
   `lenstring` is a null `data` with length 0.
   */
  datatype MqttString = MqttString(cstring: Option<Bytes>, lenstring: Option<Bytes>)

  /** What writeMQTTString sends: the length-delimited string unless it is empty, then the C string. */
  function Content(s: MqttString): Bytes {
    if s.lenstring.Some? && |s.lenstring.value| > 0 then s.lenstring.value
    else if s.cstring.Some? then s.cstring.value
    else []
  }

  /** MQTTstrlen, which looks at the C string first. */
  function StrLen(s: MqttString): nat {
    if s.cstring.Some? then |s.cstring.value|
    else if s.lenstring.Some? then |s.lenstring.value|
    else 0
  }

  /** The two representations, if both carry text, have the same length. */
  predicate OneLength(s: MqttString) {
    s.cstring.Some? && s.lenstring.Some? ==> |s.lenstring.value| in {0, |s.cstring.value|}
  }

  /** The length computed in advance is the length written exactly when the representations do not disagree. */
  lemma StrLenIsWritten(s: MqttString)
    ensures StrLen(s) == |Content(s)| <==> OneLength(s)
  {
  }

  /** A string on the wire: two length bytes, which hold the length modulo 65536, then the text. */
  function StringBytes(x: Bytes): (r: Bytes)
    ensures |r| == 2 + |x|
  {
    BigEndian(|x| % 65536) + x
  }

  /** What readMQTTLenString finds at `pos` of a packet that ends at `end`. */
  datatype StringRead = NoString | GotString(text: Bytes, next: nat)

  function ReadString(s: Bytes, pos: nat, end: nat): (r: StringRead)
    requires end <= |s|
    ensures r.GotString? ==> pos + 2 + |r.text| == r.next <= end
  {
    if pos + 2 > end then NoString
    else
      var len := Word16(s[pos], s[pos + 1]);
      if pos + 2 + len <= end then GotString(s[pos + 2..pos + 2 + len], pos + 2 + len) else NoString
  }

  /** A written string reads back if its length fits the two length bytes. */
  lemma ReadStringAt(s: Bytes, pos: nat, end: nat, x: Bytes)
    requires |x| < 65536
    requires pos + 2 + |x| <= end <= |s|
    requires s[pos..pos + 2 + |x|] == StringBytes(x)
    ensures ReadString(s, pos, end) == GotString(x, pos + 2 + |x|)
  {
    var t := s[pos..pos + 2 + |x|];
    assert s[pos] == t[0] == |x| / 256 && s[pos + 1] == t[1] == |x| % 256;
    assert s[pos + 2..pos + 2 + |x|] == t[2..] == x;
  }

  // ----- Writers and readers over the buffer -----

  /** writeChar. */
  method WriteChar(buf: array<byte>, pos: nat, c: byte) returns (next: nat)
    requires pos < buf.Length
    modifies buf
    ensures next == pos + 1
    ensures buf[..next] == old(buf[..pos]) + [c]
    ensures forall i :: next <= i < buf.Length ==> buf[i] == old(buf[i])
  {
    buf[pos] := c;
    next := pos + 1;
  }

  lemma IntBytes(n: nat)
    ensures BigEndian(n % 65536) == [n / 256 % 256, n % 256]
  {
    var q := n / 65536;
    assert n / 256 == 256 * q + (n % 65536) / 256;
    assert n % 256 == (n % 65536) % 256;
  }

  /** The two steps every serialiser starts with: the header byte and the remaining length. */
  method WriteFixedHeader(buf: array<byte>, h: byte, remLen: nat) returns (next: nat)
    requires 1 + |Encoded(remLen)| <= buf.Length
    modifies buf
    ensures next == 1 + |Encoded(remLen)|
    ensures buf[..next] == [h] + Encoded(remLen)
    ensures forall i :: next <= i < buf.Length ==> buf[i] == old(buf[i])
  {
    var ptr := WriteChar(buf, 0, h);
    assert buf[..ptr] == [h];
    var n := Encode(buf, ptr, remLen);
    next := ptr + n;
  }

  /** writeInt, whose two assignments keep the low 8 bits of each half. */
  method WriteInt(buf: array<byte>, pos: nat, anInt: nat) returns (next: nat)
    requires pos + 2 <= buf.Length
    modifies buf
    ensures next == pos + 2
    ensures buf[..next] == old(buf[..pos]) + BigEndian(anInt % 65536)
    ensures forall i :: next <= i < buf.Length ==> buf[i] == old(buf[i])
  {
    hide BigEndian;
    var hi: byte, lo: byte := anInt / 256 % 256, anInt % 256;
    assert BigEndian(anInt % 65536) == [hi, lo] by {
      IntBytes(anInt);
    }
    buf[pos] := hi;
    buf[pos + 1] := lo;
    next := pos + 2;
  }

  /** memcpy of `data` to `buf[pos..]`. */
  method CopyIn(buf: array<byte>, pos: nat, data: Bytes) returns (next: nat)
    requires pos + |data| <= buf.Length
    modifies buf
    ensures next == pos + |data|
    ensures buf[..next] == old(buf[..pos]) + data
    ensures forall i :: next <= i < buf.Length ==> buf[i] == old(buf[i])
  {
    forall i | 0 <= i < |data| {
      buf[pos + i] := data[i];
    }
    next := pos + |data|;
  }

  /** writeMQTTString and writeCString. */
  method WriteMqttString(buf: array<byte>, pos: nat, s: MqttString) returns (next: nat)
    requires pos + 2 + |Content(s)| <= buf.Length
    modifies buf
    ensures next == pos + 2 + |Content(s)|
    ensures buf[..next] == old(buf[..pos]) + StringBytes(Content(s))
    ensures forall i :: next <= i < buf.Length ==> buf[i] == old(buf[i])
  {
    if s.lenstring.Some? && |s.lenstring.value| > 0 {
      next := WriteInt(buf, pos, |s.lenstring.value|);
      next := CopyIn(buf, next, s.lenstring.value);
    } else if s.cstring.Some? {
      next := WriteInt(buf, pos, |s.cstring.value|);
      next := CopyIn(buf, next, s.cstring.value);
    } else {
      next := WriteInt(buf, pos, 0);
    }
  }

  /** readInt. Bytes beyond the buffer are whatever memory holds there. */
  method ReadInt(buf: array<byte>, pos: nat) returns (v: u16, next: nat)
    ensures next == pos + 2
    ensures next <= buf.Length ==> v == Word16(buf[pos], buf[pos + 1])
  {
    var hi := ReadChar(buf, pos);
    var lo := ReadChar(buf, pos + 1);
    v := Word16(hi, lo);
    next := pos + 2;
  }

  /** readChar, under the same proviso. */
  method ReadChar(buf: array<byte>, pos: nat) returns (c: byte)
    ensures pos < buf.Length ==> c == buf[pos]
  {
    if pos < buf.Length {
      c := buf[pos];
    } else {
      c := *;
    }
  }

  /** readMQTTLenString. */
  method ReadMqttLenString(buf: array<byte>, pos: nat, end: nat) returns (r: StringRead)
    requires end <= buf.Length
    ensures r == ReadString(buf[..], pos, end)
  {
    r := NoString;
    if end - pos > 1 {
      var len, next := ReadInt(buf, pos);
      if next + len <= end {
        r := GotString(buf[next..next + len], next + len);
      }
    }
  }
}
