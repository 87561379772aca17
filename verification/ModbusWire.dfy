/**
 Framing of nanoMODBUS messages on a serial line (RTU) and over TCP: what put_msg_header and send_msg put around the
 data of a message, and what recv_msg_header, recv and recv_msg_footer make of the bytes that arrive.

 A message being received is described by `m`, everything that arrives from its first byte on.
 */
module ModbusWire {
  import opened Base
  import opened Crc16
  import opened CrcDistance

  /** nmbs_error: zero, exceptions 1 to 4, and the library's own negative codes. */
  const NONE := 0
  const ILLEGAL_FUNCTION := 1
  const ILLEGAL_DATA_ADDRESS := 2
  const ILLEGAL_DATA_VALUE := 3
  const SERVER_DEVICE_FAILURE := 4
  const INVALID_ARGUMENT := -1
  const INVALID_RESPONSE := -2
  const TIMEOUT := -3
  const TRANSPORT := -4
  const CRC := -5
  const INVALID_TCP_MBAP := -6
  const INVALID_UNIT_ID := -7

  predicate IsException(e: int) { 0 < e < 5 }

  const BUFFER_SIZE := 260

  datatype Transport = Rtu | Tcp

  /** Sizes of what precedes and follows the data of a message. */
  function Lead(t: Transport): nat { if t.Rtu? then 2 else 8 }
  function Tail(t: Transport): nat { if t.Rtu? then 2 else 0 }

  function Header(t: Transport, tid: u16, unit: byte, fc: byte, length: nat): (r: Bytes)
    requires length <= 65533
    ensures |r| == Lead(t)
  {
    if t.Rtu? then [unit, fc]
    else [tid / 256, tid % 256, 0, 0, (2 + length) / 256, (2 + length) % 256, unit, fc]
  }

  function Sealed(t: Transport, m: Bytes): (r: Bytes)
    ensures |r| == |m| + Tail(t) && m <= r
  {
    if t.Rtu? then m + Footer(m) else m
  }

  function Packet(t: Transport, tid: u16, unit: byte, fc: byte, length: nat, data: Bytes): (r: Bytes)
    requires length <= 65533
    ensures |r| == Lead(t) + |data| + Tail(t)
  {
    Sealed(t, Header(t, tid, unit, fc, length) + data)
  }

  // ----- Receiving -----

  /** What recv reports when the line ends before all the bytes came. */
  function Lack(fails: bool): int { if fails then TRANSPORT else TIMEOUT }

  function UnitOf(t: Transport, m: Bytes): byte
    requires |m| >= Lead(t)
  {
    m[Lead(t) - 2]
  }

  function FcOf(t: Transport, m: Bytes): byte
    requires |m| >= Lead(t)
  {
    m[Lead(t) - 1]
  }

  function TidOf(t: Transport, m: Bytes): u16
    requires |m| >= Lead(t)
  {
    if t.Rtu? then 0 else Word16(m[0], m[1])
  }

  /** The result of recv_msg_header. */
  function HeaderStatus(t: Transport, fails: bool, m: Bytes): int {
    if |m| < Lead(t) then Lack(fails)
    else if t.Tcp? && (Word16(m[2], m[3]) != 0 || Word16(m[4], m[5]) > 255) then INVALID_TCP_MBAP
    else NONE
  }

  /** The result of receiving `size` bytes of data and the footer. */
  function BodyStatus(t: Transport, fails: bool, m: Bytes, size: nat): int {
    if |m| < Lead(t) + size + Tail(t) then Lack(fails)
    else if t.Rtu? && !Accepts(m[..Lead(t) + size + 2]) then CRC
    else NONE
  }

  /** A size of one byte counting the bytes behind it; the count is 0 while it has not come. */
  function Counted(t: Transport, m: Bytes, at: nat): nat {
    at + 1 + if |m| > Lead(t) + at then m[Lead(t) + at] else 0
  }

  function Data(t: Transport, m: Bytes, size: nat): (r: Bytes)
    requires |m| >= Lead(t) + size
    ensures |r| == size
  {
    m[Lead(t)..Lead(t) + size]
  }

  /** What has been read when receiving `size` bytes with the framing around them has ended, well or badly. */
  function Used(t: Transport, m: Bytes, size: nat): nat {
    if |m| < Lead(t) + size + Tail(t) then |m| else Lead(t) + size + Tail(t)
  }

  lemma HeaderReceived(t: Transport, fails: bool, tid: u16, unit: byte, fc: byte, length: nat, m: Bytes)
    requires length <= 253 && Header(t, tid, unit, fc, length) <= m
    ensures HeaderStatus(t, fails, m) == NONE
    ensures UnitOf(t, m) == unit && FcOf(t, m) == fc && (t.Tcp? ==> TidOf(t, m) == tid)
  {
    if t.Tcp? {
      assert m[0] == tid / 256 && m[1] == tid % 256 && m[2] == 0 && m[3] == 0;
      assert m[4] == (2 + length) / 256 && m[5] == (2 + length) % 256 && m[6] == unit && m[7] == fc;
    } else {
      assert m[0] == unit && m[1] == fc;
    }
  }

  /** A packet is received as it was sent, whatever follows it on the line. */
  lemma PacketReceived(t: Transport, fails: bool, tid: u16, unit: byte, fc: byte, length: nat, data: Bytes, m: Bytes)
    requires length <= 253 && Packet(t, tid, unit, fc, length, data) <= m
    ensures HeaderStatus(t, fails, m) == NONE && BodyStatus(t, fails, m, |data|) == NONE
    ensures UnitOf(t, m) == unit && FcOf(t, m) == fc && (t.Tcp? ==> TidOf(t, m) == tid)
    ensures Data(t, m, |data|) == data && (forall i :: 0 <= i < |data| ==> m[Lead(t) + i] == data[i])
    ensures Used(t, m, |data|) == |Packet(t, tid, unit, fc, length, data)|
  {
    hide Accepts, Footer, Header, HeaderStatus, UnitOf, FcOf, TidOf;
    var head := Header(t, tid, unit, fc, length);
    var packet := Packet(t, tid, unit, fc, length, data);
    assert m[..|packet|] == packet;
    assert m[..|head + data|] == packet[..|head + data|] == head + data;
    assert m[..|head|] == (head + data)[..|head|] == head;
    HeaderReceived(t, fails, tid, unit, fc, length, m);
    assert Data(t, m, |data|) == (head + data)[|head|..] == data;
    forall i | 0 <= i < |data|
      ensures m[Lead(t) + i] == data[i]
    {
      assert Data(t, m, |data|)[i] == m[Lead(t) + i];
    }
    if t.Rtu? {
      SealedFrame(head + data);
    } else {
    }
  }

  /**
   On the serial line a damaged packet ends in the CRC error, if the receiver takes it to have as many bytes of data as
   were sent.
   */
  lemma DamagedPacketRefused(fails: bool, tid: u16, unit: byte, fc: byte, length: nat, data: Bytes, m: Bytes,
                             behind: Bytes, w: nat, k: nat)
    requires length <= 253 && Damaged(Packet(Rtu, tid, unit, fc, length, data), m, w, k)
    ensures |m| == |data| + 4 && BodyStatus(Rtu, fails, m + behind, |data|) == CRC
  {
    hide Accepts, Footer, LineBits, Distance, BurstApart;
    var frame := [unit, fc] + data;
    SealedFrame(frame);
    var packet := Packet(Rtu, tid, unit, fc, length, data);
    assert packet == frame + Footer(frame);
    FrameDamageRejected(packet, m, w, k);
    assert (m + behind)[..|m|] == m;
  }

  /** A received message sealed again is the message itself: an echo repeats the request byte for byte. */
  lemma ResealedIsReceived(t: Transport, fails: bool, m: Bytes, size: nat)
    requires BodyStatus(t, fails, m, size) == NONE
    ensures Sealed(t, m[..Lead(t) + size]) == m[..Lead(t) + size + Tail(t)]
  {
    hide Crc;
    if t.Rtu? {
      var n := 2 + size;
      var frame := m[..n + 2];
      assert frame[..n] == m[..n];
      assert Word16(frame[n], frame[n + 1]) == Crc(m[..n]);
      assert Footer(m[..n]) == [frame[n], frame[n + 1]];
      assert frame == frame[..n] + [frame[n], frame[n + 1]];
    } else {
    }
  }
}
