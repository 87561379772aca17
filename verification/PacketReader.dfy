/**
 The two packet readers of MQTTPacket.c: MQTTPacket_read, which blocks, and MQTTPacket_readnb, which keeps its
 place in a transport structure and is called again until the packet is complete.
 */
module PacketReader {
  import opened Base
  import opened RemainingLength
  import opened PacketIO

  // ----- What reading one packet from a stream amounts to -----

  /** The return code, the bytes left at the start of the buffer, and how much of the stream was taken. */
  datatype Outcome = Outcome(rc: int, image: Bytes, taken: nat)

  /** Where the body starts in the stream: a counted length byte that could not be read takes no space. */
  function FieldEnd(s: Bytes): nat {
    var f := FieldAt(s, 1, MAX_LENGTH_BYTES);
    if f.complete then 1 + f.len else f.len
  }

  /** The fixed header as it is put back into the buffer: always the shortest length field. */
  function HeaderImage(s: Bytes): (h: Bytes)
    requires s != []
    ensures |h| >= 2
  {
    [s[0]] + Encoded(FieldAt(s, 1, MAX_LENGTH_BYTES).value)
  }

  function ReadOne(s: Bytes, buflen: nat): Outcome {
    if s == [] then Outcome(-1, [], 0)
    else
      var f := FieldAt(s, 1, MAX_LENGTH_BYTES);
      var h, start := HeaderImage(s), FieldEnd(s);
      if f.value + |h| > buflen then Outcome(-1, h, start)
      else if start + f.value > |s| then Outcome(-1, h, |s|)
      else Outcome(TypeOf(s[0]), h + s[start..start + f.value], start + f.value)
  }

  lemma {:induction false} FieldEndInside(s: Bytes, pos: nat, fuel: nat)
    requires pos <= |s|
    ensures var f := FieldAt(s, pos, fuel);
            pos + f.len <= |s| + 1 && (!f.complete ==> f.len == fuel + 1 || pos + f.len == |s| + 1)
    decreases fuel
  {
    if fuel > 0 && pos < |s| {
      FieldEndInside(s, pos + 1, fuel - 1);
    }
  }

  /** A packet with the shortest length field that fits the buffer is read to its last byte and reproduced. */
  lemma ReadOneWhole(h: byte, body: Bytes, rest: Bytes, buflen: nat)
    requires |body| <= MAX_REMAINING_LENGTH
    requires |[h] + Encoded(|body|) + body| <= buflen
    ensures var packet := [h] + Encoded(|body|) + body;
            ReadOne(packet + rest, buflen) == Outcome(TypeOf(h), packet, |packet|)
  {
    hide Encoded, FieldAt;
    FixedHeader(h, body, rest);
    var packet := [h] + Encoded(|body|) + body;
    var s := packet + rest;
    DecodeHeader(h, body, rest);
    assert HeaderImage(s) == [h] + Encoded(|body|);
  }

  /** What is handed over as a packet always is one, with the shortest length field, and fits the buffer. */
  lemma ReadOneSound(s: Bytes, buflen: nat)
    requires ReadOne(s, buflen).rc >= 0
    ensures var o := ReadOne(s, buflen);
            && |o.image| <= buflen && FieldEnd(s) <= o.taken <= |s|
            && WholePacket(o.image) && PacketEnd(o.image) == |o.image| && o.rc == TypeOf(s[0])
            && o.image[0] == s[0] && o.image[BodyStart(o.image)..] == s[FieldEnd(s)..o.taken]
  {
    hide Encoded, FieldAt;
    FieldFits(s, 1);
    var o := ReadOne(s, buflen);
    var body := s[FieldEnd(s)..o.taken];
    FixedHeader(s[0], body, []);
    assert o.image + [] == o.image;
  }

  lemma DecodeHeader(h: byte, body: Bytes, rest: Bytes)
    requires |body| <= MAX_REMAINING_LENGTH
    ensures FieldAt([h] + Encoded(|body|) + body + rest, 1, MAX_LENGTH_BYTES) == Field(|body|, |Encoded(|body|)|, true)
  {
    FitsFourBytes(|body|);
    assert [h] + Encoded(|body|) + body + rest == [h] + Encoded(|body|) + (body + rest);
    DecodeEncoded([h], |body|, body + rest, MAX_LENGTH_BYTES);
  }

  /** The blocking reader takes a length field that never ended as if it had: here as a packet with an empty body. */
  lemma OverlongFieldAccepted()
    ensures var s: Bytes := [48, 128, 128, 128, 128];
            !FieldAt(s, 1, MAX_LENGTH_BYTES).complete && ReadOne(s, 5) == Outcome(PUBLISH, [48, 0], 5)
  {
    var s: Bytes := [48, 128, 128, 128, 128];
    assert FieldAt(s, 5, 0) == Field(0, 1, false);
    assert FieldAt(s, 4, 1) == Field(0, 2, false);
    assert FieldAt(s, 3, 2) == Field(0, 3, false);
    assert FieldAt(s, 2, 3) == Field(0, 4, false);
    assert FieldAt(s, 1, 4) == Field(0, 5, false);
    assert HeaderImage(s) == [48, 0];
  }

  // ----- The byte source -----

  /**
   What `getfn` draws from. A non-blocking source may fail, and may say "call again" `stalls` more times while it
   holds data.
   */
  class Source {
    var input: Bytes
    var stalls: nat
    var failed: bool

    constructor (data: Bytes, n: nat)
      ensures input == data && stalls == n && !failed
    {
      input, stalls, failed := data, n, false;
    }

    /** A blocking read of `count` bytes, short only at the end of the stream. */
    method Read(buf: array<byte>, pos: nat, count: nat) returns (rc: nat)
      requires pos + count <= buf.Length
      modifies this`input, buf
      ensures rc == if count <= |old(input)| then count else |old(input)|
      ensures input == old(input)[rc..]
      ensures buf[..pos + rc] == old(buf[..pos]) + old(input)[..rc]
      ensures forall i :: pos + rc <= i < buf.Length ==> buf[i] == old(buf[i])
    {
      rc := if count <= |input| then count else |input|;
      rc := Move(buf, pos, rc);
    }

    method Move(buf: array<byte>, pos: nat, n: nat) returns (rc: nat)
      requires n <= |input| && pos + n <= buf.Length
      modifies this`input, buf
      ensures rc == n
      ensures input == old(input)[n..]
      ensures buf[..pos + n] == old(buf[..pos]) + old(input)[..n]
      ensures forall i :: pos + n <= i < buf.Length ==> buf[i] == old(buf[i])
    {
      var end := CopyIn(buf, pos, input[..n]);
      input := input[n..];
      rc := n;
    }

    /** A non-blocking read: -1 for failure, 0 for "call again", or any number of bytes up to `count`. */
    method Poll(buf: array<byte>, pos: nat, count: nat) returns (frc: int)
      requires 1 <= count && pos + count <= buf.Length
      modifies this, buf
      ensures -1 <= frc <= count && frc <= |old(input)|
      ensures frc == -1 ==> failed && input == old(input) && stalls == old(stalls)
      ensures frc == 0 ==> old(input) == [] || stalls < old(stalls)
      ensures frc > 0 ==> stalls == old(stalls)
      ensures frc >= 0 ==> failed == old(failed) && input == old(input)[frc..]
      ensures frc >= 0 ==> buf[..pos + frc] == old(buf[..pos]) + old(input)[..frc]
      ensures frc == -1 ==> buf[..] == old(buf[..])
      ensures forall i :: pos + count <= i < buf.Length ==> buf[i] == old(buf[i])
    {
      var fails: bool, again: bool, want: int := *, *, *;
      if fails {
        failed := true;
        return -1;
      }
      if input == [] || (again && stalls > 0) {
        stalls := if input == [] then stalls else stalls - 1;
        return 0;
      }
      var n := if 1 <= want <= count && want <= |input| then want else 1;
      frc := Move(buf, pos, n);
    }
  }

  // ----- MQTTPacket_read -----

  /** MQTTPacket_decode over a blocking source; a read that comes back short ends the loop without a word. */
  method Decode(src: Source, ghost s: Bytes) returns (len: nat, value: nat)
    requires s != [] && src.input == s[1..]
    modifies src`input
    ensures len == FieldAt(s, 1, MAX_LENGTH_BYTES).len && value == FieldAt(s, 1, MAX_LENGTH_BYTES).value
    ensures FieldEnd(s) <= |s| && src.input == s[FieldEnd(s)..]
  {
    hide FieldAt, Plus;
    ghost var whole := Decoding(s, 1, 0, 0, 1);
    DecodingMeaning(s, 1, 0, 0, 1);
    FieldEndInside(s, 1, MAX_LENGTH_BYTES);
    var multiplier: nat := 1;
    len, value := 0, 0;
    var more := true;
    while more
      invariant len <= MAX_LENGTH_BYTES && 1 + len <= |s|
      invariant more ==> Decoding(s, 1 + len, len, value, multiplier) == whole
      invariant src.input == s[1 + len..]
      invariant !more ==> whole == Field(value, len, true)
      decreases more, MAX_LENGTH_BYTES - len
    {
      len := len + 1;
      if len > MAX_LENGTH_BYTES {
        break;
      }
      if src.input == [] {
        break;
      }
      var c := src.input[0];
      src.input := src.input[1..];
      value := Plus(value, c % 128, multiplier);
      multiplier := multiplier * 128;
      more := c >= 128;
    }
  }

  method Read(buf: array<byte>, buflen: nat, src: Source) returns (rc: int)
    requires 5 <= buflen <= buf.Length
    modifies src`input, buf
    ensures var o := ReadOne(old(src.input), buflen);
            rc == o.rc && o.taken <= |old(src.input)| && src.input == old(src.input)[o.taken..]
            && |o.image| <= buf.Length && buf[..|o.image|] == o.image
  {
    hide FieldAt, Encoded;
    ghost var s := src.input;
    rc := -1;
    var n := src.Read(buf, 0, 1);
    if n != 1 {
      return;
    }
    assert buf[..1] == [s[0]];
    FieldFits(s, 1);
    var len, remLen := Decode(src, s);
    len := Encode(buf, 1, remLen);
    len := 1 + len;
    assert buf[..len] == HeaderImage(s);
    if remLen + len > buflen {
      return;
    }
    rc := ReadRest(buf, buflen, src, len, remLen, s);
  }

  /** The rest of a packet whose header is in the buffer and whose length leaves room for it. */
  method ReadRest(buf: array<byte>, buflen: nat, src: Source, len: nat, remLen: nat, ghost s: Bytes) returns (rc: int)
    requires buflen <= buf.Length && s != [] && 0 < len && remLen + len <= buflen
    requires remLen == FieldAt(s, 1, MAX_LENGTH_BYTES).value && len == |HeaderImage(s)| && buf[..len] == HeaderImage(s)
    requires FieldEnd(s) <= |s| && src.input == s[FieldEnd(s)..]
    modifies src`input, buf
    ensures var o := ReadOne(s, buflen);
            rc == o.rc && o.taken <= |s| && src.input == s[o.taken..]
            && |o.image| <= buf.Length && buf[..|o.image|] == o.image
  {
    hide FieldAt, Encoded, HeaderImage;
    if remLen != 0 {
      var n := src.Read(buf, len, remLen);
      if n != remLen {
        assert buf[..len] == buf[..len + n][..len];
        return -1;
      }
    }
    assert s[FieldEnd(s)..][..remLen] == s[FieldEnd(s)..FieldEnd(s) + remLen];
    assert buf[..len + remLen] == HeaderImage(s) + s[FieldEnd(s)..FieldEnd(s) + remLen];
    assert buf[0] == HeaderImage(s)[0] == s[0] by {
      assert buf[0] == buf[..len + remLen][0];
      FirstOfHeader(s);
    }
    rc := TypeOf(buf[0]);
  }

  lemma FirstOfHeader(s: Bytes)
    requires s != []
    ensures HeaderImage(s)[0] == s[0]
  {
  }
}
