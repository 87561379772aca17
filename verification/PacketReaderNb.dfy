/**
 MQTTPacket_readnb and MQTTPacket_decodenb: the resumable reader, proved to read what the blocking one reads
 however the stream is cut up.
 */
module PacketReaderNb {
  import opened Base
  import opened RemainingLength
  import opened PacketIO
  import opened PacketReader

  /**
   MQTTTransport, with its socket. The ghost fields are the stream from the first byte of the current packet on,
   and how much of it has been taken.
   */
  class Transport {
    const sck: Source
    var multiplier: nat
    var remLen: nat
    var len: nat
    var state: nat
    ghost var stream: Bytes
    ghost var taken: nat

    constructor (source: Source)
      ensures sck == source && state == 0 && taken == 0 && stream == source.input
    {
      sck := source;
      multiplier, remLen, len, state := *, *, *, 0;
      taken, stream := 0, source.input;
    }

    /** Reading the length field: `len` continuation bytes seen, and the loop's variables where the code left them. */
    ghost predicate InField()
      reads this
    {
      && len <= MAX_LENGTH_BYTES && taken == 1 + len <= |stream|
      && (len > 0 ==> Decoding(stream, taken, len, remLen, multiplier) == Decoding(stream, 1, 0, 0, 1))
    }

    /** Reading the body: the header is back in the buffer, followed by the part of the body already here. */
    ghost predicate InBody(buf: array<byte>, buflen: nat)
      reads this, buf
    {
      var f := FieldAt(stream, 1, MAX_LENGTH_BYTES);
      && stream != [] && f.complete
      && f.value + |HeaderImage(stream)| <= buflen <= buf.Length
      && len + remLen == f.value + |HeaderImage(stream)| && |HeaderImage(stream)| <= len
      && taken == FieldEnd(stream) + (len - |HeaderImage(stream)|) <= |stream|
      && buf[..len] == HeaderImage(stream) + stream[FieldEnd(stream)..taken]
    }

    ghost predicate Valid(buf: array<byte>, buflen: nat)
      reads this, sck, buf
    {
      && 5 <= buflen <= buf.Length
      && taken <= |stream| && sck.input == stream[taken..]
      && (state == 0 ==> taken == 0)
      && (state == 1 ==> InField() && buf[0] == stream[0])
      && (state == 2 ==> InBody(buf, buflen) && remLen > 0)
      && state <= 2
    }

    /** The stream holds all that one read of it wants: a whole packet, or a header announcing too large a one. */
    ghost predicate Sufficient(buflen: nat)
      reads this
    {
      var f := FieldAt(stream, 1, MAX_LENGTH_BYTES);
      && stream != [] && f.complete
      && (f.value + |HeaderImage(stream)| > buflen || FieldEnd(stream) + f.value <= |stream|)
    }

    /** Between calls such a stream always has something left to give. */
    lemma NotStarved(buf: array<byte>, buflen: nat)
      requires Valid(buf, buflen) && Sufficient(buflen)
      ensures sck.input != []
    {
      if state == 1 {
        DecodingMeaning(stream, 1, 0, 0, 1);
      }
    }

    /** Stages of the state machine, for ranking: each call moves on, takes bytes, or uses up a "call again". */
    ghost function Work(): int
      reads this, sck
    {
      |stream| - taken + sck.stalls
    }

    /**
     MQTTPacket_decodenb: the size of the length field once it has ended, 0 for "call again", -1 on failure or
     when four bytes did not end it.
     */
    method DecodeNb(cell: array<byte>) returns (rc: int)
      requires InField() && sck.input == stream[taken..] && cell.Length == 1
      modifies this`multiplier, this`remLen, this`len, this`taken, sck, cell
      ensures InField() || rc > 0
      ensures taken <= |stream| && sck.input == stream[taken..] && taken >= old(taken)
      ensures rc == -1 ==> sck.failed || (FieldAt(stream, 1, MAX_LENGTH_BYTES).len == 5 && taken == 5)
      ensures rc >= 0 ==> sck.failed == old(sck.failed)
      ensures rc == 0 ==> Work() < old(Work()) || sck.input == []
      ensures rc > 0 ==> FieldAt(stream, 1, MAX_LENGTH_BYTES) == Field(remLen, rc, true) && taken == 1 + rc
      ensures rc > 0 ==> Work() <= old(Work()) && rc <= MAX_LENGTH_BYTES
      ensures -1 <= rc
    {
      hide FieldAt, Plus;
      rc := -1;
      if len == 0 {
        multiplier, remLen := 1, 0;
      }
      ghost var whole := Decoding(stream, 1, 0, 0, 1);
      DecodingMeaning(stream, 1, 0, 0, 1);
      var c: byte := 128;
      while c >= 128
        invariant len <= MAX_LENGTH_BYTES && taken == 1 + len <= |stream|
        invariant c >= 128 ==> Decoding(stream, taken, len, remLen, multiplier) == whole
        invariant c < 128 ==> whole == Field(remLen, len, true)
        invariant sck.input == stream[taken..] && taken >= old(taken)
        invariant sck.failed == old(sck.failed)
        invariant taken == old(taken) ==> sck.stalls == old(sck.stalls)
        invariant Work() <= old(Work())
        invariant taken > old(taken) ==> Work() < old(Work())
        decreases if c >= 128 then 5 - len else 0
      {
        if len >= MAX_LENGTH_BYTES {
          return;
        }
        var frc := sck.Poll(cell, 0, 1);
        if frc == -1 {
          return;
        }
        if frc == 0 {
          rc := 0;
          return;
        }
        c := cell[0];
        assert cell[..1] == [stream[taken]];
        len, taken := len + 1, taken + 1;
        remLen := Plus(remLen, c % 128, multiplier);
        multiplier := multiplier * 128;
      }
      rc := len;
    }

    /** State 0: the header byte. */
    method ReadHeader(buf: array<byte>, buflen: nat) returns (rc: int)
      requires Valid(buf, buflen) && state == 0
      modifies this`len, this`state, this`taken, sck, buf
      ensures -1 <= rc <= 1
      ensures rc == -1 ==> sck.failed && taken == 0 && state == 0
      ensures rc >= 0 ==> sck.failed == old(sck.failed) && Valid(buf, buflen)
      ensures rc == 0 ==> state == 0 && (Work() < old(Work()) || sck.input == [])
      ensures rc == 1 ==> state == 1 && Work() < old(Work())
    {
      rc := sck.Poll(buf, 0, 1);
      if rc == 1 {
        len, state, taken := 0, 1, 1;
        assert buf[0] == buf[..1][0];
      }
    }

    /** State 2: the rest of the packet. `done` when the code leaves through its exit, which resets the state. */
    method ReadBody(buf: array<byte>, buflen: nat) returns (rc: int, done: bool)
      requires state == 2 && 5 <= buflen && InBody(buf, buflen) && sck.input == stream[taken..]
      modifies this`len, this`remLen, this`taken, sck, buf
      ensures -1 <= rc
      ensures rc == -1 ==> sck.failed && done
      ensures rc >= 0 ==> sck.failed == old(sck.failed)
      ensures !done ==> rc == 0 && Valid(buf, buflen) && (Work() < old(Work()) || sck.input == [])
      ensures done && rc >= 0 ==>
                var o := ReadOne(stream, buflen);
                rc == o.rc && taken == o.taken && |o.image| <= buf.Length && buf[..|o.image|] == o.image
                && taken <= |stream| && sck.input == stream[taken..]
    {
      hide FieldAt, HeaderImage, ReadOne, TypeOf;
      done := false;
      ghost var h := HeaderImage(stream);
      ghost var start := FieldEnd(stream);
      if remLen != 0 {
        rc := sck.Poll(buf, len, remLen);
        if rc == -1 {
          done := true;
          return;
        }
        if rc == 0 {
          return;
        }
        JoinSlices(stream, start, taken, rc);
        remLen, len, taken := remLen - rc, len + rc, taken + rc;
        assert buf[..len] == h + stream[start..taken];
        if remLen != 0 {
          rc := 0;
          return;
        }
      }
      Finished(stream, buflen, taken);
      assert buf[0] == buf[..len][0] == stream[0];
      rc := TypeOf(buf[0]);
      done := true;
    }

    /**
     MQTTPacket_readnb. Unless the source failed, a call that finishes the packet gives exactly what the blocking
     reader gives for the same stream; a length field of more than four bytes is an error here, where the
     blocking reader goes on.
     */
    method ReadNb(buf: array<byte>, buflen: nat, cell: array<byte>) returns (rc: int, ghost done: bool)
      requires Valid(buf, buflen) && cell.Length == 1 && cell != buf
      modifies this`multiplier, this`remLen, this`len, this`state, this`taken, sck, buf, cell
      ensures -1 <= rc
      ensures !done ==> rc == 0 && Valid(buf, buflen) && sck.failed == old(sck.failed)
      ensures !done ==> Work() < old(Work()) || sck.input == []
      ensures done ==> state == 0
      ensures done && rc >= 0 ==> sck.failed == old(sck.failed)
      ensures done && (rc >= 0 || !sck.failed) ==>
                var o := ReadOne(stream, buflen);
                if FieldAt(stream, 1, MAX_LENGTH_BYTES).complete then
                  && rc == o.rc && taken == o.taken && |o.image| <= buf.Length && buf[..|o.image|] == o.image
                  && taken <= |stream| && sck.input == stream[taken..]
                else rc == -1
    {
      hide FieldAt, Encoded, ReadOne;
      done := false;
      if state == 0 {
        rc := ReadHeader(buf, buflen);
        if rc == 0 {
          return;
        }
        if rc == -1 {
          state, done := 0, true;
          return;
        }
      }
      if state == 1 {
        rc := DecodeNb(cell);
        if rc == -1 {
          state, done := 0, true;
          return;
        }
        if rc == 0 {
          return;
        }
        assert buf[..1] == [stream[0]];
        FieldFits(stream, 1);
        ghost var field := rc;
        var n := Encode(buf, 1, remLen);
        len := 1 + n;
        assert buf[..len] == HeaderImage(stream);
        if remLen + len > buflen {
          state, done := 0, true;
          rc := -1;
          TooBig(stream, buflen);
          return;
        }
        assert FieldEnd(stream) == taken;
        assert stream[taken..taken] == [];
        state := 2;
      }
      var finished;
      rc, finished := ReadBody(buf, buflen);
      done := finished;
      if finished {
        state := 0;
      }
    }
  }

  lemma JoinSlices(s: Bytes, i: nat, j: nat, n: nat)
    requires i <= j && j + n <= |s|
    ensures s[i..j] + s[j..][..n] == s[i..j + n]
    ensures s[j..][n..] == s[j + n..]
  {
  }

  /** Once the body is all there, the blocking reader's outcome has been reached. */
  lemma Finished(s: Bytes, buflen: nat, taken: nat)
    requires s != [] && FieldAt(s, 1, MAX_LENGTH_BYTES).complete
    requires FieldAt(s, 1, MAX_LENGTH_BYTES).value + |HeaderImage(s)| <= buflen
    requires taken == FieldEnd(s) + FieldAt(s, 1, MAX_LENGTH_BYTES).value <= |s|
    ensures ReadOne(s, buflen) == Outcome(TypeOf(s[0]), HeaderImage(s) + s[FieldEnd(s)..taken], taken)
    ensures HeaderImage(s)[0] == s[0]
  {
  }

  lemma TooBig(s: Bytes, buflen: nat)
    requires s != [] && FieldAt(s, 1, MAX_LENGTH_BYTES).complete
    requires FieldAt(s, 1, MAX_LENGTH_BYTES).value + |HeaderImage(s)| > buflen
    ensures ReadOne(s, buflen) == Outcome(-1, HeaderImage(s), FieldEnd(s))
  {
  }

  /**
   A caller that repeats MQTTPacket_readnb until it stops saying "call again". However the source cuts the stream
   up and however often it stalls, this ends, and if the source does not fail it has done what one
   MQTTPacket_read of the same stream does.
   */
  method ReadUntilDone(buf: array<byte>, buflen: nat, trp: Transport) returns (rc: int)
    requires trp.Valid(buf, buflen) && trp.state == 0
    requires trp.Sufficient(buflen)
    requires TypeOf(trp.stream[0]) != 0
    modifies trp`multiplier, trp`remLen, trp`len, trp`state, trp`taken, trp.sck, buf
    ensures trp.state == 0
    ensures var o := ReadOne(trp.stream, buflen);
            trp.sck.failed ||
            (rc == o.rc && o.taken <= |trp.stream| && trp.sck.input == trp.stream[o.taken..]
             && |o.image| <= buf.Length && buf[..|o.image|] == o.image)
  {
    hide FieldAt, HeaderImage;
    var cell := new byte[1];
    rc := 0;
    ghost var done := false;
    while rc == 0
      invariant !done ==> rc == 0 && trp.Valid(buf, buflen) && trp.Sufficient(buflen)
      invariant done ==> rc != 0 && trp.state == 0
      invariant fresh(cell) && trp.stream == old(trp.stream)
      invariant var o := ReadOne(trp.stream, buflen);
                done && !trp.sck.failed ==>
                  rc == o.rc && o.taken <= |trp.stream| && trp.sck.input == trp.stream[o.taken..]
                  && |o.image| <= buf.Length && buf[..|o.image|] == o.image
      decreases !done, trp.Work()
    {
      rc, done := trp.ReadNb(buf, buflen, cell);
      if !done {
        trp.NotStarved(buf, buflen);
      }
    }
  }
}
