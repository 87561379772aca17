/**
 The variable-length "remaining length" field (MQTTPacket.c, section 2.2.3 of MQTT 3.1.1):
 little-endian base 128, the top bit of every byte but the last set.
 */
module RemainingLength {
  import opened Base

  const MAX_LENGTH_BYTES := 4
  const MAX_REMAINING_LENGTH := 268435455

  /** The field for `n`: the reference the encoding loop is proved against. */
  function Encoded(n: nat): (r: Bytes)
    ensures |r| >= 1
    ensures n < 128 ==> |r| == 1
    ensures n >= 128 ==> |r| >= 2
  {
    if n < 128 then [n] else [128 + n % 128] + Encoded(n / 128)
  }

  /**
   What decoding from `s[pos..]` gives with at most `fuel` bytes: the value accumulated so far, the number of
   bytes counted (a byte that cannot be had is counted too), and whether the field ended.
   */
  datatype Field = Field(value: nat, len: nat, complete: bool)

  function FieldAt(s: Bytes, pos: nat, fuel: nat): (f: Field)
    ensures f.len <= fuel + 1
    ensures f.complete ==> 1 <= f.len <= fuel && pos + f.len <= |s|
    decreases fuel
  {
    if fuel == 0 || pos >= |s| then Field(0, 1, false)
    else if s[pos] < 128 then Field(s[pos], 1, true)
    else
      var rest := FieldAt(s, pos + 1, fuel - 1);
      Field(s[pos] - 128 + 128 * rest.value, 1 + rest.len, rest.complete)
  }

  function Pow128(k: nat): (p: nat)
    ensures p >= 1
  {
    if k == 0 then 1 else 128 * Pow128(k - 1)
  }

  /** Size of a packet with `remLen` bytes after the fixed header, as MQTTPacket_len estimates it. */
  function PacketLen(remLen: nat): nat {
    var n := remLen + 1;
    if n < 128 then n + 1
    else if n < 16384 then n + 2
    else if n < 2097151 then n + 3
    else n + 4
  }

  /** The size such a packet really takes on the wire. */
  function TrueLen(remLen: nat): nat {
    1 + |Encoded(remLen)| + remLen
  }

  // ----- Properties of the field -----

  /** Decoding inverts encoding wherever the field stands, and reads exactly its bytes. */
  lemma {:induction false} DecodeEncoded(pre: Bytes, n: nat, post: Bytes, fuel: nat)
    requires |Encoded(n)| <= fuel
    ensures FieldAt(pre + Encoded(n) + post, |pre|, fuel) == Field(n, |Encoded(n)|, true)
    decreases n
  {
    var s := pre + Encoded(n) + post;
    if n >= 128 {
      var pre' := pre + [128 + n % 128];
      assert s == pre' + Encoded(n / 128) + post;
      DecodeEncoded(pre', n / 128, post, fuel - 1);
    }
  }

  /** The length of the encoding is exactly the number of base-128 digits. */
  lemma {:induction false} EncodedLength(n: nat, k: nat)
    requires k >= 1
    ensures |Encoded(n)| <= k <==> n < Pow128(k)
    decreases k
  {
    if k > 1 && n >= 128 {
      EncodedLength(n / 128, k - 1);
    }
    if k == 1 {
      assert Pow128(1) == 128 * Pow128(0);
    }
  }

  /** Exactly the values up to 268435455 have a field of at most four bytes. */
  lemma FitsFourBytes(n: nat)
    ensures |Encoded(n)| <= MAX_LENGTH_BYTES <==> n <= MAX_REMAINING_LENGTH
  {
    EncodedLength(n, 4);
    assert Pow128(4) == 128 * Pow128(3) == 128 * 128 * Pow128(2) == 128 * 128 * 128 * Pow128(1);
  }

  /** No field that decodes to `n` is shorter than the one the encoder writes. */
  lemma {:induction false} EncodedIsMinimal(s: Bytes, pos: nat, fuel: nat)
    requires FieldAt(s, pos, fuel).complete
    ensures |Encoded(FieldAt(s, pos, fuel).value)| <= FieldAt(s, pos, fuel).len
    decreases fuel
  {
    if s[pos] >= 128 {
      EncodedIsMinimal(s, pos + 1, fuel - 1);
      var rest := FieldAt(s, pos + 1, fuel - 1);
      var v := s[pos] - 128 + 128 * rest.value;
      if v >= 128 {
        assert v / 128 == rest.value;
      }
    }
  }

  /** The decoded value fits four digits whenever at most four bytes are read, complete field or not. */
  lemma {:induction false} FieldBounded(s: Bytes, pos: nat, fuel: nat)
    ensures FieldAt(s, pos, fuel).value < Pow128(fuel)
    decreases fuel
  {
    if fuel > 0 && pos < |s| {
      FieldBounded(s, pos + 1, fuel - 1);
      assert Pow128(fuel) == 128 * Pow128(fuel - 1);
    }
  }

  lemma FieldFits(s: Bytes, pos: nat)
    ensures FieldAt(s, pos, MAX_LENGTH_BYTES).value <= MAX_REMAINING_LENGTH
    ensures |Encoded(FieldAt(s, pos, MAX_LENGTH_BYTES).value)| <= MAX_LENGTH_BYTES
  {
    FieldBounded(s, pos, 4);
    assert Pow128(4) == 128 * Pow128(3) == 128 * 128 * Pow128(2) == 128 * 128 * 128 * Pow128(1);
    FitsFourBytes(FieldAt(s, pos, 4).value);
  }

  /**
   The estimate is exact except at the four values where the comparison after the increment
   tips too early, where it is one too large.
   */
  lemma PacketLenEstimate(n: nat)
    requires n <= MAX_REMAINING_LENGTH
    ensures PacketLen(n) == TrueLen(n) + (if n in {127, 16383, 2097150, 2097151} then 1 else 0)
  {
    EncodedLength(n, 1); EncodedLength(n, 2); EncodedLength(n, 3); EncodedLength(n, 4);
    assert Pow128(1) == 128 && Pow128(2) == 16384 && Pow128(3) == 2097152 && Pow128(4) == 268435456 by {
      assert Pow128(4) == 128 * Pow128(3) == 128 * 128 * Pow128(2) == 128 * 128 * 128 * Pow128(1);
    }
  }

  /** The size check that every serialiser makes is safe exactly for the lengths the protocol allows. */
  lemma PacketLenSafe(n: nat)
    ensures TrueLen(n) <= PacketLen(n) <==> n <= MAX_REMAINING_LENGTH
  {
    FitsFourBytes(n);
    if n <= MAX_REMAINING_LENGTH {
      PacketLenEstimate(n);
    }
  }

  /** The longest packet the protocol allows. */
  const MAX_PACKET := 5 + MAX_REMAINING_LENGTH

  /** A packet the protocol allows, or one the size check refuses for a buffer of this size. */
  predicate AllowedOrRefused(remLen: nat, size: nat) {
    remLen <= MAX_REMAINING_LENGTH || PacketLen(remLen) > size
  }

  // ----- The code's loops -----

  /** MQTTPacket_encode: writes the field at `buf[pos..]` and returns its size. */
  method Encode(buf: array<byte>, pos: nat, length: nat) returns (rc: nat)
    requires pos + |Encoded(length)| <= buf.Length
    modifies buf
    ensures rc == |Encoded(length)|
    ensures buf[..pos + rc] == old(buf[..pos]) + Encoded(length)
    ensures forall i :: pos + rc <= i < buf.Length ==> buf[i] == old(buf[i])
  {
    rc := 0;
    var left := length;
    var more := true;
    while more
      invariant more ==> rc + |Encoded(left)| == |Encoded(length)|
      invariant more ==> pos + rc <= buf.Length && buf[..pos + rc] + Encoded(left) == old(buf[..pos]) + Encoded(length)
      invariant !more ==> rc == |Encoded(length)| && buf[..pos + rc] == old(buf[..pos]) + Encoded(length)
      invariant forall i :: pos + |Encoded(length)| <= i < buf.Length ==> buf[i] == old(buf[i])
      decreases more, left
    {
      ghost var before := buf[..pos + rc];
      ghost var digits := Encoded(left);
      var d := left % 128;
      left := left / 128;
      if left > 0 {
        d := d + 128;
      }
      buf[pos + rc] := d;
      rc := rc + 1;
      more := left > 0;
      assert buf[..pos + rc] == before + [d];
      assert digits == if more then [d] + Encoded(left) else [d];
      assert more ==> buf[..pos + rc] + Encoded(left) == before + digits;
    }
  }

  /** One more digit, at its weight, on top of the value so far. */
  function Plus(value: nat, digit: nat, multiplier: nat): nat {
    value + digit * multiplier
  }

  /** The decoding loop as the code runs it: `len` bytes counted so far, giving `value`. */
  function Decoding(s: Bytes, pos: nat, len: nat, value: nat, multiplier: nat): Field
    requires len <= MAX_LENGTH_BYTES
    decreases MAX_LENGTH_BYTES - len
  {
    if len == MAX_LENGTH_BYTES || pos >= |s| then Field(value, len + 1, false)
    else
      var sum := Plus(value, s[pos] % 128, multiplier);
      if s[pos] < 128 then Field(sum, len + 1, true)
      else Decoding(s, pos + 1, len + 1, sum, multiplier * 128)
  }

  /** What the loop has still to add is the rest of the field times the current multiplier. */
  lemma {:induction false} DecodingMeaning(s: Bytes, pos: nat, len: nat, value: nat, multiplier: nat)
    requires len <= MAX_LENGTH_BYTES
    ensures var rest := FieldAt(s, pos, MAX_LENGTH_BYTES - len);
            Decoding(s, pos, len, value, multiplier)
            == Field(value + multiplier * rest.value, len + rest.len, rest.complete)
    decreases MAX_LENGTH_BYTES - len
  {
    if len < MAX_LENGTH_BYTES && pos < |s| && s[pos] >= 128 {
      var digit := s[pos] % 128;
      DecodingMeaning(s, pos + 1, len + 1, Plus(value, digit, multiplier), multiplier * 128);
      Distribute(multiplier, digit, FieldAt(s, pos + 1, MAX_LENGTH_BYTES - len - 1).value);
    }
  }

  lemma Distribute(multiplier: nat, digit: nat, rest: nat)
    ensures digit * multiplier + (multiplier * 128) * rest == multiplier * (digit + 128 * rest)
  {
  }

  /**
   MQTTPacket_decodeBuf: the loop of MQTTPacket_decode, fed from `buf[pos..]`. The buffer must hold the
   field, or the four bytes after which the loop gives up.
   */
  method DecodeBuf(buf: array<byte>, pos: nat) returns (rc: nat, value: nat)
    requires FieldAt(buf[..], pos, MAX_LENGTH_BYTES).complete || pos + MAX_LENGTH_BYTES <= buf.Length
    ensures rc == FieldAt(buf[..], pos, MAX_LENGTH_BYTES).len
    ensures value == FieldAt(buf[..], pos, MAX_LENGTH_BYTES).value
  {
    hide Plus, FieldAt;
    ghost var s := buf[..];
    ghost var whole := Decoding(s, pos, 0, 0, 1);
    DecodingMeaning(s, pos, 0, 0, 1);
    var multiplier: nat := 1;
    rc, value := 0, 0;
    var more := true;
    while more
      invariant rc <= MAX_LENGTH_BYTES
      invariant more ==> Decoding(s, pos + rc, rc, value, multiplier) == whole
      invariant whole.complete || pos + MAX_LENGTH_BYTES <= |s|
      invariant !more ==> rc == whole.len && value == whole.value
      decreases more, MAX_LENGTH_BYTES - rc
    {
      rc := rc + 1;
      if rc > MAX_LENGTH_BYTES {
        break;
      }
      var c := buf[pos + rc - 1];
      value := Plus(value, c % 128, multiplier);
      multiplier := multiplier * 128;
      more := c >= 128;
    }
  }

  /** MQTTPacket_len. */
  method Len(remLen: nat) returns (rc: nat)
    ensures rc == PacketLen(remLen)
    ensures remLen <= MAX_REMAINING_LENGTH ==> TrueLen(remLen) <= rc <= TrueLen(remLen) + 1
  {
    rc := remLen + 1;
    if rc < 128 {
      rc := rc + 1;
    } else if rc < 16384 {
      rc := rc + 2;
    } else if rc < 2097151 {
      rc := rc + 3;
    } else {
      rc := rc + 4;
    }
    if remLen <= MAX_REMAINING_LENGTH {
      PacketLenEstimate(remLen);
    }
  }
}
