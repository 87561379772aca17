/**
 The bitwise CRC-16 of nanoMODBUS (nmbs_crc_calc; section 2.5.1.2 of MODBUS over Serial Line V1.02) and the errors it
 is sure to detect. Bits are listed in the order they go over the line, least significant first.
 */
module Crc16 {
  import opened Base

  type Bits = seq<bool>

  const POLYNOMIAL: bv16 := 0xA001

  // ----- Single steps of the register -----

  function Xor(x: bv16, y: bv16): bv16 { x ^ y }

  function Odd(x: bv16): bool { x & 1 != 0 }

  function Half(x: bv16): bv16 { x >> 1 }

  function Lsb(b: bool): bv16 { if b then 1 else 0 }

  /** A word with one more bit below it. */
  function Push(b: bool, w: bv16): bv16 { if b then 1 | (w << 1) else w << 1 }

  /** One turn of the inner loop. */
  function Shift(x: bv16): bv16 {
    if Odd(x) then Xor(Half(x), POLYNOMIAL) else Half(x)
  }

  function BitStep(x: bv16, b: bool): bv16 { Shift(Xor(x, Lsb(b))) }

  lemma ShiftInjective(x: bv16, y: bv16)
    requires Shift(x) == Shift(y)
    ensures x == y
  {
  }

  lemma XorInjective(x: bv16, y: bv16, w: bv16)
    ensures Xor(x, w) == Xor(y, w) ==> x == y
    ensures Xor(w, x) == Xor(w, y) ==> x == y
  {
  }

  lemma XorZero(x: bv16)
    ensures Xor(x, 0) == x
  {
  }

  /** A word that can take one more bit below it. */
  predicate Room(w: bv16) { w & 0x8000 == 0 }

  lemma PushOdd(b: bool, w: bv16)
    ensures Odd(Push(b, w)) == b
  {
  }

  lemma PushTrueHalf(w: bv16)
    requires Room(w)
    ensures Half(Push(true, w)) == w
  {
  }

  lemma PushFalseHalf(w: bv16)
    requires Room(w)
    ensures Half(Push(false, w)) == w
  {
  }

  lemma PushHalf(b: bool, w: bv16)
    requires Room(w)
    ensures Half(Push(b, w)) == w
  {
    hide Push, Half;
    if b {
      PushTrueHalf(w);
    } else {
      PushFalseHalf(w);
    }
  }

  lemma PushBits(b: bool, w: bv16)
    requires Room(w)
    ensures Odd(Push(b, w)) == b && Half(Push(b, w)) == w
  {
    PushOdd(b, w);
    PushHalf(b, w);
  }

  lemma PushInjective(a: bool, b: bool, v: bv16, w: bv16)
    requires Room(v) && Room(w) && Push(a, v) == Push(b, w)
    ensures a == b && v == w
  {
    hide Push, Room, Odd, Half;
    PushBits(a, v);
    PushBits(b, w);
  }

  lemma LsbBits(b: bool)
    ensures Odd(Lsb(b)) == b && Half(Lsb(b)) == 0
  {
  }

  lemma XorSwap(x: bv16, y: bv16, z: bv16)
    ensures Xor(Xor(x, y), z) == Xor(Xor(x, z), y)
  {
  }

  lemma XorBits(x: bv16, y: bv16)
    ensures Odd(Xor(x, y)) == (Odd(x) != Odd(y))
    ensures Half(Xor(x, y)) == Xor(Half(x), Half(y))
  {
  }

  /** The bits above the lowest pass through a shift untouched. */
  lemma ShiftSplits(x: bv16, b: bool, w: bv16)
    requires Room(w)
    ensures Shift(Xor(x, Push(b, w))) == Xor(BitStep(x, b), w)
  {
    hide Xor, Odd, Half, Lsb, Push, Room, POLYNOMIAL;
    PushBits(b, w);
    LsbBits(b);
    XorBits(x, Push(b, w));
    XorBits(x, Lsb(b));
    XorZero(Half(x));
    XorSwap(Half(x), w, POLYNOMIAL);
  }

  lemma OwnBit(x: bv16)
    ensures BitStep(x, Odd(x)) == Half(x)
  {
    hide Xor, Odd, Half, Lsb;
    LsbBits(Odd(x));
    XorBits(x, Lsb(Odd(x)));
    XorZero(Half(x));
  }

  // ----- The register -----

  function ShiftN(x: bv16, k: nat): bv16
    decreases k
  {
    if k == 0 then x else ShiftN(Shift(x), k - 1)
  }

  function HalfN(x: bv16, k: nat): bv16
    decreases k
  {
    if k == 0 then x else HalfN(Half(x), k - 1)
  }

  /** The bits of a number, and the number of some bits. */
  function BitsOf(v: nat, k: nat): (u: Bits)
    ensures |u| == k
  {
    if k == 0 then [] else [v % 2 == 1] + BitsOf(v / 2, k - 1)
  }

  function NumberOf(u: Bits): nat {
    if u == [] then 0 else (if u[0] then 1 else 0) + 2 * NumberOf(u[1..])
  }

  /** The register value whose low bits are `u`. */
  function Word(u: Bits): bv16 {
    if u == [] then 0 else Push(u[0], Word(u[1..]))
  }

  /** A byte as the `uint16_t` it is cast to. */
  function Widen(b: byte): bv16 { Word(BitsOf(b, 8)) }

  function ByteStep(x: bv16, b: byte): bv16 { ShiftN(Xor(x, Widen(b)), 8) }

  /** The register after the bytes of `data`. */
  function Register(x: bv16, data: Bytes): bv16 {
    if data == [] then x else ByteStep(Register(x, data[..|data| - 1]), data[|data| - 1])
  }

  /** The low `k` bits of a register. */
  function RegisterBits(x: bv16, k: nat): (u: Bits)
    ensures |u| == k
  {
    if k == 0 then [] else [Odd(x)] + RegisterBits(Half(x), k - 1)
  }

  function LowByte(x: bv16): byte {
    NumberBound(RegisterBits(x, 8));
    NumberOf(RegisterBits(x, 8))
  }

  function HighByte(x: bv16): byte { LowByte(HalfN(x, 8)) }

  /** nmbs_crc_calc returns the register with its bytes swapped. */
  function Crc(data: Bytes): u16 {
    Word16(LowByte(Register(0xFFFF, data)), HighByte(Register(0xFFFF, data)))
  }

  function Pow2(k: nat): nat { if k == 0 then 1 else 2 * Pow2(k - 1) }

  lemma {:induction false} NumberBelow(u: Bits)
    ensures NumberOf(u) < Pow2(|u|)
  {
    if u != [] {
      NumberBelow(u[1..]);
    }
  }

  lemma NumberBound(u: Bits)
    requires |u| == 8
    ensures NumberOf(u) < 256
  {
    NumberBelow(u);
    assert Pow2(8) == 256;
  }

  lemma {:induction false} BitsOfNumber(u: Bits)
    ensures BitsOf(NumberOf(u), |u|) == u
    decreases |u|
  {
    if u != [] {
      BitsOfNumber(u[1..]);
      assert u == [u[0]] + u[1..];
    }
  }

  lemma {:induction false} NumberOfBits(v: nat, k: nat)
    requires v < Pow2(k)
    ensures NumberOf(BitsOf(v, k)) == v
    decreases k
  {
    if k > 0 {
      NumberOfBits(v / 2, k - 1);
      assert BitsOf(v, k)[1..] == BitsOf(v / 2, k - 1);
    }
  }

  // ----- The register, one bit at a time -----

  function RunBits(x: bv16, u: Bits): bv16
    decreases |u|
  {
    if u == [] then x else RunBits(BitStep(x, u[0]), u[1..])
  }

  /** The bits of a message in line order. */
  function LineBits(data: Bytes): (u: Bits)
    ensures |u| == 8 * |data|
  {
    if data == [] then [] else LineBits(data[..|data| - 1]) + BitsOf(data[|data| - 1], 8)
  }

  lemma {:induction false} HalfTwice(x: bv16, j: nat, k: nat)
    ensures HalfN(HalfN(x, j), k) == HalfN(x, j + k)
    decreases j
  {
    hide Half;
    if j > 0 {
      HalfTwice(Half(x), j - 1, k);
    }
  }

  lemma HalfFive(h: bv16)
    ensures HalfN(h, 5) == h >> 5
  {
    assert HalfN(h, 5) == HalfN(h >> 1, 4) == HalfN(h >> 2, 3) == HalfN(h >> 3, 2) == HalfN(h >> 4, 1) == h >> 5;
  }

  lemma HalfFifteen(h: bv16)
    ensures HalfN(h, 15) == h >> 15
  {
    hide HalfN;
    HalfTwice(h, 5, 10);
    HalfTwice(HalfN(h, 5), 5, 5);
    HalfFive(h);
    HalfFive(h >> 5);
    HalfFive(h >> 10);
  }

  lemma {:induction false} HalfZero(k: nat)
    ensures HalfN(0, k) == 0
  {
    assert Half(0) == 0;
    if k > 0 {
      HalfZero(k - 1);
    }
  }

  lemma RoomLeft(w: bv16, k: nat)
    requires k <= 15 && HalfN(w, k) == 0
    ensures Room(w)
  {
    hide HalfN;
    HalfTwice(w, k, 15 - k);
    HalfZero(15 - k);
    HalfFifteen(w);
  }

  /** Up to fifteen bits leave room for another. */
  lemma {:induction false} WordFits(u: Bits)
    requires |u| <= 15
    ensures HalfN(Word(u), |u|) == 0 && Room(Word(u))
    decreases |u|
  {
    hide Push, Half, Room;
    if u == [] {
    } else {
      WordFits(u[1..]);
      PushBits(u[0], Word(u[1..]));
    }
    RoomLeft(Word(u), |u|);
  }

  // ----- The code's casts and shifts -----

  lemma PushValue(b: bool, w: bv16)
    requires Room(w)
    ensures Push(b, w) as int == 2 * (w as int) + if b then 1 else 0
  {
    if b {
      PushOneValue(w);
    } else {
      PushZeroValue(w);
    }
  }

  lemma PushOneValue(w: bv16)
    requires Room(w)
    ensures (1 | (w << 1)) as int == 2 * (w as int) + 1
  {
  }

  lemma PushZeroValue(w: bv16)
    requires Room(w)
    ensures (w << 1) as int == 2 * (w as int)
  {
  }

  lemma {:induction false} WordValue(u: Bits)
    requires |u| <= 15
    ensures Word(u) as int == NumberOf(u)
    decreases |u|
  {
    hide Push, Room;
    if u != [] {
      WordValue(u[1..]);
      WordFits(u[1..]);
      PushValue(u[0], Word(u[1..]));
    }
  }

  /** The code's cast of a byte. */
  lemma WidenIsCast(b: byte)
    ensures Widen(b) == b as bv16
  {
    hide Word, BitsOf, NumberOf;
    assert Pow2(8) == 256;
    NumberOfBits(b, 8);
    WordValue(BitsOf(b, 8));
    Recast(Widen(b), b);
  }

  lemma Recast(y: bv16, b: byte)
    requires y as int == b
    ensures y == b as bv16
  {
  }

  /** The two bytes of the register, and its value when they are exchanged as the code does it. */
  lemma BytesExchanged(x: bv16)
    ensures LowByte(x) == (x & 0xFF) as int && HighByte(x) == (x >> 8) as int
    ensures Word16(LowByte(x), HighByte(x)) == ((x << 8) | (x >> 8)) as int
  {
    hide Word, RegisterBits, NumberOf, Half, HalfN;
    LowIsMasked(x);
    HalfEight(x);
    LowIsMasked(HalfN(x, 8));
    TopByte(x);
    Exchanged(x);
  }

  lemma LowIsMasked(x: bv16)
    ensures LowByte(x) == (x & 0xFF) as int
  {
    hide Word, RegisterBits, NumberOf;
    WordValue(RegisterBits(x, 8));
    MaskedBits(x);
  }

  lemma MaskedBits(x: bv16)
    ensures Word(RegisterBits(x, 8)) == x & 0xFF
  {
    hide RegisterBits, Word, Push, Half, Odd;
    var x1, x2, x3, x4 := x >> 1, x >> 2, x >> 3, x >> 4;
    var x5, x6, x7 := x >> 5, x >> 6, x >> 7;
    Halves(x);
    FirstBit(x7, 0);
    FirstBit(x6, 1);
    FirstBit(x5, 2);
    FirstBit(x4, 3);
    FirstBit(x3, 4);
    FirstBit(x2, 5);
    FirstBit(x1, 6);
    FirstBit(x, 7);
    NoBits(Half(x7));
    Pushed(x);
  }

  lemma FirstBit(x: bv16, k: nat)
    ensures Word(RegisterBits(x, k + 1)) == Push(Odd(x), Word(RegisterBits(Half(x), k)))
  {
    hide Push, Odd, Half;
    assert RegisterBits(x, k + 1)[1..] == RegisterBits(Half(x), k);
  }

  lemma NoBits(x: bv16)
    ensures Word(RegisterBits(x, 0)) == 0
  {
  }

  lemma Halves(x: bv16)
    ensures Half(x) == x >> 1 && Half(x >> 1) == x >> 2 && Half(x >> 2) == x >> 3 && Half(x >> 3) == x >> 4
    ensures Half(x >> 4) == x >> 5 && Half(x >> 5) == x >> 6 && Half(x >> 6) == x >> 7
  {
  }

  lemma Pushed(x: bv16)
    ensures x & 0xFF
              == Push(Odd(x), Push(Odd(x >> 1), Push(Odd(x >> 2), Push(Odd(x >> 3),
                 Push(Odd(x >> 4), Push(Odd(x >> 5), Push(Odd(x >> 6), Push(Odd(x >> 7), 0))))))))
  {
  }

  lemma HalfEight(x: bv16)
    ensures HalfN(x, 8) == x >> 8
  {
  }

  lemma TopByte(x: bv16)
    ensures (x >> 8) & 0xFF == x >> 8
  {
  }

  lemma Exchanged(x: bv16)
    ensures ((x << 8) | (x >> 8)) as int == 256 * ((x & 0xFF) as int) + (x >> 8) as int
  {
  }

  /** One turn of the inner loop, as the code writes it. */
  method Turn(crc: bv16) returns (x: bv16)
    ensures x == Shift(crc)
  {
    x := crc;
    if x & 0x0001 != 0 {
      x := x >> 1;
      x := x ^ 0xA001;
    } else {
      x := x >> 1;
    }
  }

  /** And its other two expressions: the byte that is mixed in, and the exchange of the register's bytes at the end. */
  method Mix(crc: bv16, b: byte) returns (x: bv16)
    ensures x == Xor(crc, Widen(b))
  {
    WidenIsCast(b);
    x := crc ^ (b as bv16);
  }

  method Exchange(crc: bv16) returns (r: u16)
    ensures r == Word16(LowByte(crc), HighByte(crc))
  {
    hide LowByte, HighByte;
    var x: bv16 := (crc << 8) | (crc >> 8);
    assert x as int == Word16(LowByte(crc), HighByte(crc)) by {
      BytesExchanged(crc);
    }
    r := x as int;
  }

  /** nmbs_crc_calc. */
  method CrcCalc(data: array<byte>, length: nat) returns (crc: u16)
    requires length <= data.Length
    ensures crc == Crc(data[..length])
  {
    hide Widen, LowByte, HighByte, Shift, Xor;
    var x: bv16 := 0xFFFF;
    for i := 0 to length
      invariant x == Register(0xFFFF, data[..i])
    {
      ghost var before := x;
      x := Mix(x, data[i]);
      var j := 8;
      while j != 0
        invariant 0 <= j <= 8
        invariant ShiftN(x, j) == ByteStep(before, data[i])
      {
        x := Turn(x);
        j := j - 1;
      }
      assert data[..i + 1][..i] == data[..i];
    }
    crc := Exchange(x);
  }

  // ----- Bytes bit by bit -----

  /** Up to sixteen bits may be added to the register at once or one before each shift. */
  lemma {:induction false} Together(x: bv16, u: Bits)
    requires |u| <= 16
    ensures ShiftN(Xor(x, Word(u)), |u|) == RunBits(x, u)
    decreases |u|
  {
    hide Push, Xor, Shift, BitStep, Room;
    if u == [] {
      XorZero(x);
    } else {
      WordFits(u[1..]);
      ShiftSplits(x, u[0], Word(u[1..]));
      Together(BitStep(x, u[0]), u[1..]);
    }
  }

  lemma {:induction false} RunConcat(x: bv16, u: Bits, v: Bits)
    ensures RunBits(x, u + v) == RunBits(RunBits(x, u), v)
    decreases |u|
  {
    hide BitStep;
    if u == [] {
      assert u + v == v;
    } else {
      assert (u + v)[1..] == u[1..] + v;
      RunConcat(BitStep(x, u[0]), u[1..], v);
    }
  }

  /** The byte-wise register is the bit-wise one. */
  lemma {:induction false} RegisterIsBits(x: bv16, data: Bytes)
    ensures Register(x, data) == RunBits(x, LineBits(data))
  {
    hide BitStep, Shift, Xor, Word, BitsOf, ShiftN;
    if data != [] {
      var n := |data| - 1;
      RegisterIsBits(x, data[..n]);
      Together(Register(x, data[..n]), BitsOf(data[n], 8));
      RunConcat(x, LineBits(data[..n]), BitsOf(data[n], 8));
    }
  }

  // ----- Injectivity -----

  lemma {:induction false} ShiftNInjective(x: bv16, y: bv16, k: nat)
    requires ShiftN(x, k) == ShiftN(y, k)
    ensures x == y
    decreases k
  {
    hide Shift;
    if k > 0 {
      ShiftNInjective(Shift(x), Shift(y), k - 1);
      ShiftInjective(x, y);
    }
  }

  /** Different registers stay different while the same bits are run through them. */
  lemma {:induction false} RunInjective(x: bv16, y: bv16, u: Bits)
    requires RunBits(x, u) == RunBits(y, u)
    ensures x == y
    decreases |u|
  {
    hide Shift, Xor, Lsb;
    if u != [] {
      RunInjective(BitStep(x, u[0]), BitStep(y, u[0]), u[1..]);
      ShiftInjective(Xor(x, Lsb(u[0])), Xor(y, Lsb(u[0])));
      XorInjective(x, y, Lsb(u[0]));
    }
  }

  lemma {:induction false} WordInjective(u: Bits, v: Bits)
    requires |u| == |v| <= 16 && Word(u) == Word(v)
    ensures u == v
    decreases |u|
  {
    hide Push, Room;
    if u != [] {
      WordFits(u[1..]);
      WordFits(v[1..]);
      PushInjective(u[0], v[0], Word(u[1..]), Word(v[1..]));
      WordInjective(u[1..], v[1..]);
      assert u == [u[0]] + u[1..] && v == [v[0]] + v[1..];
    }
  }

  // ----- Error detection -----

  /** Two messages that differ, but only within `k` consecutive bits from bit `w` on. */
  predicate BurstApart(a: Bits, b: Bits, w: nat, k: nat) {
    && |a| == |b| && w + k <= |a|
    && a[..w] == b[..w] && a[w + k..] == b[w + k..] && a != b
  }

  /** Every burst of up to sixteen bits changes the register, in messages of any length and from any start. */
  lemma BurstDetected(x: bv16, a: Bits, b: Bits, w: nat, k: nat)
    requires k <= 16 && BurstApart(a, b, w, k)
    ensures RunBits(x, a) != RunBits(x, b)
  {
    hide RunBits, Word, Xor, ShiftN;
    var pre, post, ma, mb := a[..w], a[w + k..], a[w..w + k], b[w..w + k];
    assert a == pre + ma + post && b == pre + mb + post;
    assert ma != mb;
    RunConcat(x, pre + ma, post);
    RunConcat(x, pre + mb, post);
    RunConcat(x, pre, ma);
    RunConcat(x, pre, mb);
    if RunBits(x, a) == RunBits(x, b) {
      var y := RunBits(x, pre);
      RunInjective(RunBits(y, ma), RunBits(y, mb), post);
      SameWindow(y, ma, mb);
    }
  }

  lemma SameWindow(y: bv16, u: Bits, v: Bits)
    requires |u| == |v| <= 16 && RunBits(y, u) == RunBits(y, v)
    ensures u == v
  {
    hide RunBits, Word, Xor, ShiftN;
    Together(y, u);
    Together(y, v);
    ShiftNInjective(Xor(y, Word(u)), Xor(y, Word(v)), |u|);
    XorInjective(Word(u), Word(v), y);
    WordInjective(u, v);
  }

  /** How many bits two messages differ in. */
  function Distance(a: Bits, b: Bits): nat
    requires |a| == |b|
  {
    if a == [] then 0 else (if a[0] != b[0] then 1 else 0) + Distance(a[1..], b[1..])
  }

  /** Whether an odd number of the low `k` bits is set. */
  function Parity(x: bv16, k: nat): bool
    decreases k
  {
    if k == 0 then false else Odd(x) != Parity(Half(x), k - 1)
  }

  lemma {:induction false} ParityXor(x: bv16, y: bv16, k: nat)
    ensures Parity(Xor(x, y), k) == (Parity(x, k) != Parity(y, k))
    decreases k
  {
    hide Odd, Half, Xor;
    if k > 0 {
      XorBits(x, y);
      ParityXor(Half(x), Half(y), k - 1);
    }
  }

  lemma ParityTop(x: bv16)
    ensures Parity(Half(x), 16) == Parity(Half(x), 15)
  {
    TopBit(Half(x), 15);
    TopBitClear(x);
  }

  lemma TopBitClear(x: bv16)
    ensures !Odd(HalfN(Half(x), 15))
  {
    hide HalfN;
    HalfFifteen(Half(x));
  }

  lemma {:induction false} TopBit(x: bv16, k: nat)
    ensures Parity(x, k + 1) == (Parity(x, k) != Odd(HalfN(x, k)))
    decreases k
  {
    hide Odd, Half;
    if k > 0 {
      TopBit(Half(x), k - 1);
    }
  }

  lemma PolynomialParity()
    ensures Parity(POLYNOMIAL, 16)
  {
    assert Half(0xA001) == 0x5000 && Half(0x5000) == 0x2800 && Half(0x2800) == 0x1400 && Half(0x1400) == 0xA00;
    assert Half(0xA00) == 0x500 && Half(0x500) == 0x280 && Half(0x280) == 0x140 && Half(0x140) == 0xA0;
    assert Half(0xA0) == 0x50 && Half(0x50) == 0x28 && Half(0x28) == 0x14 && Half(0x14) == 0xA;
    assert Half(0xA) == 5 && Half(5) == 2 && Half(2) == 1 && Half(1) == 0;
    assert !Parity(0, 0) && Parity(1, 1) && Parity(2, 2) && !Parity(5, 3) && !Parity(0xA, 4);
    assert !Parity(0x14, 5) && !Parity(0x28, 6) && !Parity(0x50, 7) && !Parity(0xA0, 8) && !Parity(0x140, 9);
    assert !Parity(0x280, 10) && !Parity(0x500, 11) && !Parity(0xA00, 12) && !Parity(0x1400, 13);
    assert !Parity(0x2800, 14) && !Parity(0x5000, 15);
  }

  /** A shift keeps the parity, because the polynomial has an odd number of bits; an added bit flips it. */
  lemma ParityStep(x: bv16, b: bool)
    ensures Parity(BitStep(x, b), 16) == (Parity(x, 16) != b)
  {
    hide Odd, Half, Xor, POLYNOMIAL, HalfN;
    var y := Xor(x, Lsb(b));
    ParityXor(x, Lsb(b), 16);
    ParityLsb(b);
    ParityTop(y);
    ParityXor(Half(y), POLYNOMIAL, 16);
    PolynomialParity();
    assert Parity(y, 16) == (Odd(y) != Parity(Half(y), 15));
  }

  lemma ParityLsb(b: bool)
    ensures Parity(Lsb(b), 16) == b
  {
    assert Half(1) == 0 && Half(0) == 0;
    ParityZero(16);
    ParityZero(15);
  }

  lemma {:induction false} ParityZero(k: nat)
    ensures !Parity(0, k)
  {
    assert Half(0) == 0;
    if k > 0 {
      ParityZero(k - 1);
    }
  }

  lemma {:induction false} ParityApart(x: bv16, y: bv16, a: Bits, b: Bits)
    requires |a| == |b|
    ensures (Parity(RunBits(x, a), 16) != Parity(RunBits(y, b), 16)) <==>
            ((Parity(x, 16) != Parity(y, 16)) != (Distance(a, b) % 2 == 1))
    decreases |a|
  {
    hide Parity, BitStep;
    if a != [] {
      ParityStep(x, a[0]);
      ParityStep(y, b[0]);
      ParityApart(BitStep(x, a[0]), BitStep(y, b[0]), a[1..], b[1..]);
    }
  }

  /** Every error in an odd number of bits changes the register, however the bits are spread. */
  lemma OddErrorsDetected(x: bv16, a: Bits, b: Bits)
    requires |a| == |b| && Distance(a, b) % 2 == 1
    ensures RunBits(x, a) != RunBits(x, b)
  {
    ParityApart(x, x, a, b);
  }

  // ----- Frames -----

  /** The receiver's check of a frame: the CRC of all but the last two bytes against those two. */
  predicate Accepts(frame: Bytes) {
    |frame| >= 2 && Word16(frame[|frame| - 2], frame[|frame| - 1]) == Crc(frame[..|frame| - 2])
  }

  /** The bytes the sender appends, low byte of the register first. */
  function Footer(data: Bytes): Bytes { BigEndian(Crc(data)) }

  lemma {:induction false} OwnBits(x: bv16, k: nat)
    ensures RunBits(x, RegisterBits(x, k)) == HalfN(x, k)
    decreases k
  {
    hide Odd, Half, BitStep;
    if k > 0 {
      OwnBit(x);
      OwnBits(Half(x), k - 1);
      assert RegisterBits(x, k)[1..] == RegisterBits(Half(x), k - 1);
    }
  }

  lemma HalfAway(x: bv16)
    ensures HalfN(x, 16) == 0
  {
    HalfTwice(x, 1, 15);
    HalfFifteen(Half(x));
  }

  /** A byte run through the register bit by bit. */
  lemma ByteIsBits(x: bv16, b: byte)
    ensures ByteStep(x, b) == RunBits(x, BitsOf(b, 8))
  {
    Together(x, BitsOf(b, 8));
  }

  /** The register's own bytes, low one first, bring it to zero. */
  lemma OwnBytes(x: bv16)
    ensures ByteStep(ByteStep(x, LowByte(x)), HighByte(x)) == 0
  {
    hide RunBits, ByteStep, Half, HalfN, BitsOf, NumberOf;
    var x' := HalfN(x, 8);
    ByteIsBits(x, LowByte(x));
    BitsOfNumber(RegisterBits(x, 8));
    OwnBits(x, 8);
    ByteIsBits(x', HighByte(x));
    BitsOfNumber(RegisterBits(x', 8));
    OwnBits(x', 8);
    HalfTwice(x, 8, 8);
    HalfAway(x);
  }

  lemma StateInjective(x: bv16, y: bv16, b: byte)
    requires ByteStep(x, b) == ByteStep(y, b)
    ensures x == y
  {
    hide RunBits, ByteStep, BitsOf;
    ByteIsBits(x, b);
    ByteIsBits(y, b);
    RunInjective(x, y, BitsOf(b, 8));
  }

  /** Two bytes that bring the register to zero are its own. */
  lemma OnlyOwnBytes(x: bv16, b: byte, c: byte)
    requires ByteStep(ByteStep(x, b), c) == 0
    ensures b == LowByte(x) && c == HighByte(x)
  {
    hide RunBits, ByteStep, BitsOf, NumberOf, LowByte, HighByte;
    var l, h := LowByte(x), HighByte(x);
    OwnBytes(x);
    ByteIsBits(x, b);
    ByteIsBits(ByteStep(x, b), c);
    ByteIsBits(x, l);
    ByteIsBits(ByteStep(x, l), h);
    RunConcat(x, BitsOf(b, 8), BitsOf(c, 8));
    RunConcat(x, BitsOf(l, 8), BitsOf(h, 8));
    SameWindow(x, BitsOf(b, 8) + BitsOf(c, 8), BitsOf(l, 8) + BitsOf(h, 8));
    assert BitsOf(b, 8) == (BitsOf(b, 8) + BitsOf(c, 8))[..8] == BitsOf(l, 8);
    assert BitsOf(c, 8) == (BitsOf(b, 8) + BitsOf(c, 8))[8..] == BitsOf(h, 8);
    SameByte(b, l);
    SameByte(c, h);
  }

  lemma SameByte(b: byte, c: byte)
    requires BitsOf(b, 8) == BitsOf(c, 8)
    ensures b == c
  {
    hide BitsOf, NumberOf;
    assert Pow2(8) == 256;
    NumberOfBits(b, 8);
    NumberOfBits(c, 8);
  }

  lemma {:induction false} RegisterConcat(x: bv16, a: Bytes, b: Bytes)
    ensures Register(x, a + b) == Register(Register(x, a), b)
    decreases |b|
  {
    hide ByteStep;
    if b == [] {
      assert a + b == a;
    } else {
      assert (a + b)[..|a + b| - 1] == a + b[..|b| - 1];
      RegisterConcat(x, a, b[..|b| - 1]);
    }
  }

  lemma RegisterTwo(x: bv16, b: byte, c: byte)
    ensures Register(x, [b, c]) == ByteStep(ByteStep(x, b), c)
  {
    hide ByteStep;
    var one, two: Bytes := [b], [b, c];
    assert two[..1] == one && one[..0] == [];
    assert Register(x, one) == ByteStep(x, b);
  }

  /** The receiver's comparison is the same as asking that the register, run over the whole frame, ends at zero. */
  lemma AcceptsIffZero(frame: Bytes)
    ensures Accepts(frame) <==> |frame| >= 2 && Register(0xFFFF, frame) == 0
  {
    hide ByteStep, LowByte, HighByte, Register;
    if |frame| >= 2 {
      var n := |frame| - 2;
      var x, b, c := Register(0xFFFF, frame[..n]), frame[n], frame[n + 1];
      assert frame == frame[..n] + [b, c];
      RegisterConcat(0xFFFF, frame[..n], [b, c]);
      RegisterTwo(x, b, c);
      OwnBytes(x);
      if Register(0xFFFF, frame) == 0 {
        OnlyOwnBytes(x, b, c);
      }
    }
  }

  /** What a sender puts on the line is accepted, and brings the register to zero. */
  lemma SealedFrame(data: Bytes)
    ensures Accepts(data + Footer(data)) && Register(0xFFFF, data + Footer(data)) == 0
  {
    hide Register, Crc;
    var frame := data + Footer(data);
    assert frame[..|frame| - 2] == data;
    BigEndianRoundTrip(Crc(data));
    AcceptsIffZero(frame);
  }

  lemma CrcInjective(x: bv16, y: bv16)
    requires LowByte(x) == LowByte(y) && HighByte(x) == HighByte(y)
    ensures x == y
  {
    hide ByteStep, LowByte, HighByte;
    OwnBytes(x);
    OwnBytes(y);
    StateInjective(ByteStep(x, LowByte(x)), ByteStep(y, LowByte(x)), HighByte(x));
    StateInjective(x, y, LowByte(x));
  }

  /** No frame that passes the check is turned into another one by an error burst of up to sixteen line bits. */
  lemma FrameBurstRejected(sent: Bytes, received: Bytes, w: nat, k: nat)
    requires Accepts(sent) && k <= 16 && BurstApart(LineBits(sent), LineBits(received), w, k)
    ensures !Accepts(received)
  {
    hide LineBits, Register, RunBits, Accepts;
    AcceptsIffZero(sent);
    AcceptsIffZero(received);
    RegisterIsBits(0xFFFF, sent);
    RegisterIsBits(0xFFFF, received);
    BurstDetected(0xFFFF, LineBits(sent), LineBits(received), w, k);
  }

  /** Nor by flipping any odd number of bits, wherever they are. */
  lemma FrameOddErrorsRejected(sent: Bytes, received: Bytes)
    requires Accepts(sent) && |sent| == |received| && Distance(LineBits(sent), LineBits(received)) % 2 == 1
    ensures !Accepts(received)
  {
    hide LineBits, Register, RunBits, Accepts;
    AcceptsIffZero(sent);
    AcceptsIffZero(received);
    RegisterIsBits(0xFFFF, sent);
    RegisterIsBits(0xFFFF, received);
    OddErrorsDetected(0xFFFF, LineBits(sent), LineBits(received));
  }

  lemma {:induction false} LineBitsConcat(a: Bytes, b: Bytes)
    ensures LineBits(a + b) == LineBits(a) + LineBits(b)
    decreases |b|
  {
    hide BitsOf;
    if b == [] {
      assert a + b == a;
    } else {
      assert (a + b)[..|a + b| - 1] == a + b[..|b| - 1];
      LineBitsConcat(a, b[..|b| - 1]);
    }
  }

  lemma {:induction false} LineBitsInjective(a: Bytes, b: Bytes)
    requires LineBits(a) == LineBits(b)
    ensures a == b
    decreases |a|
  {
    hide BitsOf;
    if a != [] {
      var n := |a| - 1;
      assert |b| == |a|;
      assert LineBits(a)[8 * n..] == BitsOf(a[n], 8) && LineBits(b)[8 * n..] == BitsOf(b[n], 8);
      assert LineBits(a)[..8 * n] == LineBits(a[..n]) && LineBits(b)[..8 * n] == LineBits(b[..n]);
      SameByte(a[n], b[n]);
      LineBitsInjective(a[..n], b[..n]);
      assert a == a[..n] + [a[n]] && b == b[..n] + [b[n]];
    }
  }

  /** Messages that differ only within the two bytes from `i` on. */
  predicate TwoBytesApart(a: Bytes, b: Bytes, i: nat) {
    |a| == |b| && i + 2 <= |a| && a[..i] == b[..i] && a[i + 2..] == b[i + 2..] && a != b
  }

  lemma TwoBytesAreABurst(a: Bytes, b: Bytes, i: nat)
    requires TwoBytesApart(a, b, i)
    ensures BurstApart(LineBits(a), LineBits(b), 8 * i, 16)
  {
    hide LineBits;
    assert a == a[..i] + a[i..i + 2] + a[i + 2..] && b == b[..i] + b[i..i + 2] + b[i + 2..];
    LineBitsConcat(a[..i] + a[i..i + 2], a[i + 2..]);
    LineBitsConcat(b[..i] + b[i..i + 2], b[i + 2..]);
    LineBitsConcat(a[..i], a[i..i + 2]);
    LineBitsConcat(b[..i], b[i..i + 2]);
    if LineBits(a) == LineBits(b) {
      LineBitsInjective(a, b);
    }
  }

  /** Two messages of the same length that differ only within two neighbouring bytes have different CRCs. */
  lemma NeighbouringBytesDetected(a: Bytes, b: Bytes, i: nat)
    requires TwoBytesApart(a, b, i)
    ensures Crc(a) != Crc(b)
  {
    hide LineBits, Register, RunBits, LowByte, HighByte;
    TwoBytesAreABurst(a, b, i);
    RegisterIsBits(0xFFFF, a);
    RegisterIsBits(0xFFFF, b);
    BurstDetected(0xFFFF, LineBits(a), LineBits(b), 8 * i, 16);
    var x, y := Register(0xFFFF, a), Register(0xFFFF, b);
    if Crc(a) == Crc(b) {
      assert LowByte(x) == LowByte(y) && HighByte(x) == HighByte(y);
      CrcInjective(x, y);
    }
  }
}
