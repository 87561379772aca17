/**
 How far apart two frames with a good CRC are. The register, shifted without input, comes back to where it was after
 32767 steps and not before; so any two flipped bits closer together than that are detected, and frames of up to 4095
 bytes have Hamming distance 4.
 */
module CrcDistance {
  import opened Base
  import opened Crc16
  import opened Primes

  /** The register after `k` shifts, started with its top bit: the powers of the generator. */
  function Power(k: nat): bv16 { ShiftN(0x8000, k) }

  const PERIOD := 32767

  // ----- Shifts -----

  lemma XorGroup(x: bv16, y: bv16, z: bv16)
    ensures Xor(Xor(x, y), z) == Xor(x, Xor(y, z))
  {
  }

  lemma XorSelf(x: bv16)
    ensures Xor(x, x) == 0
  {
  }

  lemma XorPair(x: bv16, y: bv16, w: bv16)
    ensures Xor(Xor(x, w), Xor(y, w)) == Xor(x, y)
    ensures Xor(Xor(x, w), y) == Xor(Xor(x, y), w) && Xor(x, Xor(y, w)) == Xor(Xor(x, y), w)
  {
    hide Xor;
    XorSwap(x, w, y);
    XorGroup(x, y, w);
    XorGroup(Xor(x, w), y, w);
    XorGroup(Xor(x, y), w, w);
    XorSelf(w);
    XorZero(Xor(x, y));
  }

  lemma ShiftLinear(x: bv16, y: bv16)
    ensures Shift(Xor(x, y)) == Xor(Shift(x), Shift(y))
  {
    hide Xor, Odd, Half, POLYNOMIAL;
    XorBits(x, y);
    XorPair(Half(x), Half(y), POLYNOMIAL);
  }

  lemma {:induction false} ShiftNLinear(x: bv16, y: bv16, k: nat)
    ensures ShiftN(Xor(x, y), k) == Xor(ShiftN(x, k), ShiftN(y, k))
    decreases k
  {
    hide Shift, Xor;
    if k > 0 {
      ShiftLinear(x, y);
      ShiftNLinear(Shift(x), Shift(y), k - 1);
    }
  }

  lemma {:induction false} ShiftNAdd(x: bv16, a: nat, b: nat)
    ensures ShiftN(x, a + b) == ShiftN(ShiftN(x, a), b)
    decreases a
  {
    hide Shift;
    if a > 0 {
      ShiftNAdd(Shift(x), a - 1, b);
    }
  }

  lemma {:induction false} ShiftNZero(k: nat)
    ensures ShiftN(0, k) == 0
    decreases k
  {
    if k > 0 {
      assert Shift(0) == 0;
      ShiftNZero(k - 1);
    }
  }

  // ----- Multiplying powers -----

  function Up(y: bv16): bv16 { y << 1 }

  function Top(y: bv16): bool { y & 0x8000 != 0 }

  function UpN(y: bv16, k: nat): bv16
    decreases k
  {
    if k == 0 then y else UpN(Up(y), k - 1)
  }

  /** The product of two registers read as polynomials; the top `k` bits of the first are looked at. */
  function Times(y: bv16, z: bv16, k: nat): bv16
    decreases k
  {
    if k == 0 then 0 else Xor(if Top(y) then z else 0, Times(Up(y), Shift(z), k - 1))
  }

  lemma TopAndRest(y: bv16)
    ensures y == Xor(if Top(y) then 0x8000 else 0, Shift(Up(y)))
  {
    hide Xor, Odd, Half, Up, Top;
    UpIsEven(y);
    TopAndHalf(y);
  }

  lemma UpIsEven(y: bv16)
    ensures !Odd(Up(y))
  {
  }

  lemma TopSet(y: bv16)
    requires y & 0x8000 != 0
    ensures y == 0x8000 ^ ((y << 1) >> 1)
  {
  }

  lemma TopClear(y: bv16)
    requires y & 0x8000 == 0
    ensures y == (y << 1) >> 1
  {
  }

  lemma ZeroXor(x: bv16)
    ensures Xor(0, x) == x
  {
  }

  lemma TopAndHalf(y: bv16)
    ensures y == Xor(if Top(y) then 0x8000 else 0, Half(Up(y)))
  {
    if Top(y) {
      TopSet(y);
    } else {
      TopClear(y);
      ZeroXor(Half(Up(y)));
    }
  }

  lemma {:induction false} TimesIsShift(y: bv16, m: nat, k: nat)
    requires UpN(y, k) == 0
    ensures Times(y, Power(m), k) == ShiftN(y, m)
    decreases k
  {
    hide Xor, Shift, Up, Top;
    if k == 0 {
      ShiftNZero(m);
    } else {
      var top: bv16 := if Top(y) then 0x8000 else 0;
      TimesIsShift(Up(y), m + 1, k - 1);
      ShiftNAdd(0x8000, m, 1);
      assert Shift(Power(m)) == ShiftN(Power(m), 1);
      TopAndRest(y);
      ShiftNLinear(top, Shift(Up(y)), m);
      ShiftNZero(m);
    }
  }

  lemma SixteenUp(y: bv16)
    ensures UpN(y, 16) == 0
  {
    assert UpN(y, 16) == UpN(y << 4, 12) == UpN(y << 8, 8) == UpN(y << 12, 4);
  }

  /** Four bits of a product, and all sixteen of them, written out. */
  function Times4(y: bv16, z: bv16): bv16 {
    var z1 := Shift(z);
    var z2 := Shift(z1);
    var z3 := Shift(z2);
    Xor(if y & 0x8000 != 0 then z else 0,
        Xor(if y & 0x4000 != 0 then z1 else 0,
            Xor(if y & 0x2000 != 0 then z2 else 0, if y & 0x1000 != 0 then z3 else 0)))
  }

  function Shift4(z: bv16): bv16 { Shift(Shift(Shift(Shift(z)))) }

  function Times16(y: bv16, z: bv16): bv16 {
    var z1 := Shift4(z);
    var z2 := Shift4(z1);
    var z3 := Shift4(z2);
    Xor(Times4(y, z), Xor(Times4(y << 4, z1), Xor(Times4(y << 8, z2), Times4(y << 12, z3))))
  }

  lemma TopsUp(y: bv16)
    ensures Top(Up(y)) == (y & 0x4000 != 0) && Top(Up(Up(y))) == (y & 0x2000 != 0)
    ensures Top(Up(Up(Up(y)))) == (y & 0x1000 != 0) && Up(Up(Up(Up(y)))) == y << 4
  {
  }

  lemma FourBits(y: bv16, z: bv16, k: nat)
    ensures Times(y, z, k + 4) == Xor(Times4(y, z), Times(y << 4, Shift4(z), k))
  {
    hide Xor, Shift, Up;
    TopsUp(y);
    var z1, y1 := Shift(z), Up(y);
    var z2, y2 := Shift(z1), Up(y1);
    var z3, y3 := Shift(z2), Up(y2);
    var rest := Times(y << 4, Shift4(z), k);
    var a, b: bv16 := if Top(y) then z else 0, if Top(y1) then z1 else 0;
    var c, d: bv16 := if Top(y2) then z2 else 0, if Top(y3) then z3 else 0;
    assert Times(y3, z3, k + 1) == Xor(d, rest);
    assert Times(y2, z2, k + 2) == Xor(c, Xor(d, rest));
    assert Times(y1, z1, k + 3) == Xor(b, Xor(c, Xor(d, rest)));
    assert Times(y, z, k + 4) == Xor(a, Xor(b, Xor(c, Xor(d, rest))));
    XorFour(a, b, c, d, rest);
  }

  lemma XorFour(a: bv16, b: bv16, c: bv16, d: bv16, e: bv16)
    ensures Xor(a, Xor(b, Xor(c, Xor(d, e)))) == Xor(Xor(a, Xor(b, Xor(c, d))), e)
  {
    hide Xor;
    XorGroup(c, d, e);
    XorGroup(b, Xor(c, d), e);
    XorGroup(a, Xor(b, Xor(c, d)), e);
  }

  lemma WrittenOut(y: bv16, z: bv16)
    ensures Times(y, z, 16) == Times16(y, z)
  {
    hide Times, Times4, Shift4;
    var z1, z2, z3 := Shift4(z), Shift4(Shift4(z)), Shift4(Shift4(Shift4(z)));
    FourBits(y, z, 12);
    FourBits(y << 4, z1, 8);
    FourBits(y << 8, z2, 4);
    LastFour(y << 12, z3);
    UpTwice(y);
  }

  lemma LastFour(y: bv16, z: bv16)
    ensures Times(y, z, 4) == Times4(y, z)
  {
    hide Times4, Shift4;
    FourBits(y, z, 0);
    XorZero(Times4(y, z));
  }

  lemma UpTwice(y: bv16)
    ensures (y << 4) << 4 == y << 8 && (y << 8) << 4 == y << 12
  {
  }

  lemma PowerSum(a: nat, b: nat)
    ensures Power(a + b) == Times16(Power(a), Power(b))
  {
    hide Times, Times16, UpN, ShiftN;
    SixteenUp(Power(a));
    TimesIsShift(Power(a), b, 16);
    ShiftNAdd(0x8000, a, b);
    WrittenOut(Power(a), Power(b));
  }

  /** The powers needed below, each from earlier ones. */
  lemma Sum(a: nat, b: nat, p: bv16, q: bv16, r: bv16)
    requires Power(a) == p && Power(b) == q && Times16(p, q) == r
    ensures Power(a + b) == r
  {
    PowerSum(a, b);
  }
  /** Twice a power is its square. */
  lemma Doubled()
    ensures Power(1) == 0x4000 && Power(2) == 0x2000 && Power(4) == 0x0800 && Power(8) == 0x0080
    ensures Power(16) == 0xA001 && Power(32) == 0xE801 && Power(64) == 0xC881 && Power(128) == 0x6080
  {
    hide Power;
    FirstPower();
    Sum(1, 1, 0x4000, 0x4000, 0x2000);
    Sum(2, 2, 0x2000, 0x2000, 0x0800);
    Sum(4, 4, 0x0800, 0x0800, 0x0080);
    Sum(8, 8, 0x0080, 0x0080, 0xA001);
    Sum(16, 16, 0xA001, 0xA001, 0xE801);
    Sum(32, 32, 0xE801, 0xE801, 0xC881);
    Sum(64, 64, 0xC881, 0xC881, 0x6080);
  }

  lemma FirstPower()
    ensures Power(1) == 0x4000
  {
    assert Shift(0x8000) == 0x4000;
  }

  lemma DoubledOn()
    ensures Power(256) == 0x8801 && Power(512) == 0xE081 && Power(1024) == 0x6800 && Power(2048) == 0x2880
    ensures Power(4096) == 0xA881 && Power(8192) == 0x4880 && Power(16384) == 0x8081 && Power(32768) == 0x4000
  {
    hide Power;
    Doubled();
    Sum(128, 128, 0x6080, 0x6080, 0x8801);
    Sum(256, 256, 0x8801, 0x8801, 0xE081);
    Sum(512, 512, 0xE081, 0xE081, 0x6800);
    Sum(1024, 1024, 0x6800, 0x6800, 0x2880);
    Sum(2048, 2048, 0x2880, 0x2880, 0xA881);
    Sum(4096, 4096, 0xA881, 0xA881, 0x4880);
    Sum(8192, 8192, 0x4880, 0x4880, 0x8081);
    Sum(16384, 16384, 0x8081, 0x8081, 0x4000);
  }

  /** The powers whose exponents are the period divided by its prime factors 7, 31 and 151. */
  lemma Divisors()
    ensures Power(4681) == 0x8C69 && Power(1057) == 0xCE41 && Power(217) == 0x3E55
  {
    hide Power;
    Doubled();
    DoubledOn();
    Sum(4096, 512, 0xA881, 0xE081, 0x7A48);
    Sum(4608, 64, 0x7A48, 0xC881, 0x51DE);
    Sum(4672, 8, 0x51DE, 0x0080, 0x58D1);
    Sum(4680, 1, 0x58D1, 0x4000, 0x8C69);
    Sum(1024, 32, 0x6800, 0xE801, 0xDC81);
    Sum(1056, 1, 0xDC81, 0x4000, 0xCE41);
    Sum(128, 64, 0x6080, 0xC881, 0x6668);
    Sum(192, 16, 0x6668, 0xA001, 0xEAAF);
    Sum(208, 8, 0xEAAF, 0x0080, 0x7CAA);
    Sum(216, 1, 0x7CAA, 0x4000, 0x3E55);
  }

  // ----- The period -----

  /** After `n` shifts the register is back where it was. */
  predicate Returns(n: nat) { Power(n) == 0x8000 }

  lemma PeriodReturns()
    ensures Returns(PERIOD)
  {
    hide Power, Shift;
    DoubledOn();
    PowerNext(PERIOD);
    PowerNext(0);
    FirstPower();
    assert Power(0) == 0x8000 by {
      NoShift();
    }
    ShiftInjective(Power(PERIOD), Power(0));
  }

  lemma NoShift()
    ensures Power(0) == 0x8000
  {
  }

  lemma PowerNext(n: nat)
    ensures Power(n + 1) == Shift(Power(n))
  {
    hide Shift;
    ShiftNAdd(0x8000, n, 1);
    assert ShiftN(Power(n), 1) == ShiftN(Shift(Power(n)), 0);
  }

  lemma Difference(a: nat, b: nat)
    requires Returns(a) && Returns(b) && b <= a
    ensures Returns(a - b)
  {
    hide ShiftN;
    ShiftNAdd(0x8000, a - b, b);
    ShiftNInjective(Power(a - b), 0x8000, b);
  }

  lemma {:induction false} Multiple(g: nat, k: nat)
    requires Returns(g)
    ensures Returns(g * k)
    decreases k
  {
    if k == 0 {
      NoShift();
    } else {
      Multiple(g, k - 1);
      assert g * k == g * (k - 1) + g;
      ShiftNAdd(0x8000, g * (k - 1), g);
    }
  }

  /** Two numbers of shifts that return have a common measure that returns. */
  lemma {:induction false} Measure(a: nat, b: nat) returns (g: nat, p: nat, q: nat)
    requires a > 0 && b > 0 && Returns(a) && Returns(b)
    ensures Returns(g) && g > 0 && p > 0 && q > 0 && a == g * p && b == g * q
    decreases a + b
  {
    hide Returns;
    if a == b {
      g, p, q := a, 1, 1;
    } else if a > b {
      Difference(a, b);
      g, p, q := Measure(a - b, b);
      assert g * (p + q) == g * p + g * q;
      p := p + q;
    } else {
      Difference(b, a);
      g, p, q := Measure(a, b - a);
      assert g * (p + q) == g * p + g * q;
      q := p + q;
    }
  }

  lemma PartReturns(g: nat, p: nat, d: nat)
    requires Returns(g) && g * p == PERIOD && d > 0 && p % d == 0
    ensures Returns(PERIOD / d)
  {
    hide Returns;
    var k := p / d;
    Multiple(g, k);
    assert g * p == g * (d * k) == d * (g * k);
    Divided(PERIOD, d, g * k);
  }

  lemma NotAtDivisors()
    ensures !Returns(4681) && !Returns(1057) && !Returns(217)
  {
    hide Power;
    Divisors();
  }

  /** A number of shifts that returns and divides the period is the period. */
  lemma OnlyWhole(g: nat, p: nat)
    requires Returns(g) && g * p == PERIOD && p > 0
    ensures p == 1
  {
    hide Returns;
    NotAtDivisors();
    if p > 1 {
      Cofactor(g, p);
      if p % 7 == 0 {
        PartReturns(g, p, 7);
      } else if p % 31 == 0 {
        PartReturns(g, p, 31);
      } else {
        PartReturns(g, p, 151);
      }
    }
  }

  /** No fewer shifts return. */
  lemma NoEarlierReturn(n: nat)
    requires n > 0 && Returns(n)
    ensures n >= PERIOD
  {
    hide Returns;
    PeriodReturns();
    var g, p, q := Measure(PERIOD, n);
    OnlyWhole(g, p);
    Ordered(g, 1, q);
  }

  /** Exactly the multiples of the period return. */
  lemma ReturnsIff(n: nat)
    ensures Returns(n) <==> n % PERIOD == 0
  {
    hide Returns;
    var whole := PERIOD * (n / PERIOD);
    PeriodReturns();
    Multiple(PERIOD, n / PERIOD);
    if Returns(n) {
      Difference(n, whole);
      if n % PERIOD != 0 {
        assert n - whole == n % PERIOD;
        NoEarlierReturn(n % PERIOD);
      }
    }
  }
  // ----- Two errors -----

  lemma StepApart(x: bv16, y: bv16, b: bool)
    ensures Xor(BitStep(x, b), BitStep(y, b)) == Shift(Xor(x, y))
  {
    hide Xor, Shift, Lsb;
    ShiftLinear(Xor(x, Lsb(b)), Xor(y, Lsb(b)));
    XorPair(x, y, Lsb(b));
  }

  /** The same bits run through two registers shift their difference. */
  lemma {:induction false} RunApart(x: bv16, y: bv16, u: Bits)
    ensures Xor(RunBits(x, u), RunBits(y, u)) == ShiftN(Xor(x, y), |u|)
    decreases |u|
  {
    hide Xor, Shift, BitStep;
    if u != [] {
      StepApart(x, y, u[0]);
      RunApart(BitStep(x, u[0]), BitStep(y, u[0]), u[1..]);
    }
  }

  lemma XorSame(x: bv16, y: bv16)
    ensures Xor(x, y) == 0 <==> x == y
  {
  }

  lemma OneBit(b: bool)
    ensures Xor(Lsb(b), Lsb(!b)) == 1
  {
  }

  /** Different bits run through two registers: the difference is shifted with one bit more or less in it. */
  lemma FlippedStep(x: bv16, y: bv16, b: bool)
    ensures Xor(BitStep(x, b), BitStep(y, !b)) == Shift(Xor(Xor(x, y), 1))
  {
    hide Xor, Shift, Lsb;
    var l, l' := Lsb(b), Lsb(!b);
    ShiftLinear(Xor(x, l), Xor(y, l'));
    OneBit(b);
    XorSwap(x, l, Xor(y, l'));
    XorGroup(x, Xor(y, l'), l);
    XorSwap(y, l', l);
    XorGroup(y, l, l');
    XorGroup(x, y, Xor(l, l'));
  }

  lemma OneIsPower()
    ensures Power(15) == 1
  {
    hide Power;
    Doubled();
    Sum(8, 4, 0x0080, 0x0800, 0x0008);
    Sum(12, 2, 0x0008, 0x2000, 0x0002);
    Sum(14, 1, 0x0002, 0x4000, 0x0001);
  }

  lemma OneReturns(n: nat)
    ensures ShiftN(1, n) == 1 <==> n % PERIOD == 0
  {
    hide ShiftN;
    OneIsPower();
    ReturnsIff(n);
    ShiftNAdd(0x8000, 15, n);
    ShiftNAdd(0x8000, n, 15);
    if ShiftN(1, n) == 1 {
      ShiftNInjective(Power(n), 0x8000, 15);
    }
  }

  /** The messages differ in exactly the bits `i` and `j`. */
  predicate TwoFlipped(a: Bits, b: Bits, i: nat, j: nat) {
    && |a| == |b| && i < j < |a|
    && a[..i] == b[..i] && a[i] != b[i] && a[i + 1..j] == b[i + 1..j] && a[j] != b[j] && a[j + 1..] == b[j + 1..]
  }

  lemma RunSplit(x: bv16, a: Bits, i: nat)
    requires i < |a|
    ensures RunBits(x, a) == RunBits(BitStep(RunBits(x, a[..i]), a[i]), a[i + 1..])
  {
    hide BitStep;
    assert a == a[..i] + a[i..];
    RunConcat(x, a[..i], a[i..]);
    assert a[i..][1..] == a[i + 1..];
  }

  lemma FirstFlip(x: bv16, p: bool, q: bool, mid: Bits)
    requires p != q
    ensures Xor(RunBits(BitStep(x, p), mid), RunBits(BitStep(x, q), mid)) == ShiftN(1, |mid| + 1)
  {
    hide Xor, BitStep, Shift, RunBits;
    RunApart(BitStep(x, p), BitStep(x, q), mid);
    FlippedStep(x, x, p);
    XorSelf(x);
    ZeroXor(1);
    assert ShiftN(1, |mid| + 1) == ShiftN(Shift(1), |mid|);
  }

  lemma SecondFlip(x: bv16, y: bv16, p: bool, q: bool)
    requires p != q
    ensures BitStep(x, p) == BitStep(y, q) <==> Xor(x, y) == 1
  {
    hide Xor, BitStep, Shift;
    FlippedStep(x, y, p);
    XorSame(BitStep(x, p), BitStep(y, q));
    ShiftOfZero(Xor(Xor(x, y), 1));
    XorSame(Xor(x, y), 1);
  }

  lemma ShiftOfZero(x: bv16)
    ensures Shift(x) == 0 <==> x == 0
  {
    assert Shift(0) == 0;
    if Shift(x) == 0 {
      ShiftInjective(x, 0);
    }
  }

  /** Two errors go undetected exactly when they lie a multiple of 32767 bits apart, from any start. */
  lemma TwoErrorsExactly(x: bv16, a: Bits, b: Bits, i: nat, j: nat)
    requires TwoFlipped(a, b, i, j)
    ensures RunBits(x, a) == RunBits(x, b) <==> (j - i) % PERIOD == 0
  {
    hide RunBits, BitStep, Xor, ShiftN;
    RunSplit(x, a, j);
    RunSplit(x, b, j);
    RunSplit(x, a[..j], i);
    RunSplit(x, b[..j], i);
    assert a[..j][..i] == a[..i] && b[..j][..i] == b[..i];
    assert a[..j][i + 1..] == a[i + 1..j] && b[..j][i + 1..] == b[i + 1..j];
    var y, mid := RunBits(x, a[..i]), a[i + 1..j];
    var u, v := RunBits(BitStep(y, a[i]), mid), RunBits(BitStep(y, b[i]), mid);
    FirstFlip(y, a[i], b[i], mid);
    SecondFlip(u, v, a[j], b[j]);
    OneReturns(j - i);
    if RunBits(x, a) == RunBits(x, b) {
      RunInjective(BitStep(u, a[j]), BitStep(v, b[j]), a[j + 1..]);
    }
  }

  lemma {:induction false} NoDistance(a: Bits, b: Bits)
    requires |a| == |b| && Distance(a, b) == 0
    ensures a == b
    decreases |a|
  {
    if a != [] {
      NoDistance(a[1..], b[1..]);
      assert a == [a[0]] + a[1..] && b == [b[0]] + b[1..];
    }
  }

  /** Where two messages that differ differ first. */
  lemma {:induction false} FirstDifference(a: Bits, b: Bits) returns (i: nat)
    requires |a| == |b| && Distance(a, b) > 0
    ensures i < |a| && a[..i] == b[..i] && a[i] != b[i]
    ensures Distance(a[i + 1..], b[i + 1..]) == Distance(a, b) - 1
    decreases |a|
  {
    if a[0] != b[0] {
      i := 0;
    } else {
      var k := FirstDifference(a[1..], b[1..]);
      i := k + 1;
      assert a[..i] == [a[0]] + a[1..][..k] && b[..i] == [b[0]] + b[1..][..k];
      assert a[1..][k + 1..] == a[i + 1..] && b[1..][k + 1..] == b[i + 1..];
    }
  }

  lemma TwoPlaces(a: Bits, b: Bits) returns (i: nat, j: nat)
    requires |a| == |b| && Distance(a, b) == 2
    ensures TwoFlipped(a, b, i, j)
  {
    i := FirstDifference(a, b);
    var c, d := a[i + 1..], b[i + 1..];
    var k := FirstDifference(c, d);
    j := i + 1 + k;
    NoDistance(c[k + 1..], d[k + 1..]);
    assert c[..k] == a[i + 1..j] && d[..k] == b[i + 1..j];
    assert c[k + 1..] == a[j + 1..] && d[k + 1..] == b[j + 1..];
  }

  /** One, two or three flipped bits change the register, in messages of up to 32767 bits. */
  lemma FewErrorsDetected(x: bv16, a: Bits, b: Bits)
    requires |a| == |b| <= PERIOD && 1 <= Distance(a, b) <= 3
    ensures RunBits(x, a) != RunBits(x, b)
  {
    hide RunBits, Distance;
    if Distance(a, b) == 2 {
      var i, j := TwoPlaces(a, b);
      TwoErrorsExactly(x, a, b, i, j);
    } else {
      OddErrorsDetected(x, a, b);
    }
  }

  /** No frame of up to 4095 bytes that passes the check is turned into another one by flipping up to three bits. */
  lemma FrameFewErrorsRejected(sent: Bytes, received: Bytes)
    requires Accepts(sent) && |sent| == |received| <= 4095
    requires 1 <= Distance(LineBits(sent), LineBits(received)) <= 3
    ensures !Accepts(received)
  {
    hide LineBits, Register, RunBits, Accepts, Distance;
    AcceptsIffZero(sent);
    AcceptsIffZero(received);
    RegisterIsBits(0xFFFF, sent);
    RegisterIsBits(0xFFFF, received);
    FewErrorsDetected(0xFFFF, LineBits(sent), LineBits(received));
  }
  /**
   Damage that the CRC is sure to detect: a burst of up to sixteen bits from bit `w` on, an odd number of flipped bits,
   or up to three of them in a frame of up to 4095 bytes.
   */
  predicate Damaged(sent: Bytes, received: Bytes, w: nat, k: nat) {
    && |sent| == |received|
    && (|| (k <= 16 && BurstApart(LineBits(sent), LineBits(received), w, k))
        || Distance(LineBits(sent), LineBits(received)) % 2 == 1
        || (|sent| <= 4095 && 1 <= Distance(LineBits(sent), LineBits(received)) <= 3))
  }

  lemma FrameDamageRejected(sent: Bytes, received: Bytes, w: nat, k: nat)
    requires Accepts(sent) && Damaged(sent, received, w, k)
    ensures !Accepts(received)
  {
    hide LineBits, Accepts, Distance, BurstApart;
    if k <= 16 && BurstApart(LineBits(sent), LineBits(received), w, k) {
      FrameBurstRejected(sent, received, w, k);
    } else if Distance(LineBits(sent), LineBits(received)) % 2 == 1 {
      FrameOddErrorsRejected(sent, received);
    } else {
      FrameFewErrorsRejected(sent, received);
    }
  }
}
