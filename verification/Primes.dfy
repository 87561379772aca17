/** The little number theory behind the period of the CRC register, 32767 = 7 * 31 * 151. */
module Primes {
  import opened Base

  predicate Divides(r: nat, d: nat)
    requires r > 0
  {
    d % r == 0
  }

  /** No number but 1 below `d` divides it. */
  predicate Prime(d: nat) { d > 1 && forall r :: 1 < r < d ==> !Divides(r, d) }

  lemma Exactly(r: nat, d: nat) returns (q: nat)
    requires r > 0 && Divides(r, d)
    ensures d == r * q
  {
    q := d / r;
  }

  lemma OneIsSmall(a: nat, b: nat, n: nat)
    requires a * b < (n + 1) * (n + 1)
    ensures a <= n || b <= n
  {
    Ordered(a, n + 1, b);
    Ordered(n + 1, n + 1, a);
  }

  lemma PrimeFactors()
    ensures Prime(7) && Prime(31) && Prime(151)
  {
    forall r | 1 < r < 31 ensures !Divides(r, 31) {
      if Divides(r, 31) {
        var q := Exactly(r, 31);
        OneIsSmall(r, q, 5);
      }
    }
    forall r | 1 < r < 151 ensures !Divides(r, 151) {
      if Divides(r, 151) {
        var q := Exactly(r, 151);
        OneIsSmall(r, q, 12);
      }
    }
  }

  lemma Remainder(d: int, r: int, q: int, t: int, s: int, k: int)
    requires d == r * q + t && r * s == d * k
    ensures t * s == d * (s - q * k)
  {
    calc {
      t * s;
      (d - r * q) * s;
      d * s - (r * q) * s;
      { Reorder(r, q, s); }
      d * s - q * (r * s);
      d * s - q * (d * k);
      { Reorder(q, d, k); }
      d * s - d * (q * k);
      d * (s - q * k);
    }
  }

  lemma Reorder(a: int, b: int, c: int)
    ensures (a * b) * c == b * (a * c) && a * (b * c) == b * (a * c)
  {
  }

  /** A prime that divides a product with a smaller number divides the other factor. */
  lemma {:induction false} OtherFactor(d: nat, r: nat, s: int, k: int) returns (m: int)
    requires Prime(d) && 0 < r < d && r * s == d * k
    ensures s == d * m
    decreases r
  {
    if r == 1 {
      m := k;
    } else {
      var q, t := d / r, d % r;
      assert !Divides(r, d);
      Remainder(d, r, q, t, s, k);
      m := OtherFactor(d, t, s, s - q * k);
    }
  }

  lemma Left(d: int, q: int, r: int, p: int, k: int)
    requires (d * q + r) * p == d * k
    ensures r * p == d * (k - q * p)
  {
    calc {
      r * p;
      (d * q + r) * p - (d * q) * p;
      { Reorder(d, q, p); }
      d * k - q * (d * p);
      { Reorder(q, d, p); }
      d * k - d * (q * p);
      d * (k - q * p);
    }
  }

  lemma NothingLeft(p: int, d: nat, m: int)
    requires d > 0 && p == d * m
    ensures p % d == 0
  {
    Ordered(d, p / d, m - 1);
    Ordered(d, m + 1, p / d);
  }

  /** A prime that divides a product divides one of its factors. */
  lemma Euclid(d: nat, g: nat, p: nat, k: nat)
    requires Prime(d) && g * p == d * k
    ensures g % d == 0 || p % d == 0
  {
    var r, q := g % d, g / d;
    if r > 0 {
      assert g == d * q + r;
      Left(d, q, r, p, k);
      var m := OtherFactor(d, r, p, k - q * p);
      NothingLeft(p, d, m);
    }
  }

  /** A divisor of 7 * 31 * 151 other than 1 has one of the primes. */
  lemma Cofactor(g: nat, p: nat)
    requires g * p == 32767 && p > 1
    ensures p % 7 == 0 || p % 31 == 0 || p % 151 == 0
  {
    PrimeFactors();
    Euclid(7, g, p, 4681);
    if g % 7 == 0 {
      var g1 := g / 7;
      Cancel(7, g1, p, 4681);
      Euclid(31, g1, p, 151);
      if g1 % 31 == 0 {
        var g2 := g1 / 31;
        Cancel(31, g2, p, 151);
        Euclid(151, g2, p, 1);
        if g2 % 151 == 0 {
          Cancel(151, g2 / 151, p, 1);
        }
      }
    }
  }

  lemma Cancel(d: nat, g: nat, p: nat, c: nat)
    requires d > 0 && (d * g) * p == d * c
    ensures g * p == c
  {
    assert (d * g) * p == d * (g * p);
    Ordered(d, g * p + 1, c);
    Ordered(d, c + 1, g * p);
  }
}
