/** Types shared by every component of the firmware model. */
module Base {

  /** `unsigned char` / `uint8_t`. */
  type byte = x: int | 0 <= x < 256

  /** `unsigned short` / `uint16_t`. */
  type u16 = x: int | 0 <= x < 65536

  type Bytes = seq<byte>

  datatype Option<+T> = None | Some(value: T)

  /** The two wire bytes of a 16-bit value, most significant first. */
  function BigEndian(v: u16): (r: Bytes)
    ensures |r| == 2
  {
    [v / 256, v % 256]
  }

  /** The 16-bit value held by two wire bytes. */
  function Word16(hi: byte, lo: byte): u16 {
    256 * hi + lo
  }

  lemma WordParts(hi: byte, lo: byte)
    ensures Word16(hi, lo) / 256 == hi && Word16(hi, lo) % 256 == lo
  {
  }

  /** A stretch that is a concatenation splits where its first part ends. */
  lemma SplitSlice<T>(s: seq<T>, i: nat, j: nat, a: seq<T>, b: seq<T>)
    requires i <= j <= |s| && s[i..j] == a + b
    ensures i + |a| <= j && j - (i + |a|) == |b|
    ensures s[i..i + |a|] == a && s[i + |a|..j] == b
  {
    assert s[i..i + |a|] == s[i..j][..|a|];
    assert s[i + |a|..j] == s[i..j][|a|..];
  }

  lemma PrefixSlice<T>(a: seq<T>, b: seq<T>, p: nat, i: nat, j: nat)
    requires i <= j <= p <= |a| && p <= |b| && a[..p] == b[..p]
    ensures a[i..j] == b[i..j]
  {
    assert forall k :: i <= k < j ==> a[k] == a[..p][k] && b[k] == b[..p][k];
  }

  lemma SliceOfSlice<T>(s: seq<T>, i: nat, j: nat, a: nat, b: nat)
    requires i <= j <= |s| && a <= b <= j - i
    ensures s[i..j][a..b] == s[i + a..i + b] && s[i..j][a..] == s[i + a..j]
  {
    var t := s[i..j];
    assert forall k :: 0 <= k < b - a ==> t[a..b][k] == t[a + k] == s[i + a + k];
    assert t[a..b] == s[i + a..i + b];
  }

  lemma BigEndianRoundTrip(v: u16)
    ensures Word16(BigEndian(v)[0], BigEndian(v)[1]) == v
  {
  }

  lemma WordAt(s: Bytes, at: nat, v: u16)
    requires at + 2 <= |s| && s[at..at + 2] == BigEndian(v)
    ensures Word16(s[at], s[at + 1]) == v
  {
    assert s[at] == s[at..at + 2][0] && s[at + 1] == s[at..at + 2][1];
  }

  function Min(a: int, b: int): int { if a < b then a else b }

  /** Multiplication keeps order. */
  lemma Ordered(c: nat, a: int, b: int)
    ensures a <= b ==> c * a <= c * b
  {
  }

  lemma Divided(n: int, d: int, k: int)
    requires d > 0 && 0 <= n - d * k < d
    ensures n / d == k
  {
    var q := n / d;
    assert n == d * q + n % d;
    assert d * (k - 1) == d * k - d && d * (k + 1) == d * k + d;
    Ordered(d, q, k - 1);
    Ordered(d, k + 1, q);
  }
}
