/** Bytes, little-endian integers and the fixed-width arithmetic the servers rely on. */
module Bytes {

  type byte = x: int | 0 <= x < 256

  const TWO32: nat := 0x1_0000_0000
  const TWO62: nat := 0x4000_0000_0000_0000
  const TWO63: nat := 0x8000_0000_0000_0000
  const TWO64: nat := 0x1_0000_0000_0000_0000

  /** The bytes of an ASCII literal of the source. */
  function Ascii(s: string): (b: seq<byte>)
    ensures |b| == |s|
  {
    seq(|s|, i requires 0 <= i < |s| => s[i] as int % 256)
  }

  function Zeros(n: nat): (b: seq<byte>)
    ensures |b| == n && forall i :: 0 <= i < n ==> b[i] == 0
  {
    seq(n, i => 0)
  }

  /** The n bytes a handler leaves in its reply area: its data, cut or filled up to n bytes. */
  function Fit(data: seq<byte>, n: nat): (b: seq<byte>)
    ensures |b| == n
  {
    if n <= |data| then data[..n] else data + Zeros(n - |data|)
  }

  /** The unsigned value of a little-endian byte string. */
  function FromLe(s: seq<byte>): nat {
    if s == [] then 0 else s[0] + 256 * FromLe(s[1..])
  }

  /** The n low bytes of a value, least significant first. */
  function ToLe(n: nat, v: nat): (s: seq<byte>)
    ensures |s| == n
  {
    if n == 0 then [] else [v % 256] + ToLe(n - 1, v / 256)
  }

  function Pow2(n: nat): (p: nat)
    ensures p > 0
  {
    if n == 0 then 1 else 2 * Pow2(n - 1)
  }

  lemma {:induction false} Pow2Add(a: nat, b: nat)
    ensures Pow2(a + b) == Pow2(a) * Pow2(b)
  {
    if a > 0 {
      Pow2Add(a - 1, b);
      assert a + b - 1 == (a - 1) + b;
      MulAssoc(2, Pow2(a - 1), Pow2(b));
    }
  }

  lemma MulAssoc(x: int, y: int, z: int)
    ensures x * (y * z) == (x * y) * z
  {
  }

  lemma ModUnique(x: int, n: nat, d: int, r: nat)
    requires n > 0 && r < n && x == n * d + r
    ensures x % n == r && x / n == d
  {
    var k := x / n - d;
    assert n * k == r - x % n by {
      assert n * k == n * (x / n) - n * d;
    }
    if k != 0 {
      MulAtLeast(n, k);
    }
  }

  /** A nonzero multiple of n is at least n in size. */
  lemma MulAtLeast(n: nat, k: int)
    requires k != 0
    ensures n * k >= n || n * k + n <= 0
  {
    if k > 0 {
      assert n * (k - 1) >= 0;
    } else {
      assert n * (-k - 1) >= 0;
    }
  }

  /** Writing a value and reading it back keeps its low n bytes. */
  lemma {:induction false} LeRoundTrip(n: nat, v: nat)
    ensures FromLe(ToLe(n, v)) == v % Pow2(8 * n)
  {
    if n > 0 {
      var w, p := v / 256, Pow2(8 * (n - 1));
      LeRoundTrip(n - 1, w);
      Pow2Add(8, 8 * (n - 1));
      Pow2Eight();
      assert 8 * n == 8 + 8 * (n - 1);
      assert ToLe(n, v)[1..] == ToLe(n - 1, w);
      LowBytes(v, p);
    }
  }

  lemma LowBytes(v: nat, p: nat)
    requires p > 0
    ensures v % 256 + 256 * (v / 256 % p) == v % (256 * p)
  {
    var w := v / 256;
    MulAssoc(256, p, w / p);
    assert w == p * (w / p) + w % p;
    ModUnique(v, 256 * p, w / p, 256 * (w % p) + v % 256);
  }

  lemma Pow2Eight()
    ensures Pow2(8) == 256
  {
    assert Pow2(4) == 16;
  }

  lemma Pow2Square(n: nat, p: nat)
    requires Pow2(n) == p
    ensures Pow2(n + n) == p * p && Pow2(n + 1) == 2 * p
  {
    Pow2Add(n, n);
  }

  lemma Pow2Words()
    ensures Pow2(32) == TWO32 && Pow2(62) == TWO62 && Pow2(63) == TWO63 && Pow2(64) == TWO64
  {
    Pow2Eight();
    hide Pow2;
    Pow2Square(8, 0x100);
    Pow2Square(16, 0x1_0000);
    Pow2Square(32, TWO32);
    Pow2Half(64, TWO63);
    Pow2Half(63, TWO62);
  }

  lemma Pow2Half(n: nat, p: nat)
    requires n > 0 && Pow2(n) == 2 * p
    ensures Pow2(n - 1) == p
  {
  }

  /** Dropping the bits above position k never makes the value modulo 2^w larger. */
  lemma TruncationMonotone(low: nat, k: nat, high: nat, w: nat)
    requires low < Pow2(k)
    ensures low % Pow2(w) <= (low + Pow2(k) * high) % Pow2(w)
  {
    if k <= w {
      Pow2Add(k, w - k);
      LowPartBelow(low, Pow2(k), high, Pow2(w - k));
    } else {
      Pow2Add(w, k - w);
      MultipleVanishes(low, Pow2(w), Pow2(k - w), high);
    }
  }

  lemma LowPartBelow(low: nat, p: nat, high: nat, q: nat)
    requires low < p && q > 0
    ensures p * q > 0 && low % (p * q) <= (low + p * high) % (p * q)
  {
    var d, r := high / q, high % q;
    LowPartFits(low, p, r, q);
    assert p * high == (p * q) * d + p * r by {
      SplitMultiple(p, q, d, r);
    }
    ModUnique(low + p * high, p * q, d, low + p * r);
    ModUnique(low, p * q, 0, low);
  }

  lemma SplitMultiple(p: nat, q: nat, d: nat, r: nat)
    ensures p * (q * d + r) == (p * q) * d + p * r
  {
    assert p * (q * d) == (p * q) * d;
  }

  lemma LowPartFits(low: nat, p: nat, r: nat, q: nat)
    requires low < p && r < q
    ensures 0 <= low <= low + p * r < p * q
  {
    var k := q - 1 - r;
    assert q == k + 1 + r;
    assert p * (k + 1 + r) == p * k + p + p * r;
    NonNegative(p, k);
    NonNegative(p, r);
  }

  lemma NonNegative(a: nat, b: nat)
    ensures a * b >= 0
  {
  }

  lemma MultipleVanishes(low: nat, m: nat, q: nat, high: nat)
    requires m > 0
    ensures (low + (m * q) * high) % m == low % m
  {
    assert (m * q) * high == m * (q * high);
    assert m * (low / m + q * high) == m * (low / m) + m * (q * high);
    ModUnique(low + (m * q) * high, m, low / m + q * high, low % m);
  }

  lemma SliceOfSlice(all: seq<byte>, lo: nat, hi: nat, x: nat, y: nat)
    requires lo <= hi <= |all| && x <= y <= hi - lo
    ensures all[lo..hi][x..y] == all[lo + x..lo + y]
  {
    var l, r := all[lo..hi][x..y], all[lo + x..lo + y];
    forall k | 0 <= k < |l|
      ensures l[k] == r[k]
    {
      assert l[k] == all[lo..hi][x + k] == all[lo + x + k];
    }
  }
}
