/** Bit-serial JTAG shifting and its split into 32-bit register transactions. */
module Jtag {
  import opened Bytes

  /** The n low bits of a word, bit 0 first. */
  function Bits(w: nat, n: nat): (b: seq<bool>)
    ensures |b| == n
  {
    if n == 0 then [] else [w % 2 == 1] + Bits(w / 2, n - 1)
  }

  function ValueOf(b: seq<bool>): nat {
    if b == [] then 0 else (if b[0] then 1 else 0) + 2 * ValueOf(b[1..])
  }

  /** The bits of a vector, bit 0 of byte 0 first. */
  function VectorBits(s: seq<byte>): (b: seq<bool>)
    ensures |b| == 8 * |s|
  {
    if s == [] then [] else Bits(s[0], 8) + VectorBits(s[1..])
  }

  /** Bit i of a word. */
  lemma {:induction false} BitAt(w: nat, n: nat, i: nat)
    requires i < n
    ensures Bits(w, n)[i] <==> w / Pow2(i) % 2 == 1
  {
    if i > 0 {
      BitAt(w / 2, n - 1, i - 1);
      DivideTwice(w, Pow2(i - 1));
    }
  }

  lemma DivideTwice(w: nat, p: nat)
    requires p > 0
    ensures w / 2 / p == w / (2 * p)
  {
    var half, q := w / 2, w / 2 / p;
    assert half == p * q + half % p && w == 2 * half + w % 2;
    MulAssoc(2, p, q);
    ModUnique(w, 2 * p, q, 2 * (half % p) + w % 2);
  }

  /** Bit j of byte i of a vector. */
  lemma {:induction false} VectorBitAt(s: seq<byte>, i: nat, j: nat)
    requires i < |s| && j < 8
    ensures VectorBits(s)[8 * i + j] <==> s[i] / Pow2(j) % 2 == 1
  {
    hide Bits, Pow2;
    if i > 0 {
      VectorBitAt(s[1..], i - 1, j);
      assert VectorBits(s)[8 * i + j] == VectorBits(s[1..])[8 * (i - 1) + j];
    } else {
      BitAt(s[0], 8, j);
    }
  }

  lemma {:induction false} BitsPrefix(w: nat, n: nat, m: nat)
    requires m <= n
    ensures Bits(w, n)[..m] == Bits(w, m)
  {
    if m > 0 {
      BitsPrefix(w / 2, n - 1, m - 1);
      assert Bits(w, n)[..m] == [w % 2 == 1] + Bits(w / 2, n - 1)[..m - 1];
    }
  }

  /** The lowest bit, and the others. */
  lemma BitsCons(bit: nat, w: nat, n: nat)
    requires bit < 2
    ensures Bits(2 * w + bit, n + 1) == [bit == 1] + Bits(w, n)
  {
    ModUnique(2 * w + bit, 2, w, bit);
  }

  lemma HalfAndBit(low: nat, q: nat, p: nat, high: nat)
    requires low < q == 2 * p
    ensures low / 2 < p && low == 2 * (low / 2) + low % 2 && low % 2 < 2
    ensures low + q * high == 2 * (low / 2 + p * high) + low % 2
  {
    MulAssoc(2, p, high);
  }

  lemma Pow2Halves(k: nat)
    ensures if k == 0 then Pow2(k) == 1 else Pow2(k) == 2 * Pow2(k - 1)
  {
  }

  lemma NoLowBits(high: nat, n: nat)
    ensures Bits(0 + 1 * high, 0 + n) == Bits(0, 0) + Bits(high, n)
  {
    assert [] + Bits(high, n) == Bits(high, n);
  }

  /** One more low bit in front of two parts. */
  lemma OneBitMore(bit: nat, rest: nat, whole: nat, high: nat, k: nat, n: nat)
    requires bit < 2 && Bits(whole, k + n) == Bits(rest, k) + Bits(high, n)
    ensures Bits(2 * whole + bit, k + 1 + n) == Bits(2 * rest + bit, k + 1) + Bits(high, n)
  {
    hide Bits;
    BitsCons(bit, whole, k + n);
    BitsCons(bit, rest, k);
    var x, y := Bits(rest, k), Bits(high, n);
    assert [bit == 1] + (x + y) == ([bit == 1] + x) + y;
  }

  /** The bits of a word that has a given low part. */
  lemma {:induction false} BitsSplit(low: nat, k: nat, high: nat, n: nat)
    requires low < Pow2(k)
    ensures Bits(low + Pow2(k) * high, k + n) == Bits(low, k) + Bits(high, n)
    decreases k
  {
    hide Bits, Pow2;
    Pow2Halves(k);
    if k > 0 {
      var p, rest := Pow2(k - 1), low / 2;
      HalfAndBit(low, Pow2(k), p, high);
      BitsSplit(rest, k - 1, high, n);
      OneBitMore(low % 2, rest, rest + p * high, high, k - 1, n);
    } else {
      NoLowBits(high, n);
    }
  }

  /** A little-endian word has the bits of its bytes. */
  lemma {:induction false} WordBits(s: seq<byte>)
    ensures Bits(FromLe(s), 8 * |s|) == VectorBits(s)
  {
    if s != [] {
      WordBits(s[1..]);
      Pow2Eight();
      BitsSplit(s[0], 8, FromLe(s[1..]), 8 * |s[1..]|);
    }
  }

  lemma VectorBitsCons(b: byte, s: seq<byte>)
    ensures VectorBits([b] + s) == Bits(b, 8) + VectorBits(s)
  {
    hide Bits;
    assert ([b] + s)[1..] == s;
  }

  /** Storing n bytes of a word stores its 8n low bits. */
  lemma {:induction false} StoredBits(n: nat, w: nat)
    ensures VectorBits(ToLe(n, w)) == Bits(w, 8 * n)
  {
    if n > 0 {
      var low, high := w % 256, w / 256;
      StoredBits(n - 1, high);
      VectorBitsCons(low, ToLe(n - 1, high));
      Pow2Eight();
      hide Pow2, Bits, VectorBits;
      BitsSplit(low, 8, high, 8 * (n - 1));
      assert low + 256 * high == w && 8 + 8 * (n - 1) == 8 * n;
    }
  }

  /** A register that holds some bits and anything above them. */
  lemma {:induction false} BitsOfValue(b: seq<bool>, junk: nat)
    ensures Bits(ValueOf(b) + Pow2(|b|) * junk, |b|) == b
  {
    if b != [] {
      var p, bit := Pow2(|b| - 1), if b[0] then 1 else 0;
      var v := ValueOf(b[1..]) + p * junk;
      BitsOfValue(b[1..], junk);
      MulAssoc(2, p, junk);
      assert ValueOf(b) + Pow2(|b|) * junk == 2 * v + bit;
      hide Bits, Pow2, ValueOf;
      BitsCons(bit, v, |b| - 1);
      assert [bit == 1] + b[1..] == b;
    }
  }

  lemma {:induction false} VectorBitsAppend(a: seq<byte>, b: seq<byte>)
    ensures VectorBits(a + b) == VectorBits(a) + VectorBits(b)
  {
    if a == [] {
      assert a + b == b;
    } else {
      hide Bits;
      VectorBitsAppend(a[1..], b);
      assert (a + b)[1..] == a[1..] + b && (a + b)[0] == a[0];
      var head, x, y := Bits(a[0], 8), VectorBits(a[1..]), VectorBits(b);
      assert head + (x + y) == (head + x) + y;
    }
  }

  // ---------------------------------------------------------------- the bit-serial specification

  /** A device behind the cable: one clock maps its state, TMS and TDI to a new state and TDO. */
  type Device<!S> = (S, bool, bool) -> (S, bool)

  /** One clock for each bit. */
  function Serial<S>(step: Device<S>, s: S, tms: seq<bool>, tdi: seq<bool>): (r: (S, seq<bool>))
    requires |tms| == |tdi|
    ensures |r.1| == |tms|
    decreases |tms|
  {
    if tms == [] then (s, [])
    else
      var one := step(s, tms[0], tdi[0]);
      var rest := Serial(step, one.0, tms[1..], tdi[1..]);
      (rest.0, [one.1] + rest.1)
  }

  lemma {:induction false} SerialAppend<S>(
    step: Device<S>, s: S, a: seq<bool>, b: seq<bool>, c: seq<bool>, d: seq<bool>)
    requires |a| == |b| && |c| == |d|
    ensures var first := Serial(step, s, a, b);
            var second := Serial(step, first.0, c, d);
            Serial(step, s, a + c, b + d) == (second.0, first.1 + second.1)
    decreases |a|
  {
    if a == [] {
      assert a + c == c && b + d == d;
      var second := Serial(step, s, c, d);
      assert [] + second.1 == second.1;
    } else {
      assert (a + c)[1..] == a[1..] + c && (b + d)[1..] == b[1..] + d;
      var one := step(s, a[0], b[0]);
      SerialAppend(step, one.0, a[1..], b[1..], c, d);
      var tail := Serial(step, one.0, a[1..], b[1..]);
      var second := Serial(step, tail.0, c, d);
      assert [one.1] + (tail.1 + second.1) == ([one.1] + tail.1) + second.1;
    }
  }

  // ---------------------------------------------------------------- register transactions

  /** One shift of the debug bridge: the LENGTH, TMS, TDI and CONTROL registers when it starts. */
  datatype Transaction = Transaction(length: nat, tms: nat, tdi: nat, control: nat)

  function RunTransaction<S>(step: Device<S>, s: S, t: Transaction): (r: (S, seq<bool>))
    ensures |r.1| == t.length
  {
    Serial(step, s, Bits(t.tms, t.length), Bits(t.tdi, t.length))
  }

  function RunPlan<S>(step: Device<S>, s: S, plan: seq<Transaction>): (S, seq<bool>)
  {
    if plan == [] then (s, [])
    else
      var first := RunTransaction(step, s, plan[0]);
      var rest := RunPlan(step, first.0, plan[1..]);
      (rest.0, first.1 + rest.1)
  }

  lemma {:induction false} RunPlanSnoc<S>(step: Device<S>, s: S, plan: seq<Transaction>, t: Transaction)
    ensures var before := RunPlan(step, s, plan);
            var last := RunTransaction(step, before.0, t);
            RunPlan(step, s, plan + [t]) == (last.0, before.1 + last.1)
    decreases |plan|
  {
    if plan == [] {
      assert plan + [t] == [t];
      assert [t][1..] == [];
      var last := RunTransaction(step, s, t);
      assert last.1 + [] == last.1 && [] + last.1 == last.1;
    } else {
      assert (plan + [t])[1..] == plan[1..] + [t];
      var first := RunTransaction(step, s, plan[0]);
      RunPlanSnoc(step, first.0, plan[1..], t);
      var rest := RunPlan(step, first.0, plan[1..]);
      var last := RunTransaction(step, rest.0, t);
      assert first.1 + (rest.1 + last.1) == (first.1 + rest.1) + last.1;
    }
  }

  function BytesFor(n: nat): nat {
    (n + 7) / 8
  }

  /** As many bytes as hold n bits, and no more. */
  lemma BytesForExactly(n: nat, k: nat)
    ensures BytesFor(n) == k <==> n <= 8 * k < n + 8
  {
  }

  function Chunk(n: nat): nat {
    if n < 32 then n else 32
  }

  /** The transaction that shifts the first n bits, n at most 32, of two vectors. */
  function Word(tms: seq<byte>, tdi: seq<byte>, n: nat, control: nat): Transaction
    requires BytesFor(n) <= |tms| && BytesFor(n) <= |tdi|
  {
    Transaction(n, FromLe(tms[..BytesFor(n)]), FromLe(tdi[..BytesFor(n)]), control)
  }

  /** Full words and a short tail. */
  function Plan(tms: seq<byte>, tdi: seq<byte>, n: nat, control: nat): (plan: seq<Transaction>)
    requires BytesFor(n) <= |tms| && BytesFor(n) <= |tdi|
    ensures |plan| == (n + 31) / 32
    decreases n
  {
    if n == 0 then []
    else
      var m := Chunk(n);
      [Word(tms, tdi, m, control)] + Plan(tms[BytesFor(m)..], tdi[BytesFor(m)..], n - m, control)
  }

  /** Every transaction fits the registers, and all but the last shift a full word. */
  lemma {:induction false} PlanFits(tms: seq<byte>, tdi: seq<byte>, n: nat, control: nat, i: nat)
    requires BytesFor(n) <= |tms| && BytesFor(n) <= |tdi| && i < (n + 31) / 32
    ensures var t := Plan(tms, tdi, n, control)[i];
            && t.length == (if i < (n + 31) / 32 - 1 then 32 else n - 32 * i) && 0 < t.length <= 32
            && t.tms < 0x1_0000_0000 && t.tdi < 0x1_0000_0000 && t.control == control
    decreases n
  {
    hide FromLe;
    var m := Chunk(n);
    if i > 0 {
      PlanFits(tms[4..], tdi[4..], n - m, control, i - 1);
    } else {
      Pow2Words();
      FromLeBelow(tms[..BytesFor(m)], 4);
      FromLeBelow(tdi[..BytesFor(m)], 4);
    }
  }

  lemma {:induction false} FromLeBelow(s: seq<byte>, n: nat)
    requires |s| <= n
    ensures FromLe(s) < Pow2(8 * n)
    decreases n
  {
    if s != [] {
      FromLeBelow(s[1..], n - 1);
      Pow2Eight();
      assert 8 * n == 8 + 8 * (n - 1);
      Pow2Add(8, 8 * (n - 1));
    }
  }

  /** The bits a word transaction shifts are those of the vectors. */
  lemma WordIsSlice(v: seq<byte>, m: nat)
    requires m <= 32 && BytesFor(m) <= |v|
    ensures Bits(FromLe(v[..BytesFor(m)]), m) == VectorBits(v)[..m]
  {
    var k := BytesFor(m);
    WordBits(v[..k]);
    BitsPrefix(FromLe(v[..k]), 8 * k, m);
    assert v == v[..k] + v[k..];
    VectorBitsAppend(v[..k], v[k..]);
    assert VectorBits(v)[..m] == VectorBits(v[..k])[..m];
  }

  lemma SliceAfterWord(v: seq<byte>, n: nat)
    requires 32 < n && BytesFor(n) <= |v|
    ensures VectorBits(v)[..n] == VectorBits(v)[..32] + VectorBits(v[4..])[..n - 32]
  {
    assert v == v[..4] + v[4..];
    VectorBitsAppend(v[..4], v[4..]);
  }

  /** The first n bits of two vectors, shifted bit by bit: what shift: promises. */
  function Reference<S>(step: Device<S>, s: S, tms: seq<byte>, tdi: seq<byte>, n: nat): (r: (S, seq<bool>))
    requires BytesFor(n) <= |tms| && BytesFor(n) <= |tdi|
    ensures |r.1| == n
  {
    Serial(step, s, VectorBits(tms)[..n], VectorBits(tdi)[..n])
  }

  /** The word transactions refine the bit-serial shift: same final state, same TDO bits, for every
      device, every length and all vectors. */
  lemma {:induction false} PlanRefinesSerial<S>(
    step: Device<S>, s: S, tms: seq<byte>, tdi: seq<byte>, n: nat, control: nat)
    requires BytesFor(n) <= |tms| && BytesFor(n) <= |tdi|
    ensures RunPlan(step, s, Plan(tms, tdi, n, control)) == Reference(step, s, tms, tdi, n)
    decreases n
  {
    if n == 0 {
    } else {
      var m := Chunk(n);
      var word := Word(tms, tdi, m, control);
      var first := RunTransaction(step, s, word);
      WordIsSlice(tms, m);
      WordIsSlice(tdi, m);
      var rest := Plan(tms[BytesFor(m)..], tdi[BytesFor(m)..], n - m, control);
      assert Plan(tms, tdi, n, control)[1..] == rest;
      PlanRefinesSerial(step, first.0, tms[BytesFor(m)..], tdi[BytesFor(m)..], n - m, control);
      if n > 32 {
        SliceAfterWord(tms, n);
        SliceAfterWord(tdi, n);
        SerialAppend(step, s, VectorBits(tms)[..32], VectorBits(tdi)[..32],
                     VectorBits(tms[4..])[..n - 32], VectorBits(tdi[4..])[..n - 32]);
      } else {
        assert n - m == 0 && rest == [];
        assert first.1 + [] == first.1;
      }
    }
  }
}
