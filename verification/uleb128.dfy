/** ULEB128 integers (DWARF 5, section 7.6) as the packet engine reads and writes them. */
module Uleb128 {
  import opened Bytes

  datatype Decoded = Decoded(value: nat, end: nat)

  /** Decodes the integer at pos. Bytes past the end of s read as a final zero byte, so
      a field that is cut off leaves end past the end of s. */
  function Get(s: seq<byte>, pos: nat): (d: Decoded)
    ensures d.end > pos
    decreases |s| - pos
  {
    if pos >= |s| then Decoded(0, pos + 1)
    else if s[pos] < 128 then Decoded(s[pos], pos + 1)
    else
      var r := Get(s, pos + 1);
      Decoded(s[pos] - 128 + 128 * r.value, r.end)
  }

  function Put(v: nat): (s: seq<byte>)
    ensures |s| > 0
  {
    if v < 128 then [v] else [v % 128 + 128] + Put(v / 128)
  }

  /** The first byte of an encoding, and the others. */
  lemma FirstDigit(v: nat)
    ensures Put(v)[0] == if v >= 128 then v % 128 + 128 else v % 128
    ensures Put(v)[1..] == if v >= 128 then Put(v / 128) else []
  {
  }

  /** Decoding an encoded value anywhere in a stream gives it back and stops right after it. */
  lemma {:induction false} RoundTrip(pre: seq<byte>, v: nat, post: seq<byte>)
    ensures Get(pre + Put(v) + post, |pre|) == Decoded(v, |pre| + |Put(v)|)
    decreases v
  {
    var s := pre + Put(v) + post;
    if v >= 128 {
      var b: byte := v % 128 + 128;
      assert s[|pre|] == b;
      assert s == (pre + [b]) + Put(v / 128) + post;
      RoundTrip(pre + [b], v / 128, post);
    }
  }

  /** An encoding takes one byte for each started group of seven bits: k bytes are enough exactly for
      values of at most 7k bits. */
  lemma {:induction false} PutLength(v: nat, k: nat)
    requires k > 0
    ensures |Put(v)| <= k <==> v < Pow2(7 * k)
  {
    assert Pow2(7) == 128;
    if k > 1 {
      Pow2Add(7, 7 * (k - 1));
      assert 7 + 7 * (k - 1) == 7 * k;
      if v >= 128 {
        PutLength(v / 128, k - 1);
      }
    }
  }

  /** A field that is complete in s is decoded the same way whatever follows s. */
  lemma {:induction false} GetExtend(s: seq<byte>, t: seq<byte>, pos: nat)
    requires Get(s, pos).end <= |s|
    ensures Get(s + t, pos) == Get(s, pos)
    decreases |s| - pos
  {
    assert (s + t)[pos] == s[pos];
    if s[pos] >= 128 {
      GetExtend(s, t, pos + 1);
    }
  }

  /** A field cut off at the end of s: its decoder stops one past the end, the value read so
      far is the low part of the full value, and the rest starts at the cut. */
  lemma {:induction false} GetCut(s: seq<byte>, t: seq<byte>, pos: nat)
    requires pos <= |s| < Get(s, pos).end
    ensures Get(s, pos).end == |s| + 1 <= Get(s + t, pos).end
    ensures Get(s, pos).value < Pow2(7 * (|s| - pos))
    ensures Get(s + t, pos).value
         == Get(s, pos).value + Pow2(7 * (|s| - pos)) * Get(s + t, |s|).value
    decreases |s| - pos
  {
    if pos < |s| {
      assert (s + t)[pos] == s[pos];
      GetCut(s, t, pos + 1);
      var k := |s| - pos - 1;
      Pow2Add(7, 7 * k);
      assert Pow2(7) == 128;
      var p, m := Pow2(7 * k), Get(s + t, |s|).value;
      CutStep(s[pos] - 128, Get(s, pos + 1).value, p, m);
      assert 7 * (|s| - pos) == 7 + 7 * k;
    }
  }

  lemma CutStep(b: nat, low: nat, p: nat, m: nat)
    requires b < 128 && low < p
    ensures b + 128 * low < 128 * p
    ensures b + 128 * (low + p * m) == (b + 128 * low) + (128 * p) * m
  {
    assert (128 * p) * m == 128 * (p * m);
  }

  /** No larger in any of the widths in which the servers keep a field or a size made of it. */
  predicate NotAbove(x: nat, y: nat) {
    x % TWO64 <= y % TWO64 && x % TWO62 <= y % TWO62 && x % TWO32 <= y % TWO32
  }

  /** k bytes hold less than 7k bits. */
  lemma {:induction false} GetBound(s: seq<byte>, pos: nat, k: nat)
    requires Get(s, pos).end <= pos + k || |s| <= pos + k
    ensures Get(s, pos).value < Pow2(7 * k)
    decreases k
  {
    if pos < |s| && k > 0 {
      Pow2Add(7, 7 * (k - 1));
      assert Pow2(7) == 128 && 7 * k == 7 + 7 * (k - 1);
      if s[pos] < 128 {
        assert Pow2(7 * (k - 1)) >= 1;
      } else {
        GetBound(s, pos + 1, k - 1);
      }
    }
  }

  /** A truncated decode never overestimates a value, in any of the widths the servers use. */
  lemma GetCutBelow(s: seq<byte>, t: seq<byte>, pos: nat)
    requires pos <= |s|
    ensures NotAbove(Get(s, pos).value, Get(s + t, pos).value)
    ensures Get(s, pos).end <= Get(s + t, pos).end
  {
    if Get(s, pos).end <= |s| {
      GetExtend(s, t, pos);
    } else {
      GetCut(s, t, pos);
      Pow2Words();
      TruncationMonotone(Get(s, pos).value, 7 * (|s| - pos), Get(s + t, |s|).value, 64);
      TruncationMonotone(Get(s, pos).value, 7 * (|s| - pos), Get(s + t, |s|).value, 62);
      TruncationMonotone(Get(s, pos).value, 7 * (|s| - pos), Get(s + t, |s|).value, 32);
    }
  }

  datatype FieldList = FieldList(vals: seq<nat>, end: nat)

  /** k integers decoded one after the other, starting at pos. */
  function Fields(s: seq<byte>, pos: nat, k: nat): (f: FieldList)
    ensures |f.vals| == k && f.end >= pos + k
    decreases k
  {
    if k == 0 then FieldList([], pos)
    else
      var d := Get(s, pos);
      var r := Fields(s, d.end, k - 1);
      FieldList([d.value] + r.vals, r.end)
  }

  /** Three fields are two and a third. */
  lemma ThirdField(s: seq<byte>, pos: nat)
    ensures var two := Fields(s, pos, 2);
            var third := Get(s, two.end);
            Fields(s, pos, 3) == FieldList(two.vals + [third.value], third.end)
  {
    var q := Get(s, pos).end;
    assert Fields(s, q, 1).vals == [Get(s, q).value];
    var r := Get(s, q).end;
    assert Fields(s, r, 1) == FieldList([Get(s, r).value], Get(s, r).end);
    assert Fields(s, q, 2).vals == [Get(s, q).value, Get(s, r).value];
  }

  /** Past the end of s every field reads as zero and takes one position. */
  lemma {:induction false} FieldsPastEnd(s: seq<byte>, pos: nat, k: nat)
    requires pos > |s|
    ensures Fields(s, pos, k).end == pos + k
    ensures forall i :: 0 <= i < k ==> Fields(s, pos, k).vals[i] == 0
    decreases k
  {
    if k > 0 {
      FieldsPastEnd(s, pos + 1, k - 1);
      assert Fields(s, pos, k).vals == [0] + Fields(s, pos + 1, k - 1).vals;
    }
  }

  /** A run of fields is complete in s exactly when its end lies in s; then it does not depend on
      what follows. */
  lemma {:induction false} FieldsExtend(s: seq<byte>, t: seq<byte>, pos: nat, k: nat)
    requires Fields(s, pos, k).end <= |s|
    ensures Fields(s + t, pos, k) == Fields(s, pos, k)
    decreases k
  {
    if k > 0 {
      GetExtend(s, t, pos);
      FieldsExtend(s, t, Get(s, pos).end, k - 1);
    }
  }

  /** How a decode of a prefix compares with the full decode: no value is overestimated, and once a
      field differs all later ones read as zero. */
  ghost predicate CutShort(a: seq<nat>, b: seq<nat>)
  {
    && |a| == |b|
    && (forall i :: 0 <= i < |a| ==> NotAbove(a[i], b[i]))
    && (forall i, j :: 0 <= i < j < |a| ==> a[i] == b[i] || a[j] == 0)
  }

  lemma CutShortSame(x: nat, a: seq<nat>, b: seq<nat>)
    requires CutShort(a, b)
    ensures CutShort([x] + a, [x] + b)
  {
    forall i, j | 0 <= i < j < |a| + 1
      ensures ([x] + a)[i] == ([x] + b)[i] || ([x] + a)[j] == 0
    {
      if i > 0 {
        assert a[i - 1] == b[i - 1] || a[j - 1] == 0;
      }
    }
  }

  lemma CutShortZeros(x: nat, y: nat, a: seq<nat>, b: seq<nat>)
    requires |a| == |b| && forall i :: 0 <= i < |a| ==> a[i] == 0
    requires NotAbove(x, y)
    ensures CutShort([x] + a, [y] + b)
  {
  }

  /** A run of fields decoded from a prefix never overestimates the values or the end. */
  lemma {:induction false} FieldsCut(s: seq<byte>, t: seq<byte>, pos: nat, k: nat)
    requires pos <= |s|
    ensures Fields(s, pos, k).end <= Fields(s + t, pos, k).end
    ensures CutShort(Fields(s, pos, k).vals, Fields(s + t, pos, k).vals)
    decreases k
  {
    if k > 0 {
      hide CutShort;
      var d, e := Get(s, pos), Get(s + t, pos);
      GetCutBelow(s, t, pos);
      if d.end <= |s| {
        GetExtend(s, t, pos);
        FieldsCut(s, t, d.end, k - 1);
        CutShortSame(d.value, Fields(s, d.end, k - 1).vals, Fields(s + t, d.end, k - 1).vals);
      } else {
        GetCut(s, t, pos);
        FieldsPastEnd(s, d.end, k - 1);
        CutShortZeros(d.value, e.value, Fields(s, d.end, k - 1).vals, Fields(s + t, e.end, k - 1).vals);
      }
    } else {
      assert Fields(s, pos, k).vals == [] == Fields(s + t, pos, k).vals;
    }
  }
}
