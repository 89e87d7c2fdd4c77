/** How the packet engine of both XVC 1.1 servers finds the end of the next packet in the bytes it
    has so far. */
module Framing {
  import opened Bytes
  import opened Uleb128

  // max_packet_len: the size of the receive buffer and of the reply area.
  const BUF_MAX: nat := 10000
  // A command name must end within this many bytes.
  const NAME_MAX: nat := 30
  const COLON: byte := 58

  datatype Server = Mem | Dpc

  /** Which server is built and which optional handlers its table holds. */
  datatype Features = Features(
    server: Server,
    lock: bool, unlock: bool,
    registerShift: bool, state: bool,
    mrd: bool, mwr: bool,
    idpc: bool, edpc: bool)

  datatype Kind =
    | KGetInfo | KCapabilities | KConfigure | KGetError
    | KLock | KUnlock
    | KShift | KSetTck
    | KRegisterShift(ir: bool) | KState
    | KMrd | KMwr
    | KIdpc | KEdpc
    | KUnknown

  /** The command a name, colon included, selects. A command whose handler is missing is unknown. */
  function Keyword(f: Features, name: seq<byte>): Kind {
    if name == Ascii("getinfo:") then KGetInfo
    else if name == Ascii("capabilities:") then KCapabilities
    else if name == Ascii("configure:") then KConfigure
    else if name == Ascii("error:") then KGetError
    else if f.server == Mem then MemKeyword(f, name)
    else DpcKeyword(f, name)
  }

  function MemKeyword(f: Features, name: seq<byte>): Kind {
    if name == Ascii("lock:") then KLock
    else if name == Ascii("unlock:") then KUnlock
    else if name == Ascii("shift:") then KShift
    else if name == Ascii("settck:") then KSetTck
    else if name == Ascii("irshift:") && f.registerShift then KRegisterShift(true)
    else if name == Ascii("drshift:") && f.registerShift then KRegisterShift(false)
    else if name == Ascii("state:") && f.state then KState
    else if name == Ascii("mrd:") && f.mrd then KMrd
    else if name == Ascii("mwr:") && f.mwr then KMwr
    else KUnknown
  }

  function DpcKeyword(f: Features, name: seq<byte>): Kind {
    if name == Ascii("edpc:") && f.edpc then KEdpc
    else if name == Ascii("idpc:") && f.idpc then KIdpc
    else KUnknown
  }

  /** Bytes of a vector of 32-bit length bits; the sum wraps in 32 bits. */
  function VectorBytes(bits: nat): nat {
    ((bits + 7) % TWO32) / 8
  }

  /** Bytes of a vector of 64-bit length count; the sum wraps in 64 bits. */
  function WideVectorBytes(count: nat): nat {
    ((count + 7) % TWO64) / 8
  }

  /** Number of ULEB128 integers that follow the name. */
  function Arity(kind: Kind): (n: nat)
    ensures n <= 3
  {
    match kind
    case KConfigure | KLock | KEdpc => 1
    case KIdpc => 2
    case KRegisterShift(_) | KState | KMrd | KMwr => 3
    case _ => 0
  }

  /** Number of data bytes that follow the integers, each kept in the width the server uses. */
  function Payload(kind: Kind, vals: seq<nat>): nat
    requires |vals| == Arity(kind)
  {
    match kind
    case KConfigure => vals[0] % TWO32
    case KIdpc => (vals[1] % TWO64 * 4) % TWO64
    case KRegisterShift(_) => if vals[0] % 4 == 0 then WideVectorBytes(vals[2] % TWO64) else 0
    case KMwr => vals[2] % TWO64
    case _ => 0
  }

  /** The end of the packet as far as s tells, its arguments starting at pos. */
  function PacketEnd(kind: Kind, s: seq<byte>, pos: nat): (end: nat)
    ensures end >= pos
  {
    match kind
    case KShift =>
      if |s| < pos + 4 then pos + 4
      else pos + 4 + 2 * VectorBytes(FromLe(s[pos..pos + 4]))
    case KSetTck => pos + 4
    case _ =>
      var f := Fields(s, pos, Arity(kind));
      f.end + Payload(kind, f.vals)
  }

  /** The position of the colon, or where the search gives up. */
  function ColonFrom(s: seq<byte>, p: nat): (c: nat)
    requires p <= |s| && p <= NAME_MAX
    ensures p <= c <= |s| && c <= NAME_MAX
    ensures c < |s| && c < NAME_MAX ==> s[c] == COLON
    ensures forall i :: p <= i < c ==> s[i] != COLON
    decreases |s| - p
  {
    if p < |s| && p < NAME_MAX && s[p] != COLON then ColonFrom(s, p + 1) else p
  }

  datatype Frame =
    | Fill                                // more bytes are needed
    | Malformed                           // no colon in reach, or an unknown command
    | Oversized                           // the size assertion fails
    | Packet(kind: Kind, end: nat)        // a complete packet of end bytes

  /** The size the source asserts of a packet that is not complete yet; it is strict for
      configure:, which needs a byte of room after its text. */
  predicate Admissible(kind: Kind, end: nat) {
    if kind == KConfigure then end < BUF_MAX else end <= BUF_MAX
  }

  function NextFrame(f: Features, s: seq<byte>): (r: Frame)
    ensures r.Packet? ==> 0 < r.end <= |s|
  {
    var c := ColonFrom(s, 0);
    if c >= NAME_MAX then Malformed
    else if c == |s| then Fill
    else FrameAfterName(Keyword(f, s[..c + 1]), s, c + 1)
  }

  function FrameAfterName(kind: Kind, s: seq<byte>, pos: nat): (r: Frame)
    requires 0 < pos <= |s|
    ensures r.Packet? ==> r.kind == kind && r.end == PacketEnd(kind, s, pos) && 0 < r.end <= |s|
  {
    if kind == KUnknown then Malformed
    else
      var end := PacketEnd(kind, s, pos);
      if end <= |s| then Packet(kind, end)
      else if Admissible(kind, end) then Fill
      else Oversized
  }

  /** The data size of the packet is computed without wrap-around. The word count of idpc: may wrap:
      the size is then four times its low 62 bits, which a prefix does not overestimate either. */
  predicate RegularSize(kind: Kind, vals: seq<nat>)
    requires |vals| == Arity(kind)
  {
    kind.KRegisterShift? && vals[0] % 4 == 0 ==> vals[2] % TWO64 + 7 < TWO64
  }

  predicate RegularFrame(f: Features, s: seq<byte>) {
    var c := ColonFrom(s, 0);
    c < |s| && c < NAME_MAX ==>
      var kind := Keyword(f, s[..c + 1]);
      RegularSize(kind, Fields(s, c + 1, Arity(kind)).vals)
  }

  lemma {:induction false} ColonExtend(s: seq<byte>, t: seq<byte>, p: nat)
    requires p <= |s| && p <= NAME_MAX
    ensures ColonFrom(s, p) < |s| || ColonFrom(s, p) == NAME_MAX ==> ColonFrom(s + t, p) == ColonFrom(s, p)
    ensures ColonFrom(s, p) <= ColonFrom(s + t, p)
    decreases |s| - p
  {
    if p < |s| && p < NAME_MAX {
      assert (s + t)[p] == s[p];
      if s[p] != COLON {
        ColonExtend(s, t, p + 1);
      }
    }
  }

  /** A truncated decode never overestimates the end of the packet. */
  lemma PacketEndCut(kind: Kind, s: seq<byte>, t: seq<byte>, pos: nat)
    requires pos <= |s|
    requires RegularSize(kind, Fields(s + t, pos, Arity(kind)).vals)
    ensures PacketEnd(kind, s, pos) <= PacketEnd(kind, s + t, pos)
  {
    if kind == KShift {
      if |s| >= pos + 4 {
        assert (s + t)[pos..pos + 4] == s[pos..pos + 4];
      }
    } else {
      FieldsCut(s, t, pos, Arity(kind));
      PayloadCut(kind, Fields(s, pos, Arity(kind)).vals, Fields(s + t, pos, Arity(kind)).vals);
    }
  }

  lemma FourBytesAWord(words: nat)
    ensures (words % TWO64 * 4) % TWO64 == 4 * (words % TWO62)
  {
    var k, m := words / TWO62, words % TWO62;
    ModUnique(words, TWO64, k / 4, TWO62 * (k % 4) + m);
    ModUnique(words % TWO64 * 4, TWO64, k % 4, 4 * m);
  }

  lemma PayloadCut(kind: Kind, a: seq<nat>, b: seq<nat>)
    requires |a| == |b| == Arity(kind) && RegularSize(kind, b)
    requires CutShort(a, b)
    ensures Payload(kind, a) <= Payload(kind, b)
  {
    match kind
    case KRegisterShift(_) =>
      if a[0] % 4 == 0 && a[0] == b[0] {
        var m, n := a[2] % TWO64, b[2] % TWO64;
        assert m + 7 < TWO64 && n + 7 < TWO64;
        assert (m + 7) % TWO64 == m + 7 && (n + 7) % TWO64 == n + 7;
      } else if a[0] != b[0] {
        assert a[2] == 0;
      }
    case KIdpc =>
      FourBytesAWord(a[1]);
      FourBytesAWord(b[1]);
    case _ =>
  }

  /** A packet that is complete in s ends at the same place whatever follows. */
  lemma PacketEndExtend(kind: Kind, s: seq<byte>, t: seq<byte>, pos: nat)
    requires pos <= |s| && PacketEnd(kind, s, pos) <= |s|
    ensures PacketEnd(kind, s + t, pos) == PacketEnd(kind, s, pos)
    ensures kind != KShift && kind != KSetTck ==> Fields(s + t, pos, Arity(kind)) == Fields(s, pos, Arity(kind))
  {
    if kind == KShift {
      assert (s + t)[pos..pos + 4] == s[pos..pos + 4];
    } else if kind != KSetTck {
      FieldsExtend(s, t, pos, Arity(kind));
    }
  }

  /** A complete packet, and a malformed one, is recognised the same way whatever follows. */
  lemma FrameExtend(f: Features, s: seq<byte>, t: seq<byte>)
    requires NextFrame(f, s).Packet? || NextFrame(f, s).Malformed?
    ensures NextFrame(f, s + t) == NextFrame(f, s)
  {
    hide Keyword, PacketEnd;
    ColonExtend(s, t, 0);
    var c := ColonFrom(s, 0);
    hide ColonFrom;
    if c < NAME_MAX {
      assert (s + t)[..c + 1] == s[..c + 1];
      var kind := Keyword(f, s[..c + 1]);
      if kind != KUnknown {
        PacketEndExtend(kind, s, t, c + 1);
      }
    }
  }

  lemma PrefixAfterName(kind: Kind, s: seq<byte>, t: seq<byte>, pos: nat)
    requires 0 < pos <= |s| && RegularSize(kind, Fields(s + t, pos, Arity(kind)).vals)
    requires var r := FrameAfterName(kind, s + t, pos);
             r.Fill? || (r.Packet? && Admissible(r.kind, r.end))
    ensures var r, q := FrameAfterName(kind, s + t, pos), FrameAfterName(kind, s, pos);
            !q.Oversized? && !q.Malformed? && (r.Packet? ==> (q.Fill? <==> |s| < r.end))
  {
    hide PacketEnd, RegularSize, Fields;
    PacketEndCut(kind, s, t, pos);
    if PacketEnd(kind, s, pos) <= |s| {
      PacketEndExtend(kind, s, t, pos);
    }
  }

  /** What the parser says about a stream it accepts, on every prefix of that stream: it never
      trips a size assertion, and it asks for more until the packet is complete. */
  lemma FramePrefix(f: Features, s: seq<byte>, t: seq<byte>)
    requires RegularFrame(f, s + t)
    requires var r := NextFrame(f, s + t);
             r.Fill? || (r.Packet? && Admissible(r.kind, r.end))
    ensures !NextFrame(f, s).Oversized? && !NextFrame(f, s).Malformed?
    ensures NextFrame(f, s + t).Packet? ==>
              (NextFrame(f, s).Fill? <==> |s| < NextFrame(f, s + t).end)
  {
    hide Keyword, FrameAfterName, PacketEnd, RegularSize, Fields;
    ColonExtend(s, t, 0);
    var c := ColonFrom(s, 0);
    EndBehindColon(f, s + t);
    hide ColonFrom;
    if c < |s| && c < NAME_MAX {
      assert (s + t)[..c + 1] == s[..c + 1];
      PrefixAfterName(Keyword(f, s[..c + 1]), s, t, c + 1);
    }
  }

  lemma EndBehindColon(f: Features, s: seq<byte>)
    ensures NextFrame(f, s).Packet? ==> NextFrame(f, s).end > ColonFrom(s, 0)
  {
    hide Keyword;
  }

  /** With only its last byte missing, the parser already knows exactly where the packet ends. */
  lemma PacketEndKnown(kind: Kind, s: seq<byte>, pos: nat)
    requires pos < PacketEnd(kind, s, pos) <= |s|
    requires RegularSize(kind, Fields(s, pos, Arity(kind)).vals)
    ensures PacketEnd(kind, s[..PacketEnd(kind, s, pos) - 1], pos) == PacketEnd(kind, s, pos)
  {
    var end := PacketEnd(kind, s, pos);
    var cut, rest := s[..end - 1], s[end - 1..];
    assert cut + rest == s;
    PacketEndCut(kind, cut, rest, pos);
    if PacketEnd(kind, cut, pos) <= |cut| {
      PacketEndExtend(kind, cut, rest, pos);
      assert false;
    }
  }

  /** Cutting behind the colon does not move it. */
  lemma ColonOf(s: seq<byte>, n: nat)
    requires ColonFrom(s, 0) < n <= |s| && ColonFrom(s, 0) < NAME_MAX
    ensures ColonFrom(s[..n], 0) == ColonFrom(s, 0)
  {
    assert s[..n] + s[n..] == s;
    ColonExtend(s[..n], s[n..], 0);
  }

  /** Once the colon is in sight the name decides what follows. */
  lemma FrameOfCut(f: Features, s: seq<byte>, n: nat)
    requires ColonFrom(s, 0) < n <= |s| && ColonFrom(s, 0) < NAME_MAX
    ensures var c := ColonFrom(s, 0);
            NextFrame(f, s[..n]) == FrameAfterName(Keyword(f, s[..c + 1]), s[..n], c + 1)
  {
    hide FrameAfterName, Keyword;
    ColonOf(s, n);
    var c := ColonFrom(s, 0);
    assert s[..n][..c + 1] == s[..c + 1];
  }

  lemma LateByteAfterName(kind: Kind, s: seq<byte>, pos: nat)
    requires 0 < pos <= |s| && pos <= NAME_MAX && FrameAfterName(kind, s, pos).Packet?
    requires RegularSize(kind, Fields(s, pos, Arity(kind)).vals)
    requires !Admissible(kind, PacketEnd(kind, s, pos))
    ensures FrameAfterName(kind, s[..PacketEnd(kind, s, pos) - 1], pos).Oversized?
  {
    PacketEndKnown(kind, s, pos);
    hide PacketEnd, Fields, RegularSize;
    assert pos <= PacketEnd(kind, s, pos) - 1;
  }

  /** The last byte of a packet larger than the asserted size must not arrive late. */
  lemma LateByteTrips(f: Features, s: seq<byte>)
    requires RegularFrame(f, s) && NextFrame(f, s).Packet?
    requires !Admissible(NextFrame(f, s).kind, NextFrame(f, s).end)
    ensures NextFrame(f, s[..NextFrame(f, s).end - 1]).Oversized?
  {
    hide PacketEnd, Keyword, RegularSize, Fields;
    var r := NextFrame(f, s);
    var c := ColonFrom(s, 0);
    var kind := Keyword(f, s[..c + 1]);
    LateByteAfterName(kind, s, c + 1);
    FrameOfCut(f, s, r.end - 1);
  }

  /** A count next to 2^64 takes more than nine bytes. */
  lemma WideCount(s: seq<byte>, q: nat)
    requires Get(s, q).value % TWO64 + 7 >= TWO64
    ensures q + 9 < |s| && q + 9 < Get(s, q).end
  {
    var v := Get(s, q).value;
    Pow2Words();
    assert v >= v % TWO64 >= TWO63;
    if |s| <= q + 9 || Get(s, q).end <= q + 9 {
      GetBound(s, q, 9);
      assert false;
    }
  }

  lemma LargeCount(kind: Kind, s: seq<byte>, pos: nat)
    requires kind.KRegisterShift? && 0 < pos <= |s| < Fields(s, pos, 3).end
    requires var v := Fields(s, pos, 3).vals; v[0] % 4 == 0 && TWO63 - 7 <= v[2] < TWO63
    ensures FrameAfterName(kind, s, pos).Oversized?
  {
    var count := Fields(s, pos, 3).vals[2];
    ModUnique(count, TWO64, 0, count);
    ModUnique(count + 7, TWO64, 0, count + 7);
    hide Fields;
  }

  lemma FieldsInside(kind: Kind, s: seq<byte>, pos: nat)
    requires kind.KRegisterShift?
    ensures Fields(s, pos, 3).end <= PacketEnd(kind, s, pos)
  {
    hide Fields, Payload;
  }

  /** A bit count whose size wraps takes more than nine bytes, and its first nine bytes already say
      that the packet is too large. */
  lemma WrapAfterName(kind: Kind, s: seq<byte>, pos: nat)
    requires kind.KRegisterShift? && 0 < pos <= |s| && pos <= NAME_MAX
    requires !RegularSize(kind, Fields(s, pos, 3).vals)
    ensures var n := Fields(s, pos, 2).end + 9;
            pos < n < |s| && n < PacketEnd(kind, s, pos) && FrameAfterName(kind, s[..n], pos).Oversized?
  {
    hide Get, Fields, FrameAfterName, PacketEnd;
    var two := Fields(s, pos, 2);
    var q := two.end;
    ThirdField(s, pos);
    FieldsInside(kind, s, pos);
    WideCount(s, q);
    var cut, rest := s[..q + 9], s[q + 9..];
    assert cut + rest == s;
    TwoFieldsLeft(cut, rest, pos);
    NineBytes(cut, rest, q);
    ThirdField(cut, pos);
    var low := Get(cut, q).value;
    assert (two.vals + [low])[0] == two.vals[0] && (two.vals + [low])[2] == low;
    LargeCount(kind, cut, pos);
  }

  /** Two fields that end where the decoder of the whole stream ends them. */
  lemma TwoFieldsLeft(cut: seq<byte>, rest: seq<byte>, pos: nat)
    requires pos <= |cut| && Fields(cut + rest, pos, 2).end <= |cut|
    ensures Fields(cut, pos, 2) == Fields(cut + rest, pos, 2)
  {
    FieldsCut(cut, rest, pos, 2);
    FieldsExtend(cut, rest, pos, 2);
  }

  lemma NineBytes(cut: seq<byte>, rest: seq<byte>, q: nat)
    requires |cut| == q + 9 && Get(cut + rest, q).end > |cut|
    requires Get(cut + rest, q).value % TWO64 + 7 >= TWO64
    ensures TWO63 - 7 <= Get(cut, q).value < TWO63 && Get(cut, q).end > |cut|
  {
    if Get(cut, q).end <= |cut| {
      GetExtend(cut, rest, q);
      assert false;
    }
    GetCut(cut, rest, q);
    Pow2Words();
    var v, low, high := Get(cut + rest, q).value, Get(cut, q).value, Get(cut + rest, q + 9).value;
    assert v == low + TWO63 * high;
    ModUnique(v, TWO64, high / 2, low + TWO63 * (high % 2));
  }

  lemma WrappingKind(kind: Kind, vals: seq<nat>)
    requires |vals| == Arity(kind) && !RegularSize(kind, vals)
    ensures kind.KRegisterShift? && Arity(kind) == 3
  {
  }

  /** Where the prefix that trips the assertion ends. */
  function WrapPoint(f: Features, s: seq<byte>): nat {
    Fields(s, ColonFrom(s, 0) + 1, 2).end + 9
  }

  /** A stream that starts with a wrapping packet has a prefix that is seen as too large. */
  lemma WrapTrips(f: Features, s: seq<byte>)
    requires !RegularFrame(f, s)
    ensures NextFrame(f, s).Packet? || NextFrame(f, s).Fill? || NextFrame(f, s).Oversized?
    ensures var n := WrapPoint(f, s);
            && n < |s| && NextFrame(f, s[..n]).Oversized?
            && (NextFrame(f, s).Packet? ==> n < NextFrame(f, s).end)
  {
    hide Keyword, Fields, PacketEnd, RegularSize;
    var c := ColonFrom(s, 0);
    var kind := Keyword(f, s[..c + 1]);
    hide ColonFrom;
    WrappingKind(kind, Fields(s, c + 1, Arity(kind)).vals);
    WrapAfterName(kind, s, c + 1);
    FrameOfCut(f, s, Fields(s, c + 1, 2).end + 9);
  }

  /** The parser asks for more on every proper prefix of a complete packet if and only if the size of
      the packet is computed without wrap-around and respects the asserted size; otherwise some way
      of cutting it trips the assertion. */
  lemma PrefixesFillIffAdmissible(f: Features, s: seq<byte>)
    requires NextFrame(f, s).Packet?
    ensures var r := NextFrame(f, s);
            ((forall n :: 0 <= n < r.end ==> NextFrame(f, s[..n]).Fill?)
             <==> RegularFrame(f, s) && Admissible(r.kind, r.end))
  {
    hide NextFrame, RegularFrame, WrapPoint;
    var r := NextFrame(f, s);
    if !RegularFrame(f, s) {
      WrapTrips(f, s);
      assert !NextFrame(f, s[..WrapPoint(f, s)]).Fill?;
    } else if Admissible(r.kind, r.end) {
      forall n | 0 <= n < r.end
        ensures NextFrame(f, s[..n]).Fill?
      {
        assert s[..n] + s[n..] == s;
        FramePrefix(f, s[..n], s[n..]);
      }
    } else {
      LateByteTrips(f, s);
      assert !NextFrame(f, s[..r.end - 1]).Fill?;
    }
  }

  /** The length field of a configure: packet that fills the receive buffer. */
  lemma FullConfigureEnd(s: seq<byte>, size: seq<byte>, text: seq<byte>)
    requires |text| == BUF_MAX - 12 && size == Put(|text|)
    requires s == Ascii("configure:") + size + text
    ensures |s| == BUF_MAX && PacketEnd(KConfigure, s, 10) == BUF_MAX
    ensures Fields(s, 10, 1).vals == [|text|]
  {
    assert |text| == 9988 && size == [132] + Put(78) && Put(78) == [78];
    RoundTrip(Ascii("configure:"), |text|, text);
    hide Get, Put;
    assert Fields(s, 10, 1) == FieldList([9988] + Fields(s, 12, 0).vals, Fields(s, 12, 0).end);
  }

  lemma ConfigureColon(s: seq<byte>)
    requires |s| >= 10 && s[..10] == Ascii("configure:")
    ensures ColonFrom(s, 0) == 9
  {
    forall i | 0 <= i < 10
      ensures s[i] == COLON <==> i == 9
    {
      assert s[i] == s[..10][i] == "configure:"[i] as int % 256;
    }
    assert s[9] == COLON;
  }

  lemma ConfigureKeyword(f: Features)
    ensures Keyword(f, Ascii("configure:")) == KConfigure
  {
    assert |Ascii("configure:")| == 10;
  }

  /** A configure: packet that fills the receive buffer to the last byte: accepted when it arrives in
      one piece, refused by the assertion when its last byte arrives late. */
  lemma FullConfigure(f: Features, text: seq<byte>)
    requires |text| == BUF_MAX - 12
    ensures var s := Ascii("configure:") + Put(|text|) + text;
            |s| == BUF_MAX && NextFrame(f, s) == Packet(KConfigure, BUF_MAX)
            && NextFrame(f, s[..BUF_MAX - 1]).Oversized?
  {
    hide Get, Put, PacketEnd, Fields, Ascii, ColonFrom, Keyword, NextFrame;
    var name, size := Ascii("configure:"), Put(|text|);
    var s := name + size + text;
    FullConfigureEnd(s, size, text);
    assert s[..10] == name;
    ConfigureColon(s);
    ConfigureKeyword(f);
    assert RegularSize(KConfigure, Fields(s, 10, 1).vals);
    LateByteAfterName(KConfigure, s, 10);
    FrameOfCut(f, s, BUF_MAX);
    assert s[..BUF_MAX] == s;
    FrameOfCut(f, s, BUF_MAX - 1);
  }

  /** An irshift: packet with a bit count of 2^64 - 1, whose data size wraps around to zero. */
  function WrappingShift(): seq<byte> {
    [105, 114, 115, 104, 105, 102, 116, COLON, 0, 0, 255, 255, 255, 255, 255, 255, 255, 255, 255, 1]
  }

  lemma WrappedFields()
    ensures var s := WrappingShift();
            && Fields(s, 8, 3) == FieldList([0, 0, TWO64 - 1], 20)
            && Fields(s[..19], 8, 3) == FieldList([0, 0, 0x7fff_ffff_ffff_ffff], 20)
  {
    var s := WrappingShift();
    var t := s[..19];
    assert Get(s, 19) == Decoded(1, 20) && Get(t, 19) == Decoded(0, 20);
    assert Get(s, 18) == Decoded(0xff, 20) && Get(t, 18) == Decoded(0x7f, 20);
    assert Get(s, 17) == Decoded(0x7fff, 20) && Get(t, 17) == Decoded(0x3fff, 20);
    assert Get(s, 16) == Decoded(0x3f_ffff, 20) && Get(t, 16) == Decoded(0x1f_ffff, 20);
    assert Get(s, 15) == Decoded(0x1fff_ffff, 20) && Get(t, 15) == Decoded(0xfff_ffff, 20);
    assert Get(s, 14) == Decoded(0xf_ffff_ffff, 20) && Get(t, 14) == Decoded(0x7_ffff_ffff, 20);
    assert Get(s, 13) == Decoded(0x7ff_ffff_ffff, 20) && Get(t, 13) == Decoded(0x3ff_ffff_ffff, 20);
    assert Get(s, 12) == Decoded(0x3_ffff_ffff_ffff, 20) && Get(t, 12) == Decoded(0x1_ffff_ffff_ffff, 20);
    assert Get(s, 11) == Decoded(0x1ff_ffff_ffff_ffff, 20) && Get(t, 11) == Decoded(0xff_ffff_ffff_ffff, 20);
    assert Get(s, 10) == Decoded(TWO64 - 1, 20) && Get(t, 10) == Decoded(0x7fff_ffff_ffff_ffff, 20);
    assert Get(s, 9) == Decoded(0, 10) && Get(t, 9) == Decoded(0, 10);
    assert Fields(s, 10, 1).vals == [TWO64 - 1] && Fields(t, 10, 1).vals == [0x7fff_ffff_ffff_ffff];
    assert Fields(s, 9, 2).vals == [0, TWO64 - 1] && Fields(t, 9, 2).vals == [0, 0x7fff_ffff_ffff_ffff];
  }

  /** Why sizes have to be regular: a packet whose size wraps is accepted whole, although its first
      nineteen bytes look far too large. */
  lemma WrappedSize(f: Features)
    requires f.server == Mem && f.registerShift
    ensures var s := WrappingShift();
            !RegularFrame(f, s) && NextFrame(f, s) == Packet(KRegisterShift(true), |s|)
            && NextFrame(f, s[..|s| - 1]).Oversized?
  {
    hide Keyword, Ascii, Fields, Get, ColonFrom, WrappingShift, FrameAfterName, NextFrame;
    var s := WrappingShift();
    WrappedName(f);
    WrappedFields();
    FrameOfCut(f, s, 19);
    FrameOfCut(f, s, 20);
    assert s[..20] == s;
    WrappedEnds(s);
  }

  lemma WrappedName(f: Features)
    requires f.server == Mem && f.registerShift
    ensures var s := WrappingShift();
            |s| == 20 && ColonFrom(s, 0) == 7 && Keyword(f, s[..8]) == KRegisterShift(true)
  {
    var s := WrappingShift();
    assert s[7] == COLON;
    assert s[..8] == Ascii("irshift:");
  }

  lemma WrappedEnds(s: seq<byte>)
    requires |s| == 20
    requires Fields(s, 8, 3) == FieldList([0, 0, TWO64 - 1], 20)
    requires Fields(s[..19], 8, 3) == FieldList([0, 0, 0x7fff_ffff_ffff_ffff], 20)
    ensures FrameAfterName(KRegisterShift(true), s, 8) == Packet(KRegisterShift(true), 20)
    ensures FrameAfterName(KRegisterShift(true), s[..19], 8).Oversized?
  {
    hide Fields;
  }

  /** What is too large is seen to be so when the receive buffer is full. */
  lemma FullBufferTrips(f: Features, s: seq<byte>)
    requires |s| > BUF_MAX && NextFrame(f, s).Oversized?
    ensures NextFrame(f, s[..BUF_MAX]).Oversized?
  {
    hide Keyword, PacketEnd, FrameAfterName;
    var c := ColonFrom(s, 0);
    FrameOfCut(f, s, BUF_MAX);
    assert s[..BUF_MAX] + s[BUF_MAX..] == s;
    hide ColonFrom;
    TooLargeAfterName(Keyword(f, s[..c + 1]), s[..BUF_MAX], s[BUF_MAX..], c + 1);
  }

  lemma TooLargeAfterName(kind: Kind, s: seq<byte>, t: seq<byte>, pos: nat)
    requires 0 < pos <= |s| == BUF_MAX && FrameAfterName(kind, s + t, pos).Oversized?
    ensures FrameAfterName(kind, s, pos).Oversized?
  {
    hide PacketEnd;
    if PacketEnd(kind, s, pos) <= |s| {
      PacketEndExtend(kind, s, t, pos);
    }
  }

  /** recv is only reached with room in the buffer: what is left there is shorter than a packet
      the parser could still accept. */
  lemma FillLeavesRoom(f: Features, s: seq<byte>)
    requires NextFrame(f, s).Fill?
    ensures |s| < BUF_MAX
  {
  }
}
