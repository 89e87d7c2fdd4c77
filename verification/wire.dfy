/** Packets as a client writes them, and that the server reads each of them as itself. */
module Wire {
  import opened Bytes
  import opened Uleb128
  import opened Framing
  import opened Session
  import opened Laws

  /** n bytes hold so many bits, and fewer do not. */
  predicate Holds(n: nat, bits: nat) {
    bits <= 8 * n < bits + 8
  }

  function Name(cmd: Command): string {
    match cmd
    case GetInfo => "getinfo:"
    case Capabilities => "capabilities:"
    case Configure(_) => "configure:"
    case GetError => "error:"
    case Lock(_) => "lock:"
    case Unlock => "unlock:"
    case Shift(_, _, _) => "shift:"
    case SetTck(_) => "settck:"
    case RegisterShift(ir, _, _, _, _) => if ir then "irshift:" else "drshift:"
    case State(_, _, _) => "state:"
    case Mrd(_, _, _) => "mrd:"
    case Mwr(_, _, _, _) => "mwr:"
    case Idpc(_, _, _) => "idpc:"
    case Edpc(_) => "edpc:"
  }

  function Arguments(cmd: Command): seq<byte> {
    match cmd
    case Configure(text) => Put(|text|) + text
    case Lock(timeout) => Put(timeout)
    case Shift(bits, tms, tdi) => ToLe(4, bits) + tms + tdi
    case SetTck(period) => ToLe(4, period)
    case RegisterShift(_, flags, state, count, tdi) => Put(flags) + Put(state) + Put(count) + tdi
    case State(flags, state, count) => Put(flags) + Put(state) + Put(count)
    case Mrd(flags, addr, size) => Put(flags) + Put(addr) + Put(size)
    case Mwr(flags, addr, size, data) => Put(flags) + Put(addr) + Put(size) + data
    case Idpc(flags, words, data) => Put(flags) + Put(words) + data
    case Edpc(flags) => Put(flags)
    case _ => []
  }

  function WireForm(cmd: Command): seq<byte> {
    Ascii(Name(cmd)) + Arguments(cmd)
  }

  /** The commands a server has, given its handlers. */
  predicate Offered(f: Features, cmd: Command) {
    match cmd
    case GetInfo | Capabilities | Configure(_) | GetError => true
    case Lock(_) | Unlock | Shift(_, _, _) | SetTck(_) => f.server == Mem
    case RegisterShift(_, _, _, _, _) => f.server == Mem && f.registerShift
    case State(_, _, _) => f.server == Mem && f.state
    case Mrd(_, _, _) => f.server == Mem && f.mrd
    case Mwr(_, _, _, _) => f.server == Mem && f.mwr
    case Idpc(_, _, _) => f.server == Dpc && f.idpc
    case Edpc(_) => f.server == Dpc && f.edpc
  }

  /** The data of a packet is as long as its integers say. TDI of a register shift is there unless one of
      the two low flags replaces it. A bit count near the top of its type would wrap when rounded up. */
  predicate Proper(cmd: Command) {
    match cmd
    case Configure(text) => |text| < 0x1_0000_0000
    case Shift(bits, tms, tdi) =>
      var n := bits % 0x1_0000_0000;
      n <= 0xFFFF_FFF8 && |tms| == |tdi| && Holds(|tms|, n)
    case RegisterShift(_, flags, _, count, tdi) =>
      var n := count % 0x1_0000_0000_0000_0000;
      if flags % 4 == 0 then n <= 0xFFFF_FFFF_FFFF_FFF8 && Holds(|tdi|, n) else tdi == []
    case Mwr(_, _, size, data) => |data| == size % 0x1_0000_0000_0000_0000
    case Idpc(_, words, data) => |data| == 4 * (words % 0x4000_0000_0000_0000)
    case _ => true
  }

  /** What the server keeps of integers that are too large for their C types. */
  function Kept(cmd: Command): Command {
    match cmd
    case Lock(timeout) => Lock(timeout % 0x1_0000_0000)
    case Shift(bits, tms, tdi) => Shift(bits % 0x1_0000_0000, tms, tdi)
    case SetTck(period) => SetTck(period % 0x1_0000_0000)
    case RegisterShift(ir, flags, state, count, tdi) =>
      RegisterShift(ir, flags % 0x1_0000_0000, state % 0x1_0000_0000, count % 0x1_0000_0000_0000_0000, tdi)
    case State(flags, state, count) =>
      State(flags % 0x1_0000_0000, state % 0x1_0000_0000, count % 0x1_0000_0000_0000_0000)
    case Mrd(flags, addr, size) =>
      Mrd(flags % 0x1_0000_0000, addr % 0x1_0000_0000_0000_0000, size % 0x1_0000_0000_0000_0000)
    case Mwr(flags, addr, size, data) =>
      Mwr(flags % 0x1_0000_0000, addr % 0x1_0000_0000_0000_0000, size % 0x1_0000_0000_0000_0000, data)
    case Idpc(flags, words, data) => Idpc(flags % 0x1_0000_0000, words % 0x1_0000_0000_0000_0000, data)
    case Edpc(flags) => Edpc(flags % 0x1_0000_0000)
    case _ => cmd
  }

  // ---------------------------------------------------------------- names

  function KindOf(cmd: Command): Kind {
    match cmd
    case GetInfo => KGetInfo
    case Capabilities => KCapabilities
    case Configure(_) => KConfigure
    case GetError => KGetError
    case Lock(_) => KLock
    case Unlock => KUnlock
    case Shift(_, _, _) => KShift
    case SetTck(_) => KSetTck
    case RegisterShift(ir, _, _, _, _) => KRegisterShift(ir)
    case State(_, _, _) => KState
    case Mrd(_, _, _) => KMrd
    case Mwr(_, _, _, _) => KMwr
    case Idpc(_, _, _) => KIdpc
    case Edpc(_) => KEdpc
  }

  /** Names that differ somewhere are different bytes. */
  lemma AsciiDiffers(a: string, b: string, i: nat)
    requires i < |a| && i < |b| && a[i] as int % 256 != b[i] as int % 256
    ensures Ascii(a) != Ascii(b)
  {
    assert Ascii(a)[i] != Ascii(b)[i];
  }

  /** The names of equal length. */
  lemma NamesDiffer()
    ensures Ascii("getinfo:") != Ascii("irshift:") && Ascii("getinfo:") != Ascii("drshift:")
    ensures Ascii("irshift:") != Ascii("drshift:")
    ensures Ascii("error:") != Ascii("shift:") && Ascii("error:") != Ascii("state:")
    ensures Ascii("shift:") != Ascii("state:")
    ensures Ascii("unlock:") != Ascii("settck:")
    ensures Ascii("lock:") != Ascii("edpc:") && Ascii("lock:") != Ascii("idpc:") && Ascii("edpc:") != Ascii("idpc:")
    ensures Ascii("mrd:") != Ascii("mwr:")
  {
    hide Ascii;
    AsciiDiffers("getinfo:", "irshift:", 0);
    AsciiDiffers("getinfo:", "drshift:", 0);
    AsciiDiffers("irshift:", "drshift:", 0);
    AsciiDiffers("error:", "shift:", 0);
    AsciiDiffers("error:", "state:", 0);
    AsciiDiffers("shift:", "state:", 1);
    AsciiDiffers("unlock:", "settck:", 0);
    AsciiDiffers("lock:", "edpc:", 0);
    AsciiDiffers("lock:", "idpc:", 0);
    AsciiDiffers("edpc:", "idpc:", 0);
    AsciiDiffers("mrd:", "mwr:", 1);
  }

  lemma NameSelects(f: Features, cmd: Command)
    requires Offered(f, cmd)
    ensures Keyword(f, Ascii(Name(cmd))) == KindOf(cmd)
  {
    hide Ascii;
    NamesDiffer();
  }

  /** A name ends with its only colon. */
  predicate ColonLast(name: string) {
    && 0 < |name| <= NAME_MAX && name[|name| - 1] == ':'
    && forall i :: 0 <= i < |name| - 1 ==> name[i] != ':' && name[i] < 128 as char
  }

  lemma NameColon(cmd: Command)
    ensures ColonLast(Name(cmd))
  {
  }

  /** The bytes of a name are its characters. */
  lemma NameBytes(cmd: Command, i: nat)
    requires i < |Name(cmd)|
    ensures Ascii(Name(cmd))[i] as char == Name(cmd)[i]
  {
    NameColon(cmd);
    hide Name;
  }

  lemma {:induction false} ColonFound(name: string, t: seq<byte>, p: nat)
    requires ColonLast(name) && p < |name|
    ensures ColonFrom(Ascii(name) + t, p) == |name| - 1
    decreases |name| - p
  {
    assert (Ascii(name) + t)[p] == name[p] as int % 256;
    if p < |name| - 1 {
      ColonFound(name, t, p + 1);
    }
  }

  // ---------------------------------------------------------------- integers and data

  function PutAll(vals: seq<nat>): seq<byte> {
    if vals == [] then [] else Put(vals[0]) + PutAll(vals[1..])
  }

  lemma {:induction false} FieldsRead(pre: seq<byte>, vals: seq<nat>, post: seq<byte>)
    ensures Fields(pre + PutAll(vals) + post, |pre|, |vals|) == FieldList(vals, |pre| + |PutAll(vals)|)
    decreases |vals|
  {
    hide Put, Get;
    if vals != [] {
      var a, more := Put(vals[0]), PutAll(vals[1..]);
      RoundTrip(pre, vals[0], more + post);
      Regroup(pre, a, more, post);
      FieldsRead(pre + a, vals[1..], post);
      assert [vals[0]] + vals[1..] == vals;
    } else {
      assert PutAll(vals) == [];
    }
  }

  lemma Regroup(pre: seq<byte>, a: seq<byte>, more: seq<byte>, post: seq<byte>)
    ensures pre + (a + more) + post == pre + a + (more + post) == (pre + a) + more + post
  {
  }

  /** The integers of a packet, and the data behind them. */
  function Ints(cmd: Command): seq<nat> {
    match cmd
    case Configure(text) => [|text|]
    case Lock(timeout) => [timeout]
    case RegisterShift(_, flags, state, count, _) => [flags, state, count]
    case State(flags, state, count) => [flags, state, count]
    case Mrd(flags, addr, size) => [flags, addr, size]
    case Mwr(flags, addr, size, _) => [flags, addr, size]
    case Idpc(flags, words, _) => [flags, words]
    case Edpc(flags) => [flags]
    case _ => []
  }

  function Data(cmd: Command): seq<byte> {
    match cmd
    case Configure(text) => text
    case RegisterShift(_, _, _, _, tdi) => tdi
    case Mwr(_, _, _, data) => data
    case Idpc(_, _, data) => data
    case _ => []
  }

  lemma PutCons(a: nat, vals: seq<nat>)
    ensures PutAll([a] + vals) == Put(a) + PutAll(vals)
  {
    assert ([a] + vals)[1..] == vals;
  }

  lemma PutOne(a: nat)
    ensures PutAll([a]) == Put(a) && PutAll([]) == []
  {
    hide Put;
    assert [a] + [] == [a] && Put(a) + [] == Put(a);
    PutCons(a, []);
  }

  lemma PutTwo(a: nat, b: nat)
    ensures PutAll([a, b]) == Put(a) + Put(b)
  {
    hide Put, PutAll;
    assert [a] + [b] == [a, b];
    PutCons(a, [b]);
    PutOne(b);
  }

  lemma PutThree(a: nat, b: nat, c: nat)
    ensures PutAll([a, b, c]) == Put(a) + Put(b) + Put(c)
  {
    hide Put, PutAll;
    assert [a] + [b, c] == [a, b, c];
    PutCons(a, [b, c]);
    PutTwo(b, c);
    assert Put(a) + (Put(b) + Put(c)) == Put(a) + Put(b) + Put(c);
  }

  lemma NothingBehind(args: seq<byte>)
    ensures args + [] == args && [] + args == args
  {
  }

  lemma ArgumentsSplit(cmd: Command)
    requires !cmd.Shift? && !cmd.SetTck?
    ensures Arguments(cmd) == PutAll(Ints(cmd)) + Data(cmd)
    ensures |Ints(cmd)| == Arity(KindOf(cmd))
  {
    hide Put, PutAll;
    PutOne(0);
    NothingBehind(Arguments(cmd));
    match cmd
    case Configure(text) => PutOne(|text|);
    case Lock(timeout) => PutOne(timeout);
    case RegisterShift(_, flags, state, count, tdi) => PutThree(flags, state, count);
    case State(flags, state, count) => PutThree(flags, state, count);
    case Mrd(flags, addr, size) => PutThree(flags, addr, size);
    case Mwr(flags, addr, size, data) => PutThree(flags, addr, size);
    case Idpc(flags, words, data) => PutTwo(flags, words);
    case Edpc(flags) => PutOne(flags);
    case _ =>
  }

  /** n bytes of bits are what the rounding says, except where the sum wraps. */
  lemma VectorSize(n: nat, bits: nat)
    requires bits < 0x1_0000_0000 && Holds(n, bits)
    ensures VectorBytes(bits) == if bits <= 0xFFFF_FFF8 then n else 0
  {
    if bits <= 0xFFFF_FFF8 {
      ModUnique(bits + 7, TWO32, 0, bits + 7);
      ModUnique(bits + 7, 8, n, bits + 7 - 8 * n);
    } else {
      ModUnique(bits + 7, TWO32, 1, bits + 7 - TWO32);
    }
  }

  lemma WideVectorSize(n: nat, count: nat)
    requires count < 0x1_0000_0000_0000_0000 && Holds(n, count)
    ensures WideVectorBytes(count) == if count <= 0xFFFF_FFFF_FFFF_FFF8 then n else 0
  {
    if count <= 0xFFFF_FFFF_FFFF_FFF8 {
      ModUnique(count + 7, TWO64, 0, count + 7);
      ModUnique(count + 7, 8, n, count + 7 - 8 * n);
    } else {
      ModUnique(count + 7, TWO64, 1, count + 7 - TWO64);
    }
  }

  lemma DataFits(cmd: Command)
    requires Proper(cmd) && !cmd.Shift? && !cmd.SetTck?
    ensures |Ints(cmd)| == Arity(KindOf(cmd))
    ensures Payload(KindOf(cmd), Ints(cmd)) == |Data(cmd)| && RegularSize(KindOf(cmd), Ints(cmd))
    ensures FieldCommand(KindOf(cmd), Ints(cmd), Data(cmd)) == Kept(cmd)
  {
    hide VectorBytes, WideVectorBytes;
    match cmd
    case Configure(text) => ModUnique(|text|, TWO32, 0, |text|);
    case RegisterShift(_, flags, _, count, tdi) =>
      if flags % 4 == 0 {
        WideVectorSize(|tdi|, count % TWO64);
      }
    case Idpc(_, words, _) => FourBytesAWord(words);
    case _ =>
  }

  // ---------------------------------------------------------------- packets

  lemma FieldsPacket(cmd: Command, rest: seq<byte>)
    requires Proper(cmd) && !cmd.Shift? && !cmd.SetTck?
    ensures var s, pos, kind := WireForm(cmd) + rest, |Name(cmd)|, KindOf(cmd);
            && pos <= |s| && PacketEnd(kind, s, pos) == |WireForm(cmd)| && CommandAt(kind, s, pos) == Kept(cmd)
            && RegularSize(kind, Fields(s, pos, Arity(kind)).vals)
  {
    hide PutAll, Put, Arguments, Payload, FieldCommand, RegularSize, Kept, Name, Ascii, Proper, Ints, Data, KindOf;
    var name, args, data := Ascii(Name(cmd)), PutAll(Ints(cmd)), Data(cmd);
    ArgumentsSplit(cmd);
    DataFits(cmd);
    KindShift(cmd);
    ThreeParts(name, args, data, rest);
    FieldsRead(name, Ints(cmd), data + rest);
  }

  lemma KindShift(cmd: Command)
    ensures (KindOf(cmd) == KShift <==> cmd.Shift?) && (KindOf(cmd) == KSetTck <==> cmd.SetTck?)
    ensures KindOf(cmd) != KUnknown
  {
  }

  lemma ThreeParts(name: seq<byte>, args: seq<byte>, data: seq<byte>, rest: seq<byte>)
    ensures var s, p := name + (args + data) + rest, |name| + |args|;
            s == name + args + (data + rest) && s[p..p + |data|] == data
  {
  }

  lemma FourParts(a: seq<byte>, b: seq<byte>, c: seq<byte>, d: seq<byte>, e: seq<byte>)
    ensures var s, p, q := a + (b + c + d) + e, |a| + |b|, |a| + |b| + |c|;
            s[|a|..p] == b && s[p..q] == c && s[q..q + |d|] == d && s[q + |d|..] == e
  {
  }

  lemma FourBytes(v: nat)
    ensures FromLe(ToLe(4, v)) == v % TWO32
  {
    LeRoundTrip(4, v);
    Pow2Words();
  }

  lemma FixedPacket(cmd: Command, rest: seq<byte>)
    requires Proper(cmd) && (cmd.Shift? || cmd.SetTck?)
    ensures var s, pos, kind := WireForm(cmd) + rest, |Name(cmd)|, KindOf(cmd);
            && pos <= |s| && PacketEnd(kind, s, pos) == |WireForm(cmd)| && CommandAt(kind, s, pos) == Kept(cmd)
            && RegularSize(kind, Fields(s, pos, Arity(kind)).vals)
  {
    hide FromLe, ToLe, VectorBytes, Ascii;
    var name := Ascii(Name(cmd));
    match cmd
    case Shift(bits, tms, tdi) =>
      FourBytes(bits);
      VectorSize(|tms|, bits % TWO32);
      FourParts(name, ToLe(4, bits), tms, tdi, rest);
    case SetTck(period) =>
      FourBytes(period);
      FourParts(name, ToLe(4, period), [], [], rest);
      assert ToLe(4, period) + [] + [] == ToLe(4, period);
  }

  /** A packet as a client writes it is recognised as itself, whatever follows. */
  lemma WireFormReads(f: Features, cmd: Command, rest: seq<byte>)
    requires Offered(f, cmd) && Proper(cmd)
    ensures var w := WireForm(cmd);
            && NextFrame(f, w + rest) == Packet(KindOf(cmd), |w|) && RegularFrame(f, w + rest)
            && NextCommand(f, w + rest) == Kept(cmd) && (w + rest)[|w|..] == rest
  {
    hide WireForm, Name, Ascii, Keyword, ColonFrom, PacketEnd, CommandAt, RegularSize, Kept, Fields, Proper, Offered;
    NameSelects(f, cmd);
    NameFound(cmd, rest);
    FormPacket(cmd, rest);
    assert (WireForm(cmd) + rest)[|WireForm(cmd)|..] == rest;
  }

  lemma NameFound(cmd: Command, rest: seq<byte>)
    ensures var s, n := WireForm(cmd) + rest, |Name(cmd)|;
            0 < n <= NAME_MAX && n <= |s| && ColonFrom(s, 0) == n - 1 && s[..n] == Ascii(Name(cmd))
  {
    NameColon(cmd);
    hide Name, Ascii, Arguments, ColonFrom;
    ColonFound(Name(cmd), Arguments(cmd) + rest, 0);
    assert Ascii(Name(cmd)) + (Arguments(cmd) + rest) == WireForm(cmd) + rest;
  }

  lemma FormPacket(cmd: Command, rest: seq<byte>)
    requires Proper(cmd)
    ensures var s, pos, kind := WireForm(cmd) + rest, |Name(cmd)|, KindOf(cmd);
            && pos <= |s| && PacketEnd(kind, s, pos) == |WireForm(cmd)| && CommandAt(kind, s, pos) == Kept(cmd)
            && RegularSize(kind, Fields(s, pos, Arity(kind)).vals)
  {
    hide WireForm, Name, Ascii, PacketEnd, CommandAt, RegularSize, Kept, Fields, Proper;
    if cmd.Shift? || cmd.SetTck? {
      FixedPacket(cmd, rest);
    } else {
      FieldsPacket(cmd, rest);
    }
  }

  /** A value that fits its type is kept as it is. */
  predicate InRange(cmd: Command) {
    match cmd
    case Lock(timeout) => timeout < 0x1_0000_0000
    case Shift(bits, _, _) => bits < 0x1_0000_0000
    case SetTck(period) => period < 0x1_0000_0000
    case RegisterShift(_, flags, state, count, _) =>
      flags < 0x1_0000_0000 && state < 0x1_0000_0000 && count < 0x1_0000_0000_0000_0000
    case State(flags, state, count) =>
      flags < 0x1_0000_0000 && state < 0x1_0000_0000 && count < 0x1_0000_0000_0000_0000
    case Mrd(flags, addr, size) =>
      flags < 0x1_0000_0000 && addr < 0x1_0000_0000_0000_0000 && size < 0x1_0000_0000_0000_0000
    case Mwr(flags, addr, size, _) =>
      flags < 0x1_0000_0000 && addr < 0x1_0000_0000_0000_0000 && size < 0x1_0000_0000_0000_0000
    case Idpc(flags, words, _) => flags < 0x1_0000_0000 && words < 0x1_0000_0000_0000_0000
    case Edpc(flags) => flags < 0x1_0000_0000
    case _ => true
  }

  lemma KeptWhole(cmd: Command)
    requires InRange(cmd)
    ensures Kept(cmd) == cmd
  {
  }

  // ---------------------------------------------------------------- what is not a packet

  /** Some command of each kind. */
  function Sample(kind: Kind): Command
    requires kind != KUnknown
    ensures KindOf(Sample(kind)) == kind
  {
    match kind
    case KGetInfo => GetInfo
    case KCapabilities => Capabilities
    case KConfigure => Configure([])
    case KGetError => GetError
    case KLock => Lock(0)
    case KUnlock => Unlock
    case KShift => Shift(0, [], [])
    case KSetTck => SetTck(0)
    case KRegisterShift(ir) => RegisterShift(ir, 0, 0, 0, [])
    case KState => State(0, 0, 0)
    case KMrd => Mrd(0, 0, 0)
    case KMwr => Mwr(0, 0, 0, [])
    case KIdpc => Idpc(0, 0, [])
    case KEdpc => Edpc(0)
  }

  lemma SelectedByName(f: Features, name: seq<byte>, cmd: Command)
    requires Keyword(f, name) == KindOf(cmd)
    ensures Offered(f, cmd) && name == Ascii(Name(cmd))
  {
    hide Ascii;
  }

  /** What is recognised as a packet starts with the name of its command, which the server has. */
  lemma PacketNamed(f: Features, s: seq<byte>)
    requires NextFrame(f, s).Packet?
    ensures var cmd := NextCommand(f, s);
            && Offered(f, cmd) && |Name(cmd)| <= |s| && s[..|Name(cmd)|] == Ascii(Name(cmd))
  {
    var c := ColonFrom(s, 0);
    var kind := Keyword(f, s[..c + 1]);
    CommandKind(kind, s, c + 1);
    SelectedByName(f, s[..c + 1], NextCommand(f, s));
    hide Keyword, ColonFrom, PacketEnd, CommandAt, Ascii, Name;
  }

  lemma CommandKind(kind: Kind, s: seq<byte>, pos: nat)
    requires pos <= |s| && kind != KUnknown && PacketEnd(kind, s, pos) <= |s|
    ensures KindOf(CommandAt(kind, s, pos)) == kind
  {
    hide PacketEnd, FromLe, VectorBytes, Fields, Payload;
  }

  /** A name of no command the server has. */
  ghost predicate Unheard(f: Features, name: seq<byte>) {
    forall cmd :: Offered(f, cmd) ==> name != Ascii(Name(cmd))
  }

  lemma UnheardIsUnknown(f: Features, name: seq<byte>)
    ensures Unheard(f, name) <==> Keyword(f, name) == KUnknown
  {
    hide Ascii, Keyword, Name, Offered;
    if Keyword(f, name) == KUnknown {
      forall cmd | Offered(f, cmd)
        ensures name != Ascii(Name(cmd))
      {
        NameSelects(f, cmd);
      }
    } else {
      SelectedByName(f, name, Sample(Keyword(f, name)));
    }
  }

  /** The first colon of s is at c. */
  predicate FirstColon(s: seq<byte>, c: nat) {
    c < |s| && s[c] as char == ':' && forall i :: 0 <= i < c ==> s[i] as char != ':'
  }

  lemma FirstColonFound(s: seq<byte>, c: nat)
    ensures FirstColon(s, c) && c < 30 <==> ColonFrom(s, 0) == c < 30 && c < |s|
  {
    var d := ColonFrom(s, 0);
    assert d < |s| && d < c && FirstColon(s, c) ==> s[d] as char != ':';
  }

  /** A protocol error is a stream of thirty bytes without a colon, or one whose bytes up to the first
      colon are no name of the server. */
  lemma MalformedExactly(f: Features, s: seq<byte>)
    ensures NextFrame(f, s).Malformed? <==>
              if exists c :: c < 30 && FirstColon(s, c)
              then exists c :: c < 30 && FirstColon(s, c) && Unheard(f, s[..c + 1])
              else |s| >= 30
  {
    hide Keyword, Unheard, FirstColon, PacketEnd, ColonFrom;
    var c := ColonFrom(s, 0);
    forall d: nat
      ensures FirstColon(s, d) && d < 30 <==> c == d < 30 && d < |s|
    {
      FirstColonFound(s, d);
    }
    if c < 30 && c < |s| {
      UnheardIsUnknown(f, s[..c + 1]);
      assert FirstColon(s, c);
      assert NextFrame(f, s).Malformed? <==> Unheard(f, s[..c + 1]);
    } else {
      assert NextFrame(f, s).Malformed? <==> |s| >= 30;
    }
  }

  // ---------------------------------------------------------------- streams

  function WireForms(cmds: seq<Command>): seq<byte> {
    if cmds == [] then [] else WireForm(cmds[0]) + WireForms(cmds[1..])
  }

  function KeptAll(cmds: seq<Command>): seq<Command> {
    if cmds == [] then [] else [Kept(cmds[0])] + KeptAll(cmds[1..])
  }

  lemma {:induction false} KeptAllWhole(cmds: seq<Command>)
    requires forall cmd :: cmd in cmds ==> InRange(cmd)
    ensures KeptAll(cmds) == cmds
    decreases |cmds|
  {
    hide InRange, Kept;
    if cmds != [] {
      assert cmds[0] in cmds && forall cmd :: cmd in cmds[1..] ==> cmd in cmds;
      KeptWhole(cmds[0]);
      KeptAllWhole(cmds[1..]);
      assert [cmds[0]] + cmds[1..] == cmds;
    }
  }

  /** A packet that fits the receive buffer; configure: needs a byte of room. */
  predicate Small(cmd: Command) {
    |WireForm(cmd)| <= if cmd.Configure? then 9_999 else 10_000
  }

  predicate Sendable(f: Features, cmds: seq<Command>) {
    forall cmd :: cmd in cmds ==> Offered(f, cmd) && Proper(cmd)
  }

  lemma NothingWritten(f: Features)
    ensures NextFrame(f, []) == Fill && RegularFrame(f, [])
  {
  }

  /** What a client writes is what the server reads, packet by packet; no part of it trips a size
      assertion exactly if every packet fits the receive buffer. */
  lemma {:induction false} CommandsOfForms(f: Features, cmds: seq<Command>)
    requires Sendable(f, cmds)
    ensures Commands(f, WireForms(cmds)) == KeptAll(cmds)
    ensures Conforming(f, WireForms(cmds)) <==> forall cmd :: cmd in cmds ==> Small(cmd)
    decreases |cmds|
  {
    hide NextFrame, NextCommand, RegularFrame, WireForm, Kept, Offered, Proper, Name;
    if cmds == [] {
      NothingWritten(f);
    } else {
      var cmd, rest := cmds[0], cmds[1..];
      assert cmd in cmds && forall c :: c in cmds <==> c == cmd || c in rest;
      CommandsOfForms(f, rest);
      WireFormReads(f, cmd, WireForms(rest));
      assert KindOf(cmd) == KConfigure <==> cmd.Configure?;
    }
  }

  /** A whole conversation runs as its packets, and nothing of it is left over. */
  lemma {:induction false} RunOfForms<D>(h: Handlers<D>, p: Progress<D>, cmds: seq<Command>)
    requires Sendable(h.features, cmds)
    ensures Run(h, p, WireForms(cmds)) == Final(ExecuteAll(h, p, KeptAll(cmds)), Waiting, [])
    decreases |cmds|
  {
    hide NextFrame, NextCommand, RegularFrame, WireForm, Kept, Offered, Proper, Advance;
    if cmds == [] {
      NothingWritten(h.features);
    } else {
      var cmd, rest := cmds[0], cmds[1..];
      assert cmd in cmds && forall c :: c in rest ==> c in cmds;
      WireFormReads(h.features, cmd, WireForms(rest));
      RunOfForms(h, Advance(h, p, Kept(cmd)), rest);
      assert ([Kept(cmd)] + KeptAll(rest))[1..] == KeptAll(rest);
    }
  }
}
