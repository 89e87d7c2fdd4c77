/** The meaning of a packet stream: packets are executed one at a time, each answered before the
    next is looked at. This is the specification the buffered servers are proved against. */
module Session {
  import opened Bytes
  import Uleb128
  import opened Framing
  import opened Configure

  /** A decoded packet. A packet that makes the server call a handler is also the record of that
      call, as it holds everything the handler is given. */
  datatype Command =
    | GetInfo
    | Capabilities
    | Configure(text: seq<byte>)
    | GetError
    | Lock(timeout: nat)
    | Unlock
    | Shift(bits: nat, tms: seq<byte>, tdi: seq<byte>)
    | SetTck(period: nat)
    | RegisterShift(ir: bool, flags: nat, state: nat, count: nat, tdi: seq<byte>)
    | State(flags: nat, state: nat, count: nat)
    | Mrd(flags: nat, addr: nat, size: nat)
    | Mwr(flags: nat, addr: nat, size: nat, data: seq<byte>)
    | Idpc(flags: nat, words: nat, data: seq<byte>)
    | Edpc(flags: nat)

  /** What a handler did: the new device state, the bytes it returns, the number it returns, and
      the error it reported, empty if none. */
  datatype Response<D> = Response(dev: D, data: seq<byte>, number: nat, error: seq<byte>)

  /** The handler table: which entries are set, and what a call does to the device. */
  datatype Handlers<!D> = Handlers(features: Features, respond: (D, Command) -> Response<D>)

  datatype Session<D> = Session(client: Client, dev: D)

  /** One handler call and whether it left no error. */
  datatype Event = Called(cmd: Command, ok: bool)

  datatype Effect<D> = Effect(session: Session<D>, calls: seq<Event>, reply: seq<byte>)

  /** The packet that s starts with. */
  function CommandAt(kind: Kind, s: seq<byte>, pos: nat): Command
    requires pos <= |s| && kind != KUnknown && PacketEnd(kind, s, pos) <= |s|
  {
    if kind == KShift then
      var bits := FromLe(s[pos..pos + 4]);
      var n := VectorBytes(bits);
      Shift(bits, s[pos + 4..pos + 4 + n], s[pos + 4 + n..pos + 4 + 2 * n])
    else if kind == KSetTck then
      SetTck(FromLe(s[pos..pos + 4]))
    else
      var fields := Uleb128.Fields(s, pos, Arity(kind));
      FieldCommand(kind, fields.vals, s[fields.end..PacketEnd(kind, s, pos)])
  }

  /** The packet made of a name, integers and data; each integer is kept in its C width. */
  function FieldCommand(kind: Kind, v: seq<nat>, data: seq<byte>): Command
    requires |v| == Arity(kind) && kind != KUnknown && kind != KShift && kind != KSetTck
  {
    match kind
    case KGetInfo => GetInfo
    case KCapabilities => Capabilities
    case KConfigure => Configure(data)
    case KGetError => GetError
    case KLock => Lock(v[0] % TWO32)
    case KUnlock => Unlock
    case KRegisterShift(ir) => RegisterShift(ir, v[0] % TWO32, v[1] % TWO32, v[2] % TWO64, data)
    case KState => State(v[0] % TWO32, v[1] % TWO32, v[2] % TWO64)
    case KMrd => Mrd(v[0] % TWO32, v[1] % TWO64, v[2] % TWO64)
    case KMwr => Mwr(v[0] % TWO32, v[1] % TWO64, v[2] % TWO64, data)
    case KIdpc => Idpc(v[0] % TWO32, v[1] % TWO64, data)
    case KEdpc => Edpc(v[0] % TWO32)
  }

  function NextCommand(f: Features, s: seq<byte>): Command
    requires NextFrame(f, s).Packet?
  {
    var c := ColonFrom(s, 0);
    CommandAt(Keyword(f, s[..c + 1]), s, c + 1)
  }

  function StatusByte(c: Client): byte {
    if c.pendingError != [] then 1 else 0
  }

  function WithStatus<D>(e: Effect<D>): Effect<D> {
    e.(reply := e.reply + [StatusByte(e.session.client)])
  }

  function WithOptionalStatus<D>(e: Effect<D>): Effect<D> {
    if e.session.client.enableStatus then WithStatus(e) else e
  }

  datatype Attempt<D> = Attempt(session: Session<D>, calls: seq<Event>, data: seq<byte>, number: nat)

  /** Calls the handler of cmd, unless an error is pending. */
  function Try<D>(h: Handlers<D>, s: Session<D>, cmd: Command): Attempt<D> {
    if s.client.pendingError != [] then Attempt(s, [], [], 0)
    else
      var r := h.respond(s.dev, cmd);
      var client := SetError(s.client, r.error);
      Attempt(Session(client, r.dev), [Called(cmd, client.pendingError == [])], r.data, r.number)
  }

  /** The data part of a reply: what the handler returned, or zeros when an error is pending. */
  function DataReply<D>(a: Attempt<D>, n: nat): (r: seq<byte>)
    ensures |r| == n
  {
    if a.session.client.pendingError != [] then Zeros(n) else Fit(a.data, n)
  }

  function ExecuteLock<D>(h: Handlers<D>, s: Session<D>, cmd: Command): Effect<D> {
    if s.client.pendingError != [] then Effect(s, [], [])
    else if !s.client.enableLocking then Effect(s.(client := SetError(s.client, Text(LockingDisabled))), [], [])
    else if s.client.locked then Effect(s.(client := SetError(s.client, Text(AlreadyLocked))), [], [])
    else
      var a := Try(h, s, cmd);
      var c := a.session.client;
      var client := if c.pendingError == [] then c.(locked := true) else c;
      Effect(a.session.(client := client), a.calls, [])
  }

  function ExecuteUnlock<D>(h: Handlers<D>, s: Session<D>): Effect<D> {
    if s.client.pendingError != [] then Effect(s, [], [])
    else if !s.client.enableLocking then Effect(s.(client := SetError(s.client, Text(LockingDisabled))), [], [])
    else if !s.client.locked then Effect(s.(client := SetError(s.client, Text(AlreadyUnlocked))), [], [])
    else
      var a := Try(h, s, Unlock);
      var c := a.session.client;
      var client := if c.pendingError == [] then c.(locked := false) else c;
      Effect(a.session.(client := client), a.calls, [])
  }

  function Digits(n: nat): seq<byte> {
    if n < 10 then [48 + n] else Digits(n / 10) + [48 + n % 10]
  }

  function InfoText(): seq<byte> {
    Ascii("xvcServer_v1.1:") + Digits(BUF_MAX) + [10]
  }

  function CapabilityText(f: Features): seq<byte> {
    if f.server == Mem then
      (if f.lock && f.unlock then Ascii("locking,") else [])
      + (if f.registerShift && f.state then Ascii("state-aware,") else [])
      + Ascii("memory,") + Ascii("idcode=2315268243,") + Ascii("status")
    else
      Ascii("status,") + (if f.idpc && f.edpc then Ascii("dpc") else [])
  }

  /** A text preceded by its length. */
  function Counted(text: seq<byte>): seq<byte> {
    Uleb128.Put(|text|) + text
  }

  /** The part of the pending error that fits the buffer together with its length. */
  function ErrorText(c: Client): seq<byte> {
    var n := |c.pendingError|;
    if n > BUF_MAX - (n + 127) / 128 && BUF_MAX >= (n + 127) / 128 then c.pendingError[..BUF_MAX - (n + 127) / 128]
    else c.pendingError
  }

  /** TDO is returned only when flag 4 asks for it. */
  function TdoBytes(flags: nat, count: nat): nat {
    if flags / 4 % 2 == 1 then WideVectorBytes(count) else 0
  }

  /** The word count is sent in 32 bits; the data has four bytes for each word. */
  function EdpcReply<D>(a: Attempt<D>): seq<byte> {
    Uleb128.Put(a.number % TWO32) + DataReply(a, a.number * 4 % TWO64)
  }

  function ExecuteEdpc<D>(h: Handlers<D>, s: Session<D>, cmd: Command): Effect<D> {
    var a := Try(h, s, cmd);
    WithStatus(Effect(a.session, a.calls, EdpcReply(a)))
  }

  function ExecuteSetTck<D>(h: Handlers<D>, s: Session<D>, cmd: Command, period: nat): Effect<D> {
    var a := Try(h, s, cmd);
    var result := if a.session.client.pendingError != [] then period else a.number;
    WithOptionalStatus(Effect(a.session, a.calls, ToLe(4, result)))
  }

  /** A handler call that is answered with n bytes of data. */
  function DataEffect<D>(h: Handlers<D>, s: Session<D>, cmd: Command, n: nat): Effect<D> {
    var a := Try(h, s, cmd);
    Effect(a.session, a.calls, DataReply(a, n))
  }

  /** The effect of one packet on the client state and the device, and its reply. */
  function Execute<D>(h: Handlers<D>, s: Session<D>, cmd: Command): Effect<D> {
    match cmd
    case GetInfo => Effect(s, [], InfoText())
    case Capabilities => Effect(s, [], Counted(CapabilityText(h.features)))
    case Configure(text) => WithStatus(Effect(s.(client := ApplyConfig(h.features, s.client, text)), [], []))
    case GetError => Effect(s.(client := s.client.(pendingError := [])), [], Counted(ErrorText(s.client)))
    case Lock(_) => WithStatus(ExecuteLock(h, s, cmd))
    case Unlock => WithStatus(ExecuteUnlock(h, s))
    case Shift(bits, _, _) => WithOptionalStatus(DataEffect(h, s, cmd, VectorBytes(bits)))
    case SetTck(period) => ExecuteSetTck(h, s, cmd, period)
    case RegisterShift(_, flags, _, count, _) => WithStatus(DataEffect(h, s, cmd, TdoBytes(flags, count)))
    case State(_, _, _) => WithStatus(DataEffect(h, s, cmd, 0))
    case Mrd(_, _, size) => WithStatus(DataEffect(h, s, cmd, size))
    case Mwr(_, _, _, _) => WithStatus(DataEffect(h, s, cmd, 0))
    case Idpc(_, _, _) => WithStatus(DataEffect(h, s, cmd, 0))
    case Edpc(_) => ExecuteEdpc(h, s, cmd)
  }

  /** Everything observable about a connection: its state, the handler calls made so far, the bytes
      answered so far, and for each call of the lock handler how many bytes were answered before. */
  datatype Progress<D> = Progress(
    session: Session<D>, calls: seq<Event>, reply: seq<byte>, lockPoints: seq<nat>)

  function LockPoint(calls: seq<Event>, sent: nat): seq<nat> {
    if calls != [] && calls[0].cmd.Lock? then [sent] else []
  }

  function Advance<D>(h: Handlers<D>, p: Progress<D>, cmd: Command): Progress<D> {
    var e := Execute(h, p.session, cmd);
    Progress(e.session, p.calls + e.calls, p.reply + e.reply, p.lockPoints + LockPoint(e.calls, |p.reply|))
  }

  datatype Ending = Waiting | ProtocolError | TooLong

  datatype Final<D> = Final(progress: Progress<D>, ending: Ending, rest: seq<byte>)

  /** Runs a whole stream. */
  function Run<D>(h: Handlers<D>, p: Progress<D>, stream: seq<byte>): Final<D>
    decreases |stream|
  {
    match NextFrame(h.features, stream)
    case Fill => Final(p, Waiting, stream)
    case Malformed => Final(p, ProtocolError, stream)
    case Oversized => Final(p, TooLong, stream)
    case Packet(_, end) => Run(h, Advance(h, p, NextCommand(h.features, stream)), stream[end..])
  }

  /** A stream whose packets, up to the first malformed one, fit the receive buffer. */
  predicate Conforming(f: Features, stream: seq<byte>)
    decreases |stream|
  {
    match NextFrame(f, stream)
    case Fill => RegularFrame(f, stream)
    case Malformed => true
    case Oversized => false
    case Packet(kind, end) =>
      && RegularFrame(f, stream)
      && Admissible(kind, end)
      && Conforming(f, stream[end..])
  }

  lemma CommandExtend(f: Features, s: seq<byte>, t: seq<byte>)
    requires NextFrame(f, s).Packet?
    ensures NextFrame(f, s + t) == NextFrame(f, s)
    ensures NextCommand(f, s + t) == NextCommand(f, s)
  {
    FrameExtend(f, s, t);
    ColonExtend(s, t, 0);
    var c := ColonFrom(s, 0);
    assert (s + t)[..c + 1] == s[..c + 1];
    var kind := Keyword(f, s[..c + 1]);
    PacketEndExtend(kind, s, t, c + 1);
    hide Keyword, PacketEnd, CommandAt, Uleb128.Fields;
    CommandAtExtend(kind, s, t, c + 1);
  }

  lemma CommandAtExtend(kind: Kind, s: seq<byte>, t: seq<byte>, pos: nat)
    requires pos <= |s| && kind != KUnknown && PacketEnd(kind, s, pos) <= |s|
    requires PacketEnd(kind, s + t, pos) == PacketEnd(kind, s, pos)
    requires kind != KShift && kind != KSetTck ==>
               Uleb128.Fields(s + t, pos, Arity(kind)) == Uleb128.Fields(s, pos, Arity(kind))
    ensures CommandAt(kind, s + t, pos) == CommandAt(kind, s, pos)
  {
    assert forall a, b :: 0 <= a <= b <= |s| ==> (s + t)[a..b] == s[a..b];
  }

  /** What a conforming stream starts with is never seen as oversized, however little of it is there. */
  lemma NeverOversized(f: Features, view: seq<byte>, unread: seq<byte>)
    requires Conforming(f, view + unread)
    ensures !NextFrame(f, view).Oversized?
  {
    if NextFrame(f, view + unread).Malformed? {
      ColonExtend(view, unread, 0);
      var c := ColonFrom(view, 0);
      if c < |view| && c < NAME_MAX {
        assert (view + unread)[..c + 1] == view[..c + 1];
      }
    } else {
      FramePrefix(f, view, unread);
    }
  }

  /** No size assertion fails on any part of the stream, from any packet on, that the receive buffer
      can hold. */
  ghost predicate NeverTrips(f: Features, stream: seq<byte>)
    decreases |stream|
  {
    && (forall n :: 0 <= n <= |stream| && n <= BUF_MAX ==> !NextFrame(f, stream[..n]).Oversized?)
    && match NextFrame(f, stream)
       case Packet(_, end) => NeverTrips(f, stream[end..])
       case _ => true
  }

  /** What a stream that does not conform trips with. */
  lemma Tripped(f: Features, stream: seq<byte>) returns (n: nat)
    requires match NextFrame(f, stream)
             case Fill => !RegularFrame(f, stream)
             case Malformed => false
             case Oversized => true
             case Packet(kind, end) => !RegularFrame(f, stream) || !Admissible(kind, end)
    ensures n <= |stream| && n <= BUF_MAX && NextFrame(f, stream[..n]).Oversized?
  {
    hide NextFrame, RegularFrame, WrapPoint;
    assert stream[..|stream|] == stream;
    if !RegularFrame(f, stream) {
      WrapTrips(f, stream);
      n := WrapPoint(f, stream);
    } else if NextFrame(f, stream).Packet? {
      LateByteTrips(f, stream);
      n := NextFrame(f, stream).end - 1;
    } else {
      n := |stream|;
    }
    if n > BUF_MAX {
      FullBufferTrips(f, stream[..n]);
      assert stream[..n][..BUF_MAX] == stream[..BUF_MAX];
      n := BUF_MAX;
    }
  }

  /** The conforming streams are exactly those on which no way of receiving them trips a size
      assertion. */
  lemma {:induction false} ConformingIsExact(f: Features, stream: seq<byte>)
    ensures Conforming(f, stream) <==> NeverTrips(f, stream)
    decreases |stream|
  {
    hide NextFrame, RegularFrame;
    if Conforming(f, stream) {
      forall n | 0 <= n <= |stream| && n <= BUF_MAX
        ensures !NextFrame(f, stream[..n]).Oversized?
      {
        assert stream[..n] + stream[n..] == stream;
        NeverOversized(f, stream[..n], stream[n..]);
      }
      if NextFrame(f, stream).Packet? {
        ConformingIsExact(f, stream[NextFrame(f, stream).end..]);
      }
    } else if NextFrame(f, stream).Packet?
              && RegularFrame(f, stream) && Admissible(NextFrame(f, stream).kind, NextFrame(f, stream).end) {
      ConformingIsExact(f, stream[NextFrame(f, stream).end..]);
    } else {
      var n := Tripped(f, stream);
    }
  }
}
