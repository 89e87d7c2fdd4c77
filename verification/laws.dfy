/** What holds of every packet stream: how runs compose, sticky errors, the lock discipline, and
    which packets can never be answered with more bytes than they were asked with. */
module Laws {
  import opened Bytes
  import Uleb128
  import opened Framing
  import opened Configure
  import opened Session

  // ---------------------------------------------------------------- composition

  /** A stream may be cut anywhere: running the second part on what the first left over is
      running the whole, and a protocol error ends the run for good. */
  lemma {:induction false} RunComposes<D>(h: Handlers<D>, p: Progress<D>, s: seq<byte>, t: seq<byte>)
    ensures var r := Run(h, p, s);
            && (r.ending == Waiting ==> Run(h, p, s + t) == Run(h, r.progress, r.rest + t))
            && (r.ending == ProtocolError ==>
                  Run(h, p, s + t).progress == r.progress && Run(h, p, s + t).ending == ProtocolError)
    decreases |s|
  {
    match NextFrame(h.features, s)
    case Packet(_, end) =>
      CommandExtend(h.features, s, t);
      assert (s + t)[end..] == s[end..] + t;
      RunComposes(h, Advance(h, p, NextCommand(h.features, s)), s[end..], t);
    case Malformed => FrameExtend(h.features, s, t);
    case _ =>
  }

  /** The commands of the complete packets of a stream, up to the first malformed one. */
  function Commands(f: Features, stream: seq<byte>): seq<Command>
    decreases |stream|
  {
    match NextFrame(f, stream)
    case Packet(_, end) => [NextCommand(f, stream)] + Commands(f, stream[end..])
    case _ => []
  }

  /** Runs a list of packets, one after the other. */
  function ExecuteAll<D>(h: Handlers<D>, p: Progress<D>, cmds: seq<Command>): Progress<D>
    decreases |cmds|
  {
    if cmds == [] then p else ExecuteAll(h, Advance(h, p, cmds[0]), cmds[1..])
  }

  /** Running a stream is running its packets. */
  lemma {:induction false} RunIsFold<D>(h: Handlers<D>, p: Progress<D>, stream: seq<byte>)
    ensures Run(h, p, stream).progress == ExecuteAll(h, p, Commands(h.features, stream))
    decreases |stream|
  {
    hide Advance, NextCommand;
    match NextFrame(h.features, stream)
    case Packet(_, end) =>
      var cmd := NextCommand(h.features, stream);
      RunIsFold(h, Advance(h, p, cmd), stream[end..]);
      assert Commands(h.features, stream)[1..] == Commands(h.features, stream[end..]);
    case _ =>
  }

  lemma AdvanceParts<D>(h: Handlers<D>, p: Progress<D>, cmd: Command)
    ensures Advance(h, p, cmd).session == Execute(h, p.session, cmd).session
    ensures Advance(h, p, cmd).reply == p.reply + Execute(h, p.session, cmd).reply
  {
    hide Execute;
  }

  // ---------------------------------------------------------------- sticky errors

  /** How a server with a pending error answers: no device data, the requested period, status 1. */
  function FailedReply(f: Features, enableStatus: bool, cmd: Command): seq<byte> {
    match cmd
    case GetInfo => InfoText()
    case Capabilities => Counted(CapabilityText(f))
    case Configure(_) | Lock(_) | Unlock | State(_, _, _) | Mwr(_, _, _, _) | Idpc(_, _, _) => [1]
    case Shift(bits, _, _) => Zeros(VectorBytes(bits)) + (if enableStatus then [1] else [])
    case SetTck(period) => ToLe(4, period) + (if enableStatus then [1] else [])
    case RegisterShift(_, flags, _, count, _) => Zeros(TdoBytes(flags, count)) + [1]
    case Mrd(_, _, size) => Zeros(size) + [1]
    case Edpc(_) => [0, 1]
    case GetError => []
  }

  function FailedReplies(f: Features, enableStatus: bool, cmds: seq<Command>): seq<byte> {
    if cmds == [] then []
    else FailedReply(f, enableStatus, cmds[0]) + FailedReplies(f, enableStatus, cmds[1..])
  }

  /** One packet executed while an error is pending changes nothing at all and calls no handler. */
  lemma StickyStep<D>(h: Handlers<D>, s: Session<D>, cmd: Command)
    requires s.client.pendingError != [] && !cmd.GetError?
    ensures Execute(h, s, cmd)
         == Effect(s, [], FailedReply(h.features, s.client.enableStatus, cmd))
  {
    hide Text, InfoText, CapabilityText;
    match cmd
    case Edpc(_) =>
      assert Uleb128.Put(0) == [0];
      assert Zeros(0) == [];
      assert Execute(h, s, cmd).reply == [0] + [] + [1];
    case State(_, _, _) => assert Zeros(0) == [];
    case Mwr(_, _, _, _) => assert Zeros(0) == [];
    case Idpc(_, _, _) => assert Zeros(0) == [];
    case Shift(bits, _, _) => assert Zeros(VectorBytes(bits)) + [] == Zeros(VectorBytes(bits));
    case SetTck(period) => assert ToLe(4, period) + [] == ToLe(4, period);
    case _ =>
  }

  /** From the moment an error is pending until the next error: packet, whatever the stream: no
      handler is called, neither the device nor the client changes, and every reply is the failed
      one. */
  lemma {:induction false} StickyRun<D>(h: Handlers<D>, p: Progress<D>, stream: seq<byte>)
    requires p.session.client.pendingError != []
    requires forall cmd :: cmd in Commands(h.features, stream) ==> !cmd.GetError?
    ensures Run(h, p, stream).progress == p.(reply := p.reply
              + FailedReplies(h.features, p.session.client.enableStatus, Commands(h.features, stream)))
    decreases |stream|
  {
    hide FailedReply, Execute, Advance, NextCommand, NextFrame;
    match NextFrame(h.features, stream)
    case Packet(_, end) =>
      var cmd := NextCommand(h.features, stream);
      CommandsStep(h.features, stream);
      StickyAdvance(h, p, cmd);
      var rest := Commands(h.features, stream[end..]);
      var on := p.session.client.enableStatus;
      StickyRun(h, Advance(h, p, cmd), stream[end..]);
      assert ([cmd] + rest)[1..] == rest;
      var reply, more := FailedReply(h.features, on, cmd), FailedReplies(h.features, on, rest);
      assert p.reply + reply + more == p.reply + (reply + more);
    case _ =>
      assert p.reply + [] == p.reply;
  }

  lemma CommandsStep(f: Features, stream: seq<byte>)
    requires NextFrame(f, stream).Packet?
    ensures var rest := Commands(f, stream[NextFrame(f, stream).end..]);
            && Commands(f, stream) == [NextCommand(f, stream)] + rest
            && NextCommand(f, stream) in Commands(f, stream)
            && forall c :: c in rest ==> c in Commands(f, stream)
  {
  }

  lemma StickyAdvance<D>(h: Handlers<D>, p: Progress<D>, cmd: Command)
    requires p.session.client.pendingError != [] && !cmd.GetError?
    ensures Advance(h, p, cmd)
         == p.(reply := p.reply + FailedReply(h.features, p.session.client.enableStatus, cmd))
  {
    StickyStep(h, p.session, cmd);
    hide FailedReply, Execute;
    assert p.calls + [] == p.calls;
    assert p.lockPoints + [] == p.lockPoints;
  }

  /** error: hands over the pending text, preceded by its length, and clears it. */
  lemma ErrorReport<D>(h: Handlers<D>, s: Session<D>)
    requires |s.client.pendingError| <= ERROR_MAX
    ensures var e := Execute(h, s, GetError);
            && e.session == s.(client := s.client.(pendingError := []))
            && e.calls == []
            && Uleb128.Get(e.reply, 0).value == |s.client.pendingError|
            && Uleb128.Get(e.reply, 0).end <= |e.reply|
            && e.reply[Uleb128.Get(e.reply, 0).end..] == s.client.pendingError
  {
    var m := s.client.pendingError;
    Uleb128.RoundTrip([], |m|, m);
    assert [] + Uleb128.Put(|m|) + m == Counted(m);
  }

  // ---------------------------------------------------------------- lock discipline

  /** Whether the lock is held after these handler calls. */
  function Held(calls: seq<Event>): bool {
    if calls == [] then false
    else
      var last := calls[|calls| - 1];
      if last.ok && last.cmd.Lock? then true
      else if last.ok && last.cmd.Unlock? then false
      else Held(calls[..|calls| - 1])
  }

  /** lock is only called while the lock is free, unlock only while it is held. */
  ghost predicate Alternating(calls: seq<Event>) {
    forall i :: 0 <= i < |calls| ==>
      (calls[i].cmd.Lock? ==> !Held(calls[..i])) && (calls[i].cmd.Unlock? ==> Held(calls[..i]))
  }

  function Successes(calls: seq<Event>, lock: bool): nat {
    if calls == [] then 0
    else
      var last := calls[|calls| - 1];
      Successes(calls[..|calls| - 1], lock)
      + if last.ok && (if lock then last.cmd.Lock? else last.cmd.Unlock?) then 1 else 0
  }

  ghost predicate LockInvariant<D>(h: Handlers<D>, p: Progress<D>) {
    && Alternating(p.calls)
    && p.session.client.locked == Held(p.calls)
    && (p.session.client.enableLocking ==> h.features.lock && h.features.unlock)
  }

  lemma HeldSnoc(calls: seq<Event>, e: Event)
    requires Alternating(calls)
    requires e.cmd.Lock? ==> !Held(calls)
    requires e.cmd.Unlock? ==> Held(calls)
    ensures Alternating(calls + [e])
    ensures Held(calls + [e])
         == if e.ok && e.cmd.Lock? then true else if e.ok && e.cmd.Unlock? then false else Held(calls)
  {
    assert (calls + [e])[..|calls|] == calls;
    forall i | 0 <= i < |calls|
      ensures (calls + [e])[..i] == calls[..i]
    {
    }
  }

  /** What one packet may do to the lock. */
  lemma LockStep<D>(h: Handlers<D>, s: Session<D>, cmd: Command)
    requires s.client.enableLocking ==> h.features.lock && h.features.unlock
    ensures var e := Execute(h, s, cmd);
            && (e.session.client.enableLocking ==> h.features.lock && h.features.unlock)
            && |e.calls| <= 1
            && (e.calls == [] ==> e.session.client.locked == s.client.locked)
            && (e.calls != [] ==>
                  var c := e.calls[0];
                  && (c.cmd.Lock? ==> !s.client.locked && h.features.lock)
                  && (c.cmd.Unlock? ==> s.client.locked && h.features.unlock)
                  && e.session.client.locked == (if c.ok && c.cmd.Lock? then true
                                                 else if c.ok && c.cmd.Unlock? then false
                                                 else s.client.locked))
  {
    hide Text, InfoText, CapabilityText, Clip, Counted, ErrorText, EdpcReply, DataReply, TdoBytes, VectorBytes;
    match cmd
    case Configure(text) => ConfigKeeps(h.features, s.client, SplitFields(UntilNul(text)));
    case _ =>
  }

  /** Over every stream, lock and unlock calls alternate, the locked flag says which came last, and
      locking is enabled only if both handlers exist. */
  lemma {:induction false} LockDiscipline<D>(h: Handlers<D>, p: Progress<D>, stream: seq<byte>)
    requires LockInvariant(h, p)
    ensures LockInvariant(h, Run(h, p, stream).progress)
    decreases |stream|
  {
    hide Execute;
    match NextFrame(h.features, stream)
    case Packet(_, end) =>
      var cmd := NextCommand(h.features, stream);
      LockStep(h, p.session, cmd);
      var e := Execute(h, p.session, cmd);
      if e.calls == [] {
        assert p.calls + e.calls == p.calls;
      } else {
        HeldSnoc(p.calls, e.calls[0]);
        assert p.calls + e.calls == p.calls + [e.calls[0]];
      }
      LockDiscipline(h, Advance(h, p, cmd), stream[end..]);
    case _ =>
  }

  /** Alternation as a count: successful locks exceed successful unlocks by one exactly while the
      lock is held, and are equal in number otherwise. */
  lemma {:induction false} LockCount(calls: seq<Event>)
    requires Alternating(calls)
    ensures Successes(calls, true) == Successes(calls, false) + if Held(calls) then 1 else 0
    decreases |calls|
  {
    if calls != [] {
      var n := |calls| - 1;
      var init := calls[..n];
      forall i | 0 <= i < n
        ensures init[i] == calls[i] && init[..i] == calls[..i]
      {
      }
      LockCount(init);
    }
  }

  // ---------------------------------------------------------------- replies that fit

  /** Packets answered with at most as many bytes as they have themselves. */
  predicate Lean(cmd: Command) {
    match cmd
    case GetInfo | Capabilities | GetError | Mrd(_, _, _) | Edpc(_) => false
    case RegisterShift(_, flags, _, _, _) => flags % 4 == 0
    case _ => true
  }

  predicate LeanStream(f: Features, stream: seq<byte>) {
    forall cmd :: cmd in Commands(f, stream) ==> Lean(cmd)
  }

  /** The reply to a lean packet is no longer than the packet, with status bytes on or off. */
  lemma LeanReply<D>(h: Handlers<D>, s: Session<D>, stream: seq<byte>)
    requires NextFrame(h.features, stream).Packet?
    requires Lean(NextCommand(h.features, stream))
    ensures |Execute(h, s, NextCommand(h.features, stream)).reply| <= NextFrame(h.features, stream).end
  {
    var f := h.features;
    var c := ColonFrom(stream, 0);
    var kind := Keyword(f, stream[..c + 1]);
    NameLength(f, stream[..c + 1]);
    LeanEnd(kind, stream, c + 1);
    LeanReplySize(h, s, CommandAt(kind, stream, c + 1));
  }

  /** A bound on the reply of a lean command. */
  function LeanSize(cmd: Command): nat {
    match cmd
    case Shift(bits, _, _) => VectorBytes(bits) + 1
    case SetTck(_) => 5
    case RegisterShift(_, flags, _, count, _) => TdoBytes(flags, count) + 1
    case _ => 1
  }

  lemma LeanReplySize<D>(h: Handlers<D>, s: Session<D>, cmd: Command)
    requires Lean(cmd)
    ensures |Execute(h, s, cmd).reply| <= LeanSize(cmd)
  {
    hide Text, InfoText, CapabilityText, VectorBytes, TdoBytes;
  }

  lemma LeanEnd(kind: Kind, s: seq<byte>, pos: nat)
    requires 0 < pos <= |s| && kind != KUnknown && PacketEnd(kind, s, pos) <= |s|
    ensures LeanSize(CommandAt(kind, s, pos)) <= PacketEnd(kind, s, pos) || !Lean(CommandAt(kind, s, pos))
  {
    hide VectorBytes;
    if kind != KShift && kind != KSetTck {
      LeanFields(kind, s, pos);
    }
  }

  lemma NameLength(f: Features, name: seq<byte>)
    ensures Keyword(f, name).KShift? ==> |name| == 6
    ensures Keyword(f, name).KSetTck? ==> |name| == 7
  {
  }

  lemma LowBits(v: nat)
    ensures v % TWO32 % 4 == v % 4
  {
    MultipleVanishes(v % TWO32, 4, TWO32 / 4, v / TWO32);
    assert v == v % TWO32 + TWO32 * (v / TWO32);
  }

  lemma LeanFields(kind: Kind, s: seq<byte>, pos: nat)
    requires pos <= |s| && kind != KUnknown && kind != KShift && kind != KSetTck
    requires PacketEnd(kind, s, pos) <= |s|
    ensures var cmd := CommandAt(kind, s, pos);
            cmd.RegisterShift? && cmd.flags % 4 == 0 ==>
              PacketEnd(kind, s, pos) >= pos + 3 + TdoBytes(cmd.flags, cmd.count)
  {
    if kind.KRegisterShift? {
      var v := Uleb128.Fields(s, pos, 3).vals;
      LowBits(v[0]);
      hide Uleb128.Fields, WideVectorBytes;
    }
  }

  lemma LeanTail(f: Features, stream: seq<byte>)
    requires LeanStream(f, stream) && NextFrame(f, stream).Packet?
    ensures Lean(NextCommand(f, stream))
    ensures LeanStream(f, stream[NextFrame(f, stream).end..])
  {
    CommandsStep(f, stream);
  }
}
