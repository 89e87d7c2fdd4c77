/** The memory server as a client sees it: packets on a connection, answered by the shipped handlers
    over the memory of the debug hub. */
module Accesses {
  import opened Bytes
  import opened Framing
  import opened Configure
  import opened Session
  import opened Laws
  import opened ReplyBuffer
  import opened Batches
  import opened Exactness
  import opened Memory
  import opened Trace
  import opened Server
  import opened Wire

  /** The shipped handler table: memory accesses, an echoing settck: and a shift: that does nothing.
      Requests outside the hub report refusal. */
  function MemHandlers(hubAddr: nat, refusal: seq<byte>): Handlers<seq<byte>> {
    Handlers(Features(Mem, false, false, false, false, true, true, false, false),
             (mem, cmd) => Respond(hubAddr, refusal, mem, cmd))
  }

  function Respond(hubAddr: nat, refusal: seq<byte>, mem: seq<byte>, cmd: Command): Response<seq<byte>> {
    match cmd
    case SetTck(period) => Response(mem, [], period, [])
    case Mrd(_, addr, size) =>
      if !InHub(hubAddr, |mem|, addr, size) then Response(mem, [], 0, refusal)
      else Response(mem, mem[addr - hubAddr..addr - hubAddr + size], 0, [])
    case Mwr(_, addr, size, data) =>
      if !InHub(hubAddr, |mem|, addr, size) then Response(mem, [], 0, refusal)
      else Response(Splice(mem, addr - hubAddr, Fit(data, size)), [], 0, [])
    case _ => Response(mem, [], 0, [])
  }

  /** Packets in the domain of the laws: accesses that are refused or of whole words, and everything
      that reaches no handler but settck:. */
  predicate Served(hubAddr: nat, hubSize: nat, cmd: Command) {
    match cmd
    case Mrd(_, addr, size) => addr + size < TWO64 && (InHub(hubAddr, hubSize, addr, size) ==> size % 4 == 0)
    case Mwr(_, addr, size, data) =>
      && addr + size < TWO64 && |data| == size
      && (InHub(hubAddr, hubSize, addr, size) ==> size % 4 == 0)
    case SetTck(_) | GetError | GetInfo | Capabilities | Configure(_) => true
    case _ => false
  }

  // ---------------------------------------------------------------- the handlers

  /** The two memory handlers on the hub itself, with the word loops, do what Respond says. The data
      of mwr: lie at from in buf, where mrd: puts what it has read. */
  method Handle(hub: Hub, cmd: Command, refusal: seq<byte>, buf: array<byte>, from: nat) returns (error: seq<byte>)
    requires hub.Valid() && buf != hub.mem && (cmd.Mrd? || cmd.Mwr?) && Served(hub.addr, hub.size, cmd)
    requires from + cmd.size <= buf.Length && (cmd.Mwr? ==> buf[from..from + cmd.size] == cmd.data)
    modifies hub`failed, hub.mem, buf
    ensures hub.Valid()
    ensures var r := Respond(hub.addr, refusal, old(hub.mem[..]), cmd);
            && hub.mem[..] == r.dev && error == r.error
            && buf[..] == if cmd.Mrd? && InHub(hub.addr, hub.size, cmd.addr, cmd.size)
                          then Splice(old(buf[..]), from, r.data) else old(buf[..])
  {
    hide WholeWords, Splice, Fit;
    hub.failed := false;
    FitsItself(hub.mem[..], cmd);
    if cmd.Mrd? {
      hub.Mrd(cmd.addr, cmd.size, buf, from);
    } else {
      assert buf[..][from..from + cmd.size] == cmd.data;
      hub.Mwr(cmd.addr, cmd.size, buf, from);
    }
    error := if hub.failed then refusal else [];
  }

  lemma FitsItself(mem: seq<byte>, cmd: Command)
    ensures cmd.Mwr? && |cmd.data| == cmd.size ==> Fit(cmd.data, cmd.size) == cmd.data
    ensures (cmd.Mrd? || cmd.Mwr?) && cmd.size % 4 == 0 ==> WholeWords(cmd.size) == cmd.size
  {
  }

  // ---------------------------------------------------------------- what the client expects

  /** What a client has to remember: the writes that were accepted, the configuration, and the pending
      error. */
  datatype Memo = Memo(writes: seq<Write>, client: Client)

  predicate Accepted(hubAddr: nat, hubSize: nat, memo: Memo, cmd: Command) {
    && memo.client.pendingError == [] && (cmd.Mrd? || cmd.Mwr?)
    && InHub(hubAddr, hubSize, cmd.addr, cmd.size)
  }

  function Refused(memo: Memo, refusal: seq<byte>): Memo {
    if memo.client.pendingError != [] then memo else memo.(client := SetError(memo.client, refusal))
  }

  function NextMemo(hubAddr: nat, hubSize: nat, refusal: seq<byte>, memo: Memo, cmd: Command): Memo {
    match cmd
    case GetError => memo.(client := memo.client.(pendingError := []))
    case Configure(text) => memo.(client := ApplyConfig(MemHandlers(hubAddr, refusal).features, memo.client, text))
    case Mwr(_, addr, _, data) =>
      if Accepted(hubAddr, hubSize, memo, cmd) then memo.(writes := memo.writes + [Write(addr - hubAddr, data)])
      else Refused(memo, refusal)
    case Mrd(_, _, _) => if Accepted(hubAddr, hubSize, memo, cmd) then memo else Refused(memo, refusal)
    case _ => memo
  }

  /** The answer to one packet: the bytes written last, a status, the pending error with its length,
      the period asked for, or a text of the server. */
  function AnswerTo(hubAddr: nat, mem: seq<byte>, refusal: seq<byte>, memo: Memo, cmd: Command): seq<byte> {
    match cmd
    case Mrd(_, addr, size) =>
      if Accepted(hubAddr, |mem|, memo, cmd) then LastBytes(mem, memo.writes, addr - hubAddr, size) + [0]
      else Zeros(size) + [1]
    case Mwr(_, _, _, _) => if Accepted(hubAddr, |mem|, memo, cmd) then [0] else [1]
    case GetError => Counted(memo.client.pendingError)
    case SetTck(period) => ToLe(4, period) + (if memo.client.enableStatus then [StatusByte(memo.client)] else [])
    case GetInfo => InfoText()
    case Capabilities => Counted(CapabilityText(MemHandlers(hubAddr, refusal).features))
    case Configure(_) => [StatusByte(NextMemo(hubAddr, |mem|, refusal, memo, cmd).client)]
    case _ => []
  }

  function Expected(hubAddr: nat, mem: seq<byte>, refusal: seq<byte>, memo: Memo, cmds: seq<Command>): seq<byte>
    decreases |cmds|
  {
    if cmds == [] then []
    else
      AnswerTo(hubAddr, mem, refusal, memo, cmds[0])
      + Expected(hubAddr, mem, refusal, NextMemo(hubAddr, |mem|, refusal, memo, cmds[0]), cmds[1..])
  }

  /** The server is in the state the client remembers. */
  ghost predicate Remembered(mem: seq<byte>, memo: Memo, s: Session<seq<byte>>) {
    && Inside(|mem|, memo.writes) && s.dev == Memory.After(mem, memo.writes)
    && s.client == memo.client && |memo.client.pendingError| <= ERROR_MAX
  }

  // ---------------------------------------------------------------- the law

  lemma AfterSnoc(mem: seq<byte>, writes: seq<Write>, w: Write)
    requires Inside(|mem|, writes) && w.at + |w.data| <= |mem|
    ensures Inside(|mem|, writes + [w])
    ensures Memory.After(mem, writes + [w]) == Splice(Memory.After(mem, writes), w.at, w.data)
  {
    assert (writes + [w])[..|writes|] == writes;
    assert forall v :: v in writes + [w] ==> v in writes || v == w;
  }

  lemma RefusalStays(refusal: seq<byte>)
    requires refusal != [] && refusal[0] != 0
    ensures Clip(refusal) != [] && |Clip(refusal)| <= ERROR_MAX
  {
    ClipNonEmpty(refusal);
  }

  lemma ReadStep(
    hubAddr: nat, refusal: seq<byte>, mem: seq<byte>, memo: Memo, s: Session<seq<byte>>, cmd: Command)
    requires Remembered(mem, memo, s) && cmd.Mrd? && refusal != [] && refusal[0] != 0
    ensures var e := Execute(MemHandlers(hubAddr, refusal), s, cmd);
            Remembered(mem, NextMemo(hubAddr, |mem|, refusal, memo, cmd), e.session)
            && e.reply == AnswerTo(hubAddr, mem, refusal, memo, cmd)
  {
    var h := MemHandlers(hubAddr, refusal);
    assert h.respond(s.dev, cmd) == Respond(hubAddr, refusal, s.dev, cmd);
    RefusalStays(refusal);
    assert Clip([]) == [];
    if Accepted(hubAddr, |mem|, memo, cmd) {
      ReadAfterWrite(mem, memo.writes, cmd.addr - hubAddr, cmd.size);
      hide Memory.After, Inside, LastBytes, Clip, InHub, Splice;
      var data := s.dev[cmd.addr - hubAddr..cmd.addr - hubAddr + cmd.size];
      assert Fit(data, cmd.size) == data;
    }
  }

  lemma WriteStep(
    hubAddr: nat, refusal: seq<byte>, mem: seq<byte>, memo: Memo, s: Session<seq<byte>>, cmd: Command)
    requires Remembered(mem, memo, s) && cmd.Mwr? && |cmd.data| == cmd.size && refusal != [] && refusal[0] != 0
    ensures var e := Execute(MemHandlers(hubAddr, refusal), s, cmd);
            Remembered(mem, NextMemo(hubAddr, |mem|, refusal, memo, cmd), e.session)
            && e.reply == AnswerTo(hubAddr, mem, refusal, memo, cmd)
  {
    var h := MemHandlers(hubAddr, refusal);
    assert h.respond(s.dev, cmd) == Respond(hubAddr, refusal, s.dev, cmd);
    RefusalStays(refusal);
    assert Clip([]) == [] && Fit([], 0) == [] && Zeros(0) == [] && [] + [0] == [0] && [] + [1] == [1];
    hide Memory.After, Inside, Clip;
    assert Fit(cmd.data, cmd.size) == cmd.data;
    if Accepted(hubAddr, |mem|, memo, cmd) {
      AfterSnoc(mem, memo.writes, Write(cmd.addr - hubAddr, cmd.data));
    }
  }

  lemma OtherStep(
    hubAddr: nat, refusal: seq<byte>, mem: seq<byte>, memo: Memo, s: Session<seq<byte>>, cmd: Command)
    requires Remembered(mem, memo, s)
    requires cmd.GetError? || cmd.SetTck? || cmd.GetInfo? || cmd.Capabilities? || cmd.Configure?
    ensures var e := Execute(MemHandlers(hubAddr, refusal), s, cmd);
            Remembered(mem, NextMemo(hubAddr, |mem|, refusal, memo, cmd), e.session)
            && e.reply == AnswerTo(hubAddr, mem, refusal, memo, cmd)
  {
    var h := MemHandlers(hubAddr, refusal);
    assert h.respond(s.dev, cmd) == Respond(hubAddr, refusal, s.dev, cmd);
    assert Clip([]) == [];
    ErrorStaysShort(h, s, cmd);
    hide Memory.After, Inside, Clip, ToLe, Counted, ApplyConfig, InfoText, CapabilityText;
    if cmd.SetTck? {
      assert ToLe(4, cmd.period) + [] == ToLe(4, cmd.period);
    } else if cmd.Configure? {
      var status := [StatusByte(ApplyConfig(h.features, s.client, cmd.text))];
      assert [] + status == status;
    }
  }

  /** One packet is answered as the client expects, and changes memory as it remembers. */
  lemma ServedStep(
    hubAddr: nat, refusal: seq<byte>, mem: seq<byte>, memo: Memo, s: Session<seq<byte>>, cmd: Command)
    requires Remembered(mem, memo, s) && Served(hubAddr, |mem|, cmd) && refusal != [] && refusal[0] != 0
    ensures var e := Execute(MemHandlers(hubAddr, refusal), s, cmd);
            Remembered(mem, NextMemo(hubAddr, |mem|, refusal, memo, cmd), e.session)
            && e.reply == AnswerTo(hubAddr, mem, refusal, memo, cmd)
  {
    hide Execute, MemHandlers, Remembered, NextMemo, AnswerTo;
    if cmd.Mrd? {
      ReadStep(hubAddr, refusal, mem, memo, s, cmd);
    } else if cmd.Mwr? {
      WriteStep(hubAddr, refusal, mem, memo, s, cmd);
    } else {
      OtherStep(hubAddr, refusal, mem, memo, s, cmd);
    }
  }

  /** Any sequence of packets: every accepted read is answered with the bytes written last at its
      addresses; a refused request leaves an error behind which every answer shows, and memory as it
      was, until error: hands it over. */
  lemma {:induction false} PacketsAnswered(
    hubAddr: nat, refusal: seq<byte>, mem: seq<byte>, memo: Memo, p: Progress<seq<byte>>,
    cmds: seq<Command>)
    requires Remembered(mem, memo, p.session) && refusal != [] && refusal[0] != 0
    requires forall cmd :: cmd in cmds ==> Served(hubAddr, |mem|, cmd)
    ensures ExecuteAll(MemHandlers(hubAddr, refusal), p, cmds).reply
         == p.reply + Expected(hubAddr, mem, refusal, memo, cmds)
    decreases |cmds|
  {
    hide Execute, MemHandlers, AnswerTo, NextMemo, Remembered, Served, Advance;
    var h := MemHandlers(hubAddr, refusal);
    if cmds == [] {
      assert p.reply + [] == p.reply;
    } else {
      var cmd, rest := cmds[0], cmds[1..];
      assert cmd in cmds && forall c :: c in rest ==> c in cmds;
      var next := NextMemo(hubAddr, |mem|, refusal, memo, cmd);
      ServedStep(hubAddr, refusal, mem, memo, p.session, cmd);
      AdvanceParts(h, p, cmd);
      PacketsAnswered(hubAddr, refusal, mem, next, Advance(h, p, cmd), rest);
      var answer := AnswerTo(hubAddr, mem, refusal, memo, cmd);
      var more := Expected(hubAddr, mem, refusal, next, rest);
      assert p.reply + answer + more == p.reply + (answer + more);
    }
  }

  /** A whole connection through the buffered engine, however its bytes are cut and whatever its reply
      buffer held: if no byte of its replies is left out, the client is sent what it expects, all of it
      unless the stream ends in an unknown command. */
  method ServeMemory(hubAddr: nat, refusal: seq<byte>, mem: seq<byte>, input: seq<byte>, cuts: seq<nat>, stale: byte)
    returns (c: XvcClient<seq<byte>>, outcome: Outcome)
    requires refusal != [] && refusal[0] != 0
    requires var h := MemHandlers(hubAddr, refusal);
             && Conforming(h.features, input) && Fitting(Right, h, Fresh(mem), input)
             && forall cmd :: cmd in Commands(h.features, input) ==> Served(hubAddr, |mem|, cmd)
    ensures var h := MemHandlers(hubAddr, refusal);
            var expected := Expected(hubAddr, mem, refusal, Memo([], Fresh(mem).client), Commands(h.features, input));
            && SentOf(c.trace) <= expected
            && SentOf(c.trace) == Transmit(h, Fresh(mem), seq(REPLY_CAPACITY, i => stale), [], input, cuts)
            && (outcome == Closed <==> Run(h, Progress(Fresh(mem), [], [], []), input).ending == Waiting)
            && (outcome == BadPacket <==> Run(h, Progress(Fresh(mem), [], [], []), input).ending == ProtocolError)
            && (outcome == Closed ==> SentOf(c.trace) == expected)
  {
    hide Conforming, Fitting, Outgrows, Transmit, Commands, Run, SentOf, Served, MemHandlers, Expected, NextMemo;
    var h := MemHandlers(hubAddr, refusal);
    ghost var p, memo := Progress(Fresh(mem), [], [], []), Memo([], Fresh(mem).client);
    FittingWeaker(Right, Limit(REPLY_CAPACITY), h, Fresh(mem), input);
    RunIsFold(h, p, input);
    assert Remembered(mem, memo, p.session);
    PacketsAnswered(hubAddr, refusal, mem, memo, p, Commands(h.features, input));
    c, outcome := Server.Serve(h, mem, input, cuts, stale);
    var expected := Expected(hubAddr, mem, refusal, memo, Commands(h.features, input));
    assert [] + expected == expected;
    PrefixFull(SentOf(c.trace), expected);
  }

  /** Packets of these kinds as a client writes them: what the connection above asks for holds. */
  lemma WrittenServed(hubAddr: nat, refusal: seq<byte>, mem: seq<byte>, cmds: seq<Command>)
    requires forall cmd :: cmd in cmds ==> Served(hubAddr, |mem|, cmd) && InRange(cmd) && Small(cmd)
    ensures var h := MemHandlers(hubAddr, refusal);
            && Sendable(h.features, cmds) && Conforming(h.features, WireForms(cmds))
            && Commands(h.features, WireForms(cmds)) == cmds
            && Run(h, Progress(Fresh(mem), [], [], []), WireForms(cmds)).ending == Waiting
  {
    hide Small, InRange, Commands, Conforming, Run, WireForms;
    var h := MemHandlers(hubAddr, refusal);
    forall cmd | cmd in cmds
      ensures Offered(h.features, cmd) && Proper(cmd)
    {
      ServedProper(hubAddr, refusal, |mem|, cmd);
    }
    CommandsOfForms(h.features, cmds);
    KeptAllWhole(cmds);
    RunOfForms(h, Progress(Fresh(mem), [], [], []), cmds);
  }

  lemma ServedProper(hubAddr: nat, refusal: seq<byte>, hubSize: nat, cmd: Command)
    requires Served(hubAddr, hubSize, cmd) && InRange(cmd) && Small(cmd)
    ensures Offered(MemHandlers(hubAddr, refusal).features, cmd) && Proper(cmd)
  {
    hide Uleb128.Put, InHub, Ascii;
  }

  /** A client that writes such packets, and closes the connection when it has its answers, is sent
      exactly what it expects. */
  method ServeClient(
    hubAddr: nat, refusal: seq<byte>, mem: seq<byte>, cmds: seq<Command>, cuts: seq<nat>, stale: byte)
    returns (c: XvcClient<seq<byte>>, outcome: Outcome)
    requires refusal != [] && refusal[0] != 0
    requires forall cmd :: cmd in cmds ==> Served(hubAddr, |mem|, cmd) && InRange(cmd) && Small(cmd)
    requires Fitting(Right, MemHandlers(hubAddr, refusal), Fresh(mem), WireForms(cmds))
    ensures outcome == Closed
    ensures SentOf(c.trace) == Expected(hubAddr, mem, refusal, Memo([], Fresh(mem).client), cmds)
  {
    hide Conforming, Fitting, Commands, Run, SentOf, Served, MemHandlers, Expected, WireForms, InRange, Small, Transmit;
    WrittenServed(hubAddr, refusal, mem, cmds);
    c, outcome := ServeMemory(hubAddr, refusal, mem, WireForms(cmds), cuts, stale);
  }

  lemma PrefixFull(a: seq<byte>, b: seq<byte>)
    requires a <= b
    ensures |a| == |b| ==> a == b
  {
    assert a == b[..|a|];
  }
}
