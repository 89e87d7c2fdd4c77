/** Two reads that are answered rightly one at a time, and wrongly when they arrive together. */
module Witness {
  import opened Bytes
  import opened Uleb128
  import opened Framing
  import opened Configure
  import opened Session
  import opened Laws
  import opened ReplyBuffer
  import opened Batches
  import opened Trace
  import opened Server
  import opened Wire

  const READ_SIZE: nat := 6000

  function MrdPacket(addr: nat, size: nat): seq<byte> {
    WireForm(Mrd(0, addr, size))
  }

  lemma MrdReads(f: Features, addr: nat, size: nat, rest: seq<byte>)
    requires f.server == Mem && f.mrd && addr < TWO64 && size < TWO64
    ensures var m := MrdPacket(addr, size);
            && NextFrame(f, m + rest) == Packet(KMrd, |m|) && RegularFrame(f, m + rest)
            && NextCommand(f, m + rest) == Mrd(0, addr, size)
            && (m + rest)[|m|..] == rest
  {
    var cmd := Mrd(0, addr, size);
    WireFormReads(f, cmd, rest);
    KeptWhole(cmd);
  }

  lemma MrdSize(addr: nat)
    requires addr < TWO64
    ensures 4 < |MrdPacket(addr, READ_SIZE)| <= 30
  {
    Pow2Words();
    Pow2Add(64, 6);
    Pow2Add(14, 0);
    assert Pow2(6) >= 1 && TWO64 * Pow2(6) >= TWO64;
    PutLength(addr, 10);
    PutLength(0, 1);
    assert Pow2(14) == 16384 by {
      Pow2Eight();
      Pow2Add(8, 6);
    }
    PutLength(READ_SIZE, 2);
  }

  lemma ReadReply<D>(h: Handlers<D>, s: Session<D>, addr: nat)
    ensures var cmd := Mrd(0, addr, READ_SIZE);
            && |Execute(h, s, cmd).reply| == READ_SIZE + 1 && Written(h, s, cmd) == Execute(h, s, cmd).reply
            && Execute(h, s, cmd).reply[READ_SIZE] == StatusByte(Execute(h, s, cmd).session.client)
            && Head(h, s, cmd) == 0 && Body(h, s, cmd) == READ_SIZE
  {
  }

  lemma ReadAllowed<D>(h: Handlers<D>, s: Session<D>, addr: nat, at: nat)
    requires at + READ_SIZE + 1 <= REPLY_CAPACITY
    ensures var cmd := Mrd(0, addr, READ_SIZE);
            && Allowed(Right, h, s, cmd, Cursor(at, false)) == (at + READ_SIZE < BUF_MAX)
            && Moved(h, s, cmd, Cursor(at, false)) == Cursor(at + READ_SIZE + 1, false)
            && !Overflows(h, s, cmd, at)
  {
    var cmd := Mrd(0, addr, READ_SIZE);
    ReadReply(h, s, addr);
    hide Execute, Head, Body, Written;
    if at + READ_SIZE >= BUF_MAX {
      assert Missed(h, s, cmd, Cursor(at, false), READ_SIZE);
    }
  }

  /** One read of a batch. */
  lemma ReadStep<D>(h: Handlers<D>, s: Session<D>, mem: seq<byte>, at: nat, addr: nat, rest: seq<byte>)
    requires h.features.server == Mem && h.features.mrd && addr < TWO64 && |mem| == REPLY_CAPACITY
    requires at + READ_SIZE + 1 <= REPLY_CAPACITY
    ensures var m, cmd := MrdPacket(addr, READ_SIZE), Mrd(0, addr, READ_SIZE);
            var t, view := Execute(h, s, cmd).session, m + rest;
            && BatchOf(h, s, at, view) == Behind(BatchOf(h, t, at + READ_SIZE + 1, rest), |m|)
            && at + |Written(h, s, cmd)| <= |mem|
            && BatchMem(h, s, mem, at, view)
               == BatchMem(h, t, After(h, s, cmd, mem, at), at + READ_SIZE + 1, rest)
            && BatchFits(Right, h, s, Cursor(at, false), view)
               == (at + READ_SIZE < BUF_MAX && BatchFits(Right, h, t, Cursor(at + READ_SIZE + 1, false), rest))
  {
    MrdReads(h.features, addr, READ_SIZE, rest);
    ReadAllowed(h, s, addr, at);
    ReadReply(h, s, addr);
    hide NextFrame, NextCommand, Execute, MrdPacket, Head, Body, Written, Allowed, Moved, After;
    BatchStep(h, s, mem, at, MrdPacket(addr, READ_SIZE) + rest);
  }

  lemma NoRead<D>(h: Handlers<D>, s: Session<D>, mem: seq<byte>, c: Cursor)
    requires |mem| == REPLY_CAPACITY
    ensures BatchOf(h, s, c.at, []) == Batch(NeedFill, 0, s, c.at) && BatchMem(h, s, mem, c.at, []) == mem
    ensures BatchFits(Right, h, s, c, [])
  {
    NothingThere(h.features);
  }

  /** A read leaves the status byte out that falls behind max_packet_len. */
  lemma StatusLeftOut<D>(h: Handlers<D>, s: Session<D>, mem: seq<byte>, at: nat, addr: nat, k: nat)
    requires at + READ_SIZE + 1 <= REPLY_CAPACITY == |mem| && BUF_MAX <= k < REPLY_CAPACITY && k >= at + READ_SIZE
    ensures at + |Written(h, s, Mrd(0, addr, READ_SIZE))| <= |mem|
    ensures After(h, s, Mrd(0, addr, READ_SIZE), mem, at)[k] == mem[k]
  {
    ReadReply(h, s, addr);
    hide Execute, Head, Body, Written;
  }

  /** A batch of one read, and of two; the second status is left out. */
  lemma ReadBatches<D>(h: Handlers<D>, s: Session<D>, mem: seq<byte>, addr: nat)
    requires h.features.server == Mem && h.features.mrd && addr < TWO64 && |mem| == REPLY_CAPACITY
    ensures var m, cmd := MrdPacket(addr, READ_SIZE), Mrd(0, addr, READ_SIZE);
            var t := Execute(h, s, cmd).session;
            && BatchOf(h, s, 0, m) == Batch(NeedFill, |m|, t, READ_SIZE + 1)
            && BatchOf(h, s, 0, m + m) == Batch(NeedFill, |m + m|, Execute(h, t, cmd).session, 2 * READ_SIZE + 2)
            && BatchMem(h, s, mem, 0, m + m)[2 * READ_SIZE + 1] == mem[2 * READ_SIZE + 1]
            && BatchFits(Right, h, s, Cursor(0, false), m) && !BatchFits(Right, h, s, Cursor(0, false), m + m)
  {
    hide BatchOf, BatchMem, BatchFits, Execute, MrdPacket, Written, After;
    var m, cmd := MrdPacket(addr, READ_SIZE), Mrd(0, addr, READ_SIZE);
    var t := Execute(h, s, cmd).session;
    assert m + [] == m;
    ReadStep(h, s, mem, 0, addr, []);
    ReadStep(h, s, mem, 0, addr, m);
    var one := After(h, s, cmd, mem, 0);
    ReadStep(h, t, one, READ_SIZE + 1, addr, []);
    NoRead(h, t, one, Cursor(READ_SIZE + 1, false));
    NoRead(h, Execute(h, t, cmd).session, After(h, t, cmd, one, READ_SIZE + 1), Cursor(2 * READ_SIZE + 2, false));
    StatusLeftOut(h, s, mem, 0, addr, 2 * READ_SIZE + 1);
    StatusLeftOut(h, t, one, READ_SIZE + 1, addr, 2 * READ_SIZE + 1);
  }

  /** Received together, the second status byte of two reads of 6000 bytes is left out; received one
      at a time every byte is stored. */
  lemma TwoReads<D>(h: Handlers<D>, s: Session<D>, addr: nat)
    requires h.features.server == Mem && h.features.mrd && addr < TWO64
    ensures var m := MrdPacket(addr, READ_SIZE);
            && Conforming(h.features, m + m) && !Fitting(Right, h, s, m + m)
            && Outgrows(Right, h, s, [], m + m, []) && !Outgrows(Right, h, s, [], m + m, [|m|])
            && !Outgrows(Limit(REPLY_CAPACITY), h, s, [], m + m, [])
  {
    var m, mem := MrdPacket(addr, READ_SIZE), Zeros(REPLY_CAPACITY);
    MrdSize(addr);
    MrdConforms(h.features, addr);
    hide Conforming, MrdPacket, BatchOf, BatchMem, BatchFits, Outgrows, Execute, Fitting, Transmit;
    ReadBatches(h, s, mem, addr);
    NothingBuffered(Right, h, s, mem, m + m, []);
    NothingBuffered(Limit(REPLY_CAPACITY), h, s, mem, m + m, []);
    assert (m + m)[..|m + m|] == m + m && (m + m)[|m + m|..] == [];
    OutgrowsStep(Right, h, s, m + m, [], []);
    OutgrowsStep(Limit(REPLY_CAPACITY), h, s, m + m, [], []);
    LimitOfBatch(REPLY_CAPACITY, h, s, Cursor(0, false), m + m);
    CuttingsFit(Right, h, s, m + m);
    OneAtATime(h, s, addr, m);
  }

  lemma OneAtATime<D>(h: Handlers<D>, s: Session<D>, addr: nat, m: seq<byte>)
    requires h.features.server == Mem && h.features.mrd && addr < TWO64
    requires m == MrdPacket(addr, READ_SIZE) && 0 < |m| <= 30
    ensures !Outgrows(Right, h, s, [], m + m, [|m|])
  {
    hide MrdPacket, BatchOf, BatchMem, BatchFits, Outgrows, Execute, Transmit;
    var t, mem := Execute(h, s, Mrd(0, addr, READ_SIZE)).session, Zeros(REPLY_CAPACITY);
    ReadBatches(h, s, mem, addr);
    ReadBatches(h, t, mem, addr);
    NothingBuffered(Right, h, s, mem, m + m, [|m|]);
    assert (m + m)[..|m|] == m && (m + m)[|m|..] == m;
    OutgrowsStep(Right, h, s, m, m, []);
    assert m[|m|..] == [] && m[..|m|] == m && [] + m == m;
    assert Piece([], m, []) == |m| && Piece([], m + m, [|m|]) == |m|;
    OutgrowsStep(Right, h, t, m, [], []);
    assert NextCuts([|m|]) == [];
  }

  lemma MrdConforms(f: Features, addr: nat)
    requires f.server == Mem && f.mrd && addr < TWO64
    ensures var m := MrdPacket(addr, READ_SIZE); Conforming(f, m + m)
  {
    var m := MrdPacket(addr, READ_SIZE);
    hide NextFrame, MrdPacket, RegularFrame, Conforming;
    NothingConforms(f);
    assert m + [] == m;
    ReadConforms(f, addr, []);
    ReadConforms(f, addr, m);
  }

  lemma ReadConforms(f: Features, addr: nat, rest: seq<byte>)
    requires f.server == Mem && f.mrd && addr < TWO64 && Conforming(f, rest)
    ensures Conforming(f, MrdPacket(addr, READ_SIZE) + rest)
  {
    hide NextFrame, MrdPacket, RegularFrame;
    MrdSize(addr);
    MrdReads(f, addr, READ_SIZE, rest);
  }

  lemma NothingConforms(f: Features)
    ensures Conforming(f, [])
  {
    NoInfo(f);
  }

  lemma AllAtOnce(stream: seq<byte>)
    requires 0 < |stream| <= BUF_MAX
    ensures Piece([], stream, []) == |stream| && NextCuts([]) == []
    ensures stream[..|stream|] == stream && stream[|stream|..] == []
  {
  }

  /** What is sent for two reads received together. */
  lemma TwoReadsSent<D>(h: Handlers<D>, s: Session<D>, mem: seq<byte>, addr: nat)
    requires h.features.server == Mem && h.features.mrd && addr < TWO64 && |mem| == REPLY_CAPACITY
    ensures var m := MrdPacket(addr, READ_SIZE);
            var sent := Transmit(h, s, mem, [], m + m, []);
            |sent| == 2 * READ_SIZE + 2 && sent[2 * READ_SIZE + 1] == mem[2 * READ_SIZE + 1]
  {
    var m := MrdPacket(addr, READ_SIZE);
    MrdSize(addr);
    hide MrdPacket, BatchOf, BatchMem, BatchFits, Transmit, Execute, Outgrows, Piece, NextCuts;
    ReadBatches(h, s, mem, addr);
    NothingBuffered(Right, h, s, mem, m + m, []);
    AllAtOnce(m + m);
    TransmitStep(h, s, mem, m + m, [], []);
  }

  /** What ought to be sent ends with a status byte. */
  lemma TwoReadsRight<D>(h: Handlers<D>, s: Session<D>, addr: nat)
    requires h.features.server == Mem && h.features.mrd && addr < TWO64
    ensures var m, cmd := MrdPacket(addr, READ_SIZE), Mrd(0, addr, READ_SIZE);
            var last := Execute(h, Execute(h, s, cmd).session, cmd).session;
            var r := Run(h, Progress(s, [], [], []), m + m);
            && r.progress.session == last && r.ending == Waiting && |r.progress.reply| == 2 * READ_SIZE + 2
            && r.progress.reply[2 * READ_SIZE + 1] == StatusByte(last.client)
  {
    hide NextFrame, NextCommand, Execute, MrdPacket, StatusByte, Head, Body, Written, Advance, Run;
    var m, cmd, p := MrdPacket(addr, READ_SIZE), Mrd(0, addr, READ_SIZE), Progress(s, [], [], []);
    var q := Advance(h, p, cmd);
    assert m + [] == m;
    RunRead(h, p, addr, m);
    RunRead(h, q, addr, []);
    NothingRun(h, Advance(h, q, cmd));
    AdvanceParts(h, p, cmd);
    AdvanceParts(h, q, cmd);
    ReadReply(h, s, addr);
    ReadReply(h, q.session, addr);
  }

  lemma RunRead<D>(h: Handlers<D>, p: Progress<D>, addr: nat, rest: seq<byte>)
    requires h.features.server == Mem && h.features.mrd && addr < TWO64
    ensures Run(h, p, MrdPacket(addr, READ_SIZE) + rest) == Run(h, Advance(h, p, Mrd(0, addr, READ_SIZE)), rest)
  {
    hide NextFrame, NextCommand, MrdPacket, Advance;
    MrdReads(h.features, addr, READ_SIZE, rest);
  }

  lemma NothingRun<D>(h: Handlers<D>, p: Progress<D>)
    ensures Run(h, p, []) == Final(p, Waiting, [])
  {
    NothingThere(h.features);
  }

  /** A connection that gets two such reads together and is then closed: the second status byte sent
      is what the reply buffer held, where it ought to be the status. */
  method StaleStatus<D>(handlers: Handlers<D>, dev: D, addr: nat, stale: byte)
    returns (c: XvcClient<D>, outcome: Outcome)
    requires handlers.features.server == Mem && handlers.features.mrd && addr < TWO64
    ensures c.Valid() && outcome == Closed
    ensures var m := MrdPacket(addr, READ_SIZE);
            var r := Run(handlers, Progress(Fresh(dev), [], [], []), m + m);
            && |SentOf(c.trace)| == |r.progress.reply| == 2 * READ_SIZE + 2
            && SentOf(c.trace)[2 * READ_SIZE + 1] == stale
            && r.progress.reply[2 * READ_SIZE + 1] == StatusByte(c.TheClient())
  {
    hide MrdPacket, Conforming, Run, Transmit, Outgrows, Fitting, Execute, SentOf, CallsOf, LockPointsOf;
    var m := MrdPacket(addr, READ_SIZE);
    TwoReads(handlers, Fresh(dev), addr);
    TwoReadsSent(handlers, Fresh(dev), seq(REPLY_CAPACITY, i => stale), addr);
    TwoReadsRight(handlers, Fresh(dev), addr);
    c, outcome := Serve(handlers, dev, m + m, [], stale);
  }

  // ---------------------------------------------------------------- long replies that are right

  function InfoPackets(n: nat): (s: seq<byte>)
    ensures |s| == 8 * n
  {
    if n == 0 then [] else WireForm(GetInfo) + InfoPackets(n - 1)
  }

  lemma InfoReads(f: Features, n: nat)
    requires n > 0
    ensures var s := InfoPackets(n);
            && NextFrame(f, s) == Packet(KGetInfo, 8) && RegularFrame(f, s)
            && NextCommand(f, s) == GetInfo && s[8..] == InfoPackets(n - 1)
  {
    WireFormReads(f, GetInfo, InfoPackets(n - 1));
    KeptWhole(GetInfo);
  }

  lemma InfoAllowed<D>(h: Handlers<D>, s: Session<D>, c: Cursor)
    requires c.at + 22 <= REPLY_CAPACITY && |s.client.pendingError| <= ERROR_MAX
    ensures Allowed(Right, h, s, GetInfo, c) && Moved(h, s, GetInfo, c) == Cursor(c.at + 21, true)
    ensures Execute(h, s, GetInfo).session == s
  {
    ShortTexts(h, s);
    InfoWhole(h, s, GetInfo);
    hide InfoText;
  }

  lemma NoInfo(f: Features)
    ensures InfoPackets(0) == [] && NextFrame(f, []) == Fill && RegularFrame(f, [])
  {
  }

  lemma {:induction false} InfoConforms(f: Features, n: nat)
    ensures Conforming(f, InfoPackets(n))
  {
    hide NextFrame, RegularFrame, InfoPackets;
    if n == 0 {
      NoInfo(f);
    } else {
      InfoConforms(f, n - 1);
      InfoReads(f, n);
    }
  }

  lemma {:induction false} InfoWindow<D>(h: Handlers<D>, s: Session<D>, n: nat, room: nat, c: Cursor)
    requires c.at + 21 * n + 1 <= REPLY_CAPACITY && |s.client.pendingError| <= ERROR_MAX
    ensures WindowFits(Right, h, s, InfoPackets(n), room, c)
  {
    hide NextFrame, NextCommand, RegularFrame, Allowed, Moved, Execute, InfoPackets;
    if n == 0 {
      NoInfo(h.features);
    } else {
      InfoReads(h.features, n);
      InfoAllowed(h, s, c);
      InfoWindow(h, s, n - 1, if room < 8 then 0 else room - 8, Cursor(c.at + 21, true));
    }
  }

  lemma {:induction false} InfoPasses<D>(h: Handlers<D>, s: Session<D>, n: nat, room: nat, c: Cursor)
    requires c.at <= BUF_MAX < c.at + 21 * n && c.at + 21 * n + 1 <= REPLY_CAPACITY && 8 * n <= room
    requires |s.client.pendingError| <= ERROR_MAX
    ensures !WindowFits(Limit(BUF_MAX), h, s, InfoPackets(n), room, c)
  {
    hide NextFrame, NextCommand, RegularFrame, Allowed, Moved, Execute, InfoPackets;
    InfoReads(h.features, n);
    InfoAllowed(h, s, c);
    PassesAt(h, s, c);
    if c.at + 21 <= BUF_MAX {
      InfoPasses(h, s, n - 1, room - 8, Cursor(c.at + 21, true));
    }
  }

  lemma PassesAt<D>(h: Handlers<D>, s: Session<D>, c: Cursor)
    requires Moved(h, s, GetInfo, c) == Cursor(c.at + 21, true)
    ensures Allowed(Limit(BUF_MAX), h, s, GetInfo, c) ==> c.at + 21 <= BUF_MAX
  {
    hide Execute;
  }

  lemma {:induction false} InfoFits<D>(h: Handlers<D>, s: Session<D>, n: nat)
    requires 21 * n + 1 <= REPLY_CAPACITY && |s.client.pendingError| <= ERROR_MAX
    ensures Fitting(Right, h, s, InfoPackets(n))
  {
    hide NextFrame, NextCommand, RegularFrame, Allowed, Moved, WindowFits, Execute, InfoPackets;
    InfoWindow(h, s, n, BUF_MAX, Cursor(0, false));
    if n == 0 {
      NoInfo(h.features);
    } else {
      InfoReads(h.features, n);
      InfoAllowed(h, s, Cursor(0, false));
      InfoFits(h, s, n - 1);
      FirstFits(h, s, InfoPackets(n));
    }
  }

  lemma FirstFits<D>(h: Handlers<D>, s: Session<D>, stream: seq<byte>)
    requires WindowFits(Right, h, s, stream, BUF_MAX, Cursor(0, false)) && NextFrame(h.features, stream).Packet?
    requires Fitting(Right, h, Execute(h, s, NextCommand(h.features, stream)).session,
                     stream[NextFrame(h.features, stream).end..])
    ensures Fitting(Right, h, s, stream)
  {
    hide NextFrame, NextCommand, WindowFits, Execute;
  }

  /** The texts of 477 to 780 getinfo: packets pass max_packet_len together, and all their bytes are
      right however the packets arrive. */
  lemma TextsStayRight<D>(h: Handlers<D>, s: Session<D>, n: nat)
    requires 477 <= n <= 780 && |s.client.pendingError| <= ERROR_MAX
    ensures var stream := InfoPackets(n);
            && Conforming(h.features, stream) && Fitting(Right, h, s, stream)
            && !Fitting(Limit(BUF_MAX), h, s, stream)
  {
    InfoConforms(h.features, n);
    hide Conforming, WindowFits, InfoPackets;
    InfoFits(h, s, n);
    InfoPasses(h, s, n, BUF_MAX, Cursor(0, false));
  }
}
