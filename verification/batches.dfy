/** Batches: which packets the engine answers together, what it then sends, and which streams are
    answered rightly however they are cut. */
module Batches {
  import opened Bytes
  import opened Framing
  import opened Configure
  import opened Session
  import opened Laws
  import opened ReplyBuffer

  datatype Step = Done | NeedFill | Deferred | Failed | Overflow

  /** How a batch ends: why, after how many bytes, in which state, and where the reply cursor is. */
  datatype Batch<D> = Batch(stop: Step, used: nat, session: Session<D>, length: nat)

  function Behind<D>(b: Batch<D>, n: nat): Batch<D> {
    b.(used := n + b.used)
  }

  /** A packet waits for the replies before it to be sent. */
  predicate Waits(cmd: Command, pending: nat) {
    cmd.Lock? && pending > 0
  }

  /** A packet would be answered past the end of the reply buffer. */
  predicate Overflows<D>(h: Handlers<D>, s: Session<D>, cmd: Command, pending: nat) {
    pending + |Written(h, s, cmd)| > REPLY_CAPACITY
  }

  /** The batch that the engine makes of the bytes in its buffer, with some reply bytes pending. */
  function BatchOf<D>(h: Handlers<D>, s: Session<D>, pending: nat, view: seq<byte>): (b: Batch<D>)
    ensures b.used <= |view| && b.stop != Done && b.length >= pending
    ensures b.used == 0 ==> b.length == pending
    ensures b.stop == Deferred ==> b.used < |view|
    ensures b.stop == Deferred && pending == 0 ==> b.used > 0
    ensures pending <= REPLY_CAPACITY ==> b.length <= REPLY_CAPACITY
    decreases |view|
  {
    match NextFrame(h.features, view)
    case Fill => Batch(NeedFill, 0, s, pending)
    case Malformed => Batch(Failed, 0, s, pending)
    case Oversized => Batch(Failed, 0, s, pending)
    case Packet(_, end) =>
      var cmd := NextCommand(h.features, view);
      var e := Execute(h, s, cmd);
      if Waits(cmd, pending) then Batch(Deferred, 0, s, pending)
      else if Overflows(h, s, cmd, pending) then Batch(Overflow, 0, s, pending)
      else Behind(BatchOf(h, e.session, pending + |e.reply|, view[end..]), end)
  }

  /** The reply buffer after that batch. */
  function BatchMem<D>(h: Handlers<D>, s: Session<D>, mem: seq<byte>, pending: nat, view: seq<byte>): (r: seq<byte>)
    requires |mem| == REPLY_CAPACITY
    ensures |r| == REPLY_CAPACITY
    decreases |view|
  {
    match NextFrame(h.features, view)
    case Packet(_, end) =>
      var cmd := NextCommand(h.features, view);
      var e := Execute(h, s, cmd);
      if Waits(cmd, pending) || Overflows(h, s, cmd, pending) then mem
      else BatchMem(h, e.session, After(h, s, cmd, mem, pending), pending + |e.reply|, view[end..])
    case _ => mem
  }

  /** What the batch ought to be answered. */
  function BatchReply<D>(h: Handlers<D>, s: Session<D>, pending: nat, view: seq<byte>): seq<byte>
    decreases |view|
  {
    match NextFrame(h.features, view)
    case Packet(_, end) =>
      var cmd := NextCommand(h.features, view);
      var e := Execute(h, s, cmd);
      if Waits(cmd, pending) || Overflows(h, s, cmd, pending) then []
      else e.reply + BatchReply(h, e.session, pending + |e.reply|, view[end..])
    case _ => []
  }

  lemma {:induction false} ReplyLength<D>(h: Handlers<D>, s: Session<D>, pending: nat, view: seq<byte>)
    ensures pending + |BatchReply(h, s, pending, view)| == BatchOf(h, s, pending, view).length
    decreases |view|
  {
    hide Execute, NextCommand, NextFrame, Overflows;
    match NextFrame(h.features, view)
    case Packet(_, end) =>
      var cmd := NextCommand(h.features, view);
      var e := Execute(h, s, cmd);
      if !Waits(cmd, pending) && !Overflows(h, s, cmd, pending) {
        ReplyLength(h, e.session, pending + |e.reply|, view[end..]);
      }
    case _ =>
  }

  /** How a batch starts. */
  lemma BatchStep<D>(h: Handlers<D>, s: Session<D>, mem: seq<byte>, pending: nat, view: seq<byte>)
    requires |mem| == REPLY_CAPACITY
    ensures var b := BatchOf(h, s, pending, view);
            match NextFrame(h.features, view)
            case Fill => b == Batch(NeedFill, 0, s, pending) && BatchMem(h, s, mem, pending, view) == mem
            case Packet(_, end) =>
              var cmd := NextCommand(h.features, view);
              var e := Execute(h, s, cmd);
              if Waits(cmd, pending) then
                b == Batch(Deferred, 0, s, pending) && BatchMem(h, s, mem, pending, view) == mem
              else if Overflows(h, s, cmd, pending) then
                b == Batch(Overflow, 0, s, pending) && BatchMem(h, s, mem, pending, view) == mem
              else
                && b == Behind(BatchOf(h, e.session, pending + |e.reply|, view[end..]), end)
                && BatchMem(h, s, mem, pending, view)
                   == BatchMem(h, e.session, After(h, s, cmd, mem, pending), pending + |e.reply|, view[end..])
            case _ => b == Batch(Failed, 0, s, pending) && BatchMem(h, s, mem, pending, view) == mem
  {
    hide NextFrame, NextCommand, Execute, After;
  }

  /** The bytes the next receive delivers: at least one, at most the room, and as many as the
      network offers. */
  function Piece(view: seq<byte>, unread: seq<byte>, cuts: seq<nat>): (n: nat)
    requires |view| < BUF_MAX
    ensures n <= |unread| && |view| + n <= BUF_MAX && (n == 0 <==> unread == [])
  {
    var room := BUF_MAX - |view|;
    var n := if |unread| < room then |unread| else room;
    if cuts == [] then n
    else
      var want := if cuts[0] == 0 then 1 else cuts[0];
      if want < n then want else n
  }

  function NextCuts(cuts: seq<nat>): seq<nat> {
    if cuts == [] then [] else cuts[1..]
  }

  // ---------------------------------------------------------------- whole connections

  /** Everything sent over a connection, given the reply buffer, the bytes received and to come, and
      the way they are cut. */
  function Transmit<D>(
    h: Handlers<D>, s: Session<D>, mem: seq<byte>, view: seq<byte>, unread: seq<byte>, cuts: seq<nat>): seq<byte>
    requires |mem| == REPLY_CAPACITY
    decreases |unread|, |view|
  {
    var b, m := BatchOf(h, s, 0, view), BatchMem(h, s, mem, 0, view);
    var rest := view[b.used..];
    match b.stop
    case Deferred => m[..b.length] + Transmit(h, b.session, m, rest, unread, cuts)
    case NeedFill =>
      m[..b.length]
      + if unread == [] || |rest| >= BUF_MAX then []
        else
          var n := Piece(rest, unread, cuts);
          Transmit(h, b.session, m, rest + unread[..n], unread[n..], NextCuts(cuts))
    case _ => []
  }

  /** What is sent of a batch, and what happens then. */
  lemma TransmitStep<D>(
    h: Handlers<D>, s: Session<D>, mem: seq<byte>, view: seq<byte>, unread: seq<byte>, cuts: seq<nat>)
    requires |mem| == REPLY_CAPACITY
    ensures var b, m := BatchOf(h, s, 0, view), BatchMem(h, s, mem, 0, view);
            var rest, all := view[b.used..], Transmit(h, s, mem, view, unread, cuts);
            && (b.stop == Failed || b.stop == Overflow ==> all == [])
            && (b.stop == Deferred ==> all == m[..b.length] + Transmit(h, b.session, m, rest, unread, cuts))
            && (b.stop == NeedFill && (unread == [] || |rest| >= BUF_MAX) ==> all == m[..b.length])
            && (b.stop == NeedFill && unread != [] && |rest| < BUF_MAX ==>
                  var n := Piece(rest, unread, cuts);
                  all == m[..b.length]
                         + Transmit(h, b.session, m, rest + unread[..n], unread[n..], NextCuts(cuts)))
  {
    hide BatchOf, BatchMem;
    var b, m := BatchOf(h, s, 0, view), BatchMem(h, s, mem, 0, view);
    assert m[..b.length] + [] == m[..b.length];
  }

  lemma OutgrowsStep<D>(
    t: Criterion, h: Handlers<D>, s: Session<D>, view: seq<byte>, unread: seq<byte>, cuts: seq<nat>)
    ensures var b := BatchOf(h, s, 0, view);
            var rest := view[b.used..];
            Outgrows(t, h, s, view, unread, cuts)
            == (!BatchFits(t, h, s, Cursor(0, false), view)
                || (b.stop == Deferred && Outgrows(t, h, b.session, rest, unread, cuts))
                || (b.stop == NeedFill && unread != [] && |rest| < BUF_MAX
                    && var n := Piece(rest, unread, cuts);
                       Outgrows(t, h, b.session, rest + unread[..n], unread[n..], NextCuts(cuts))))
  {
    hide BatchOf, BatchFits;
  }

  // ---------------------------------------------------------------- conditions on streams

  /** What is asked of every reply: that the replies of its batch so far have no more than n bytes, or
      that each of its bytes is stored or there already. */
  datatype Criterion = Limit(n: nat) | Right

  /** A packet is answered as asked, and inside the reply buffer. */
  predicate Allowed<D>(t: Criterion, h: Handlers<D>, s: Session<D>, cmd: Command, c: Cursor) {
    && !Overflows(h, s, cmd, c.at)
    && match t
       case Limit(n) => c.at + |Execute(h, s, cmd).reply| <= n
       case Right => !Misses(h, s, cmd, c)
  }

  /** All packets of a batch are. */
  predicate BatchFits<D>(t: Criterion, h: Handlers<D>, s: Session<D>, c: Cursor, view: seq<byte>)
    decreases |view|
  {
    match NextFrame(h.features, view)
    case Packet(_, end) =>
      var cmd := NextCommand(h.features, view);
      !Waits(cmd, c.at) ==>
        && Allowed(t, h, s, cmd, c)
        && BatchFits(t, h, Execute(h, s, cmd).session, Moved(h, s, cmd, c), view[end..])
    case _ => true
  }

  /** Whether some batch of a connection has a packet that is not. */
  predicate Outgrows<D>(
    t: Criterion, h: Handlers<D>, s: Session<D>, view: seq<byte>, unread: seq<byte>, cuts: seq<nat>)
    decreases |unread|, |view|
  {
    var b := BatchOf(h, s, 0, view);
    var rest := view[b.used..];
    || !BatchFits(t, h, s, Cursor(0, false), view)
    || (b.stop == Deferred && Outgrows(t, h, b.session, rest, unread, cuts))
    || (b.stop == NeedFill && unread != [] && |rest| < BUF_MAX
        && var n := Piece(rest, unread, cuts);
           Outgrows(t, h, b.session, rest + unread[..n], unread[n..], NextCuts(cuts)))
  }

  /** The packets at the head of a stream that lie in room bytes, up to a lock: that has to wait, are
      answered as asked. */
  predicate WindowFits<D>(
    t: Criterion, h: Handlers<D>, s: Session<D>, stream: seq<byte>, room: nat, c: Cursor)
    decreases |stream|
  {
    match NextFrame(h.features, stream)
    case Packet(_, end) =>
      var cmd := NextCommand(h.features, stream);
      end <= room && !Waits(cmd, c.at) ==>
        && Allowed(t, h, s, cmd, c)
        && WindowFits(t, h, Execute(h, s, cmd).session, stream[end..], room - end, Moved(h, s, cmd, c))
    case _ => true
  }

  /** From every packet of a stream on, the packets that can be in the buffer together are answered as
      asked when they are. */
  predicate Fitting<D>(t: Criterion, h: Handlers<D>, s: Session<D>, stream: seq<byte>)
    decreases |stream|
  {
    && WindowFits(t, h, s, stream, BUF_MAX, Cursor(0, false))
    && match NextFrame(h.features, stream)
       case Packet(_, end) =>
         Fitting(t, h, Execute(h, s, NextCommand(h.features, stream)).session, stream[end..])
       case _ => true
  }

  /** For a limit the criterion is about the length of the batch. */
  lemma {:induction false} LimitOfBatch<D>(n: nat, h: Handlers<D>, s: Session<D>, c: Cursor, view: seq<byte>)
    requires c.at <= n <= REPLY_CAPACITY
    ensures var b := BatchOf(h, s, c.at, view);
            BatchFits(Limit(n), h, s, c, view) <==> b.length <= n && b.stop != Overflow
    decreases |view|
  {
    hide Execute, NextCommand, NextFrame, Overflows;
    match NextFrame(h.features, view)
    case Packet(_, end) =>
      var cmd := NextCommand(h.features, view);
      var next := Moved(h, s, cmd, c);
      if !Waits(cmd, c.at) && Allowed(Limit(n), h, s, cmd, c) {
        LimitOfBatch(n, h, Execute(h, s, cmd).session, next, view[end..]);
      }
    case _ =>
  }

  /** A batch inside a window that fits, fits. */
  lemma {:induction false} BatchWithin<D>(
    t: Criterion, h: Handlers<D>, s: Session<D>, c: Cursor, view: seq<byte>, unread: seq<byte>, room: nat)
    requires WindowFits(t, h, s, view + unread, room, c) && |view| <= room
    ensures BatchFits(t, h, s, c, view)
    decreases |view|
  {
    hide Execute, NextCommand, NextFrame, Allowed, Moved;
    match NextFrame(h.features, view)
    case Packet(_, end) =>
      CommandExtend(h.features, view, unread);
      var cmd := NextCommand(h.features, view);
      if !Waits(cmd, c.at) {
        assert (view + unread)[end..] == view[end..] + unread;
        BatchWithin(t, h, Execute(h, s, cmd).session, Moved(h, s, cmd, c), view[end..], unread, room - end);
      }
    case _ =>
  }

  /** What follows a batch of a fitting stream is fitting. */
  lemma {:induction false} FittingBehind<D>(
    t: Criterion, h: Handlers<D>, s: Session<D>, pending: nat, view: seq<byte>, unread: seq<byte>)
    requires Fitting(t, h, s, view + unread)
    ensures var b := BatchOf(h, s, pending, view);
            Fitting(t, h, b.session, view[b.used..] + unread)
    decreases |view|
  {
    hide Execute, NextCommand, NextFrame, WindowFits, Overflows;
    assert view[0..] == view;
    match NextFrame(h.features, view)
    case Packet(_, end) =>
      CommandExtend(h.features, view, unread);
      var e := Execute(h, s, NextCommand(h.features, view));
      assert (view + unread)[end..] == view[end..] + unread;
      FittingBehind(t, h, e.session, pending + |e.reply|, view[end..], unread);
      var b := BatchOf(h, e.session, pending + |e.reply|, view[end..]);
      assert view[end..][b.used..] == view[end + b.used..];
    case _ =>
  }

  /** The next batch of a fitting stream. */
  lemma NextBatchFits<D>(t: Criterion, h: Handlers<D>, s: Session<D>, view: seq<byte>, unread: seq<byte>)
    requires Fitting(t, h, s, view + unread) && |view| <= BUF_MAX
    ensures BatchFits(t, h, s, Cursor(0, false), view)
    ensures var b := BatchOf(h, s, 0, view);
            Fitting(t, h, b.session, view[b.used..] + unread)
  {
    BatchWithin(t, h, s, Cursor(0, false), view, unread, BUF_MAX);
    hide BatchOf, Fitting, BatchFits;
    FittingBehind(t, h, s, 0, view, unread);
  }

  /** What one batch decides: what is still to be sent, and whether the reply buffer will be passed. */
  lemma TurnValue<D>(
    h: Handlers<D>, s: Session<D>, mem: seq<byte>, view: seq<byte>, unread: seq<byte>, cuts: seq<nat>)
    requires |mem| == REPLY_CAPACITY
    ensures var b, m := BatchOf(h, s, 0, view), BatchMem(h, s, mem, 0, view);
            var rest, now := view[b.used..], m[..b.length];
            var all, over := Transmit(h, s, mem, view, unread, cuts),
                             Outgrows(Limit(REPLY_CAPACITY), h, s, view, unread, cuts);
            match b.stop
            case Deferred =>
              && all == now + Transmit(h, b.session, m, rest, unread, cuts)
              && over == Outgrows(Limit(REPLY_CAPACITY), h, b.session, rest, unread, cuts)
            case NeedFill =>
              if unread == [] || |rest| >= BUF_MAX then all == now && !over
              else
                var n := Piece(rest, unread, cuts);
                && all == now + Transmit(h, b.session, m, rest + unread[..n], unread[n..], NextCuts(cuts))
                && over == Outgrows(Limit(REPLY_CAPACITY), h, b.session, rest + unread[..n], unread[n..],
                                    NextCuts(cuts))
            case _ => all == [] && (over <==> b.stop == Overflow)
  {
    hide BatchOf, BatchMem, BatchFits, Transmit, Outgrows, Piece, NextCuts;
    OutgrowsStep(Limit(REPLY_CAPACITY), h, s, view, unread, cuts);
    TransmitStep(h, s, mem, view, unread, cuts);
    LimitOfBatch(REPLY_CAPACITY, h, s, Cursor(0, false), view);
  }

  /** On a fitting stream every batch is answered as asked, in whatever state the connection is. */
  lemma {:induction false} FittingHolds<D>(
    t: Criterion, h: Handlers<D>, s: Session<D>, view: seq<byte>, unread: seq<byte>, cuts: seq<nat>)
    requires Fitting(t, h, s, view + unread) && |view| <= BUF_MAX
    ensures !Outgrows(t, h, s, view, unread, cuts)
    decreases |unread|, |view|
  {
    hide BatchOf, Fitting, BatchFits, Outgrows, Piece, NextCuts;
    NextBatchFits(t, h, s, view, unread);
    OutgrowsStep(t, h, s, view, unread, cuts);
    var b := BatchOf(h, s, 0, view);
    var rest := view[b.used..];
    if b.stop == Deferred {
      FittingHolds(t, h, b.session, rest, unread, cuts);
    } else if b.stop == NeedFill && unread != [] && |rest| < BUF_MAX {
      var n := Piece(rest, unread, cuts);
      var more := rest + unread[..n];
      assert rest + unread == more + unread[n..];
      FittingHolds(t, h, b.session, more, unread[n..], NextCuts(cuts));
    }
  }

  // ---------------------------------------------------------------- the worst way of cutting

  /** A complete packet that an accepted stream starts with is the one a long enough prefix starts with. */
  lemma PacketInPrefix(f: Features, stream: seq<byte>, n: nat)
    requires Conforming(f, stream) && NextFrame(f, stream).Packet?
    requires NextFrame(f, stream).end <= n <= |stream|
    ensures NextFrame(f, stream[..n]) == NextFrame(f, stream)
    ensures NextCommand(f, stream[..n]) == NextCommand(f, stream)
    ensures Conforming(f, stream[NextFrame(f, stream).end..])
    ensures NextFrame(f, stream).end <= BUF_MAX
  {
    hide NextFrame, NextCommand, RegularFrame;
    assert stream[..n] + stream[n..] == stream;
    FramePrefix(f, stream[..n], stream[n..]);
    CommandExtend(f, stream[..n], stream[n..]);
  }

  /** The end of the first packet of a window that is not answered as asked. */
  function WindowEnd<D>(t: Criterion, h: Handlers<D>, s: Session<D>, stream: seq<byte>, room: nat, c: Cursor): (n: nat)
    requires !WindowFits(t, h, s, stream, room, c)
    ensures 0 < n <= |stream| && n <= room
    decreases |stream|
  {
    hide Execute, NextCommand, NextFrame, Allowed, Moved;
    var end := NextFrame(h.features, stream).end;
    var cmd := NextCommand(h.features, stream);
    if !Allowed(t, h, s, cmd, c) then end
    else end + WindowEnd(t, h, Execute(h, s, cmd).session, stream[end..], room - end, Moved(h, s, cmd, c))
  }

  /** The packets up to that one, received together, are a batch that is not answered as asked. */
  lemma {:induction false} WindowBatch<D>(
    t: Criterion, h: Handlers<D>, s: Session<D>, stream: seq<byte>, room: nat, c: Cursor)
    requires Conforming(h.features, stream)
    ensures WindowFits(t, h, s, stream, room, c)
         || (var view := stream[..WindowEnd(t, h, s, stream, room, c)];
             var stop := BatchOf(h, s, c.at, view).stop;
             !BatchFits(t, h, s, c, view) && (stop == NeedFill || stop == Overflow))
    decreases |stream|
  {
    NothingThere(h.features);
    hide Execute, NextCommand, NextFrame, Conforming, Allowed, Moved, Overflows;
    if !WindowFits(t, h, s, stream, room, c) {
      var end, n := NextFrame(h.features, stream).end, WindowEnd(t, h, s, stream, room, c);
      PacketInPrefix(h.features, stream, n);
      var cmd := NextCommand(h.features, stream);
      AllowedInside(t, h, s, cmd, c);
      if Allowed(t, h, s, cmd, c) {
        assert stream[..n][end..] == stream[end..][..n - end];
        WindowBatch(t, h, Execute(h, s, cmd).session, stream[end..], room - end, Moved(h, s, cmd, c));
      } else {
        assert stream[..n][end..] == [];
      }
    }
  }

  lemma NothingThere(f: Features)
    ensures NextFrame(f, []) == Fill
  {
  }

  /** A connection starts with a receive. */
  lemma NothingBuffered<D>(
    t: Criterion, h: Handlers<D>, s: Session<D>, mem: seq<byte>, unread: seq<byte>, cuts: seq<nat>)
    requires unread != [] && |mem| == REPLY_CAPACITY
    ensures var n := Piece([], unread, cuts);
            && Outgrows(t, h, s, [], unread, cuts) == Outgrows(t, h, s, unread[..n], unread[n..], NextCuts(cuts))
            && Transmit(h, s, mem, [], unread, cuts) == Transmit(h, s, mem, unread[..n], unread[n..], NextCuts(cuts))
  {
    hide Execute, NextCommand;
    NothingThere(h.features);
    var n := Piece([], unread, cuts);
    assert [] + unread[..n] == unread[..n];
    assert mem[..0] == [];
    var sent := Transmit(h, s, mem, unread[..n], unread[n..], NextCuts(cuts));
    assert [] + sent == sent;
  }

  /** A packet received alone. */
  lemma BatchAlone<D>(h: Handlers<D>, s: Session<D>, mem: seq<byte>, view: seq<byte>)
    requires NextFrame(h.features, view).Packet? && NextFrame(h.features, view).end == |view|
    requires |mem| == REPLY_CAPACITY
    ensures var cmd := NextCommand(h.features, view);
            var e := Execute(h, s, cmd);
            !Overflows(h, s, cmd, 0) ==>
              && BatchOf(h, s, 0, view) == Batch(NeedFill, |view|, e.session, |e.reply|)
              && BatchMem(h, s, mem, 0, view) == After(h, s, cmd, mem, 0)
  {
    assert view[|view|..] == [];
    NothingThere(h.features);
    hide Execute, NextCommand, NextFrame, After;
  }

  /** The first packet of a stream received alone, and then the rest. */
  lemma FirstAlone<D>(
    t: Criterion, h: Handlers<D>, s: Session<D>, mem: seq<byte>, stream: seq<byte>, cuts: seq<nat>)
    requires Conforming(h.features, stream) && NextFrame(h.features, stream).Packet?
    requires NextFrame(h.features, stream).end < |stream| && |mem| == REPLY_CAPACITY
    requires !Overflows(h, s, NextCommand(h.features, stream), 0)
    ensures var end := NextFrame(h.features, stream).end;
            var cmd := NextCommand(h.features, stream);
            var e, m := Execute(h, s, cmd), After(h, s, cmd, mem, 0);
            && (Outgrows(t, h, e.session, [], stream[end..], cuts) ==> Outgrows(t, h, s, [], stream, [end] + cuts))
            && Transmit(h, s, mem, [], stream, [end] + cuts)
               == m[..|e.reply|] + Transmit(h, e.session, m, [], stream[end..], cuts)
  {
    hide BatchOf, BatchMem, Execute, NextCommand, NextFrame, Conforming, After, BatchFits;
    var end := NextFrame(h.features, stream).end;
    var cmd := NextCommand(h.features, stream);
    var e, m := Execute(h, s, cmd), After(h, s, cmd, mem, 0);
    PacketInPrefix(h.features, stream, end);
    assert Piece([], stream, [end] + cuts) == end && NextCuts([end] + cuts) == cuts;
    NothingBuffered(t, h, s, mem, stream, [end] + cuts);
    NothingBuffered(t, h, e.session, m, stream[end..], cuts);
    BatchAlone(h, s, mem, stream[..end]);
    assert stream[..end][end..] == [];
    var n := Piece([], stream[end..], cuts);
    assert [] + stream[end..][..n] == stream[end..][..n];
  }

  lemma EmptyWindow<D>(t: Criterion, h: Handlers<D>, s: Session<D>, room: nat, c: Cursor)
    ensures WindowFits(t, h, s, [], room, c) && Fitting(t, h, s, [])
  {
    NothingThere(h.features);
  }

  lemma FirstBatch<D>(
    t: Criterion, h: Handlers<D>, s: Session<D>, view: seq<byte>, unread: seq<byte>, cuts: seq<nat>)
    ensures !BatchFits(t, h, s, Cursor(0, false), view) ==> Outgrows(t, h, s, view, unread, cuts)
  {
    hide BatchOf, BatchFits;
  }

  lemma NotOverflowing<D>(t: Criterion, h: Handlers<D>, s: Session<D>, stream: seq<byte>)
    requires WindowFits(t, h, s, stream, BUF_MAX, Cursor(0, false)) && NextFrame(h.features, stream).Packet?
    requires NextFrame(h.features, stream).end <= BUF_MAX
    ensures Allowed(t, h, s, NextCommand(h.features, stream), Cursor(0, false))
  {
    hide Allowed, Moved, Execute, NextCommand, NextFrame;
  }

  /** A stream that is not fitting has a way of being cut in which some batch is not answered as asked:
      its packets one by one up to the window that does not fit, and that window at once. */
  lemma {:induction false} WorstCutting<D>(t: Criterion, h: Handlers<D>, s: Session<D>, stream: seq<byte>)
    returns (cuts: seq<nat>)
    requires Conforming(h.features, stream)
    ensures Fitting(t, h, s, stream) || Outgrows(t, h, s, [], stream, cuts)
    decreases |stream|
  {
    hide BatchOf, Execute, NextCommand, NextFrame, WindowFits, Conforming, Outgrows, BatchFits, Transmit, WindowEnd;
    hide Allowed, After;
    var start, mem := Cursor(0, false), Zeros(REPLY_CAPACITY);
    EmptyWindow(t, h, s, BUF_MAX, start);
    if Fitting(t, h, s, stream) {
      cuts := [];
    } else if !WindowFits(t, h, s, stream, BUF_MAX, start) {
      var n := WindowEnd(t, h, s, stream, BUF_MAX, start);
      cuts := [n];
      WindowBatch(t, h, s, stream, BUF_MAX, start);
      assert Piece([], stream, cuts) == n;
      NothingBuffered(t, h, s, mem, stream, cuts);
      FirstBatch(t, h, s, stream[..n], stream[n..], NextCuts(cuts));
    } else {
      var end := NextFrame(h.features, stream).end;
      var cmd := NextCommand(h.features, stream);
      PacketInPrefix(h.features, stream, end);
      NotOverflowing(t, h, s, stream);
      AllowedInside(t, h, s, cmd, start);
      EmptyWindow(t, h, Execute(h, s, cmd).session, BUF_MAX, start);
      var more := WorstCutting(t, h, Execute(h, s, cmd).session, stream[end..]);
      cuts := [end] + more;
      FirstAlone(t, h, s, mem, stream, more);
    }
  }

  lemma AllowedInside<D>(t: Criterion, h: Handlers<D>, s: Session<D>, cmd: Command, c: Cursor)
    ensures Allowed(t, h, s, cmd, c) ==> !Overflows(h, s, cmd, c.at)
    ensures Allowed(Right, h, s, cmd, c) ==> !Misses(h, s, cmd, c)
    ensures Moved(h, s, cmd, c).at == c.at + |Execute(h, s, cmd).reply|
  {
  }

  /** No way of cutting a stream has a batch that is not answered as asked if and only if the stream is
      fitting. */
  lemma CuttingsFit<D>(t: Criterion, h: Handlers<D>, s: Session<D>, stream: seq<byte>)
    requires Conforming(h.features, stream)
    ensures (forall cuts :: !Outgrows(t, h, s, [], stream, cuts)) <==> Fitting(t, h, s, stream)
  {
    hide Outgrows, Fitting, Conforming;
    if Fitting(t, h, s, stream) {
      assert [] + stream == stream;
      forall cuts
        ensures !Outgrows(t, h, s, [], stream, cuts)
      {
        FittingHolds(t, h, s, [], stream, cuts);
      }
    } else {
      var cuts := WorstCutting(t, h, s, stream);
    }
  }
}
