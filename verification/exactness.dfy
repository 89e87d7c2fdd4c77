/** When the bytes sent over a connection are those of the packet-at-a-time run: exactly on which
    streams, for every way of cutting them and whatever the reply buffer held before. */
module Exactness {
  import opened Bytes
  import opened Framing
  import opened Configure
  import opened Session
  import opened Laws
  import opened ReplyBuffer
  import opened Batches

  // ---------------------------------------------------------------- criteria compared

  /** Replies below max_packet_len are right, and right ones are inside the reply buffer. */
  predicate Implies(t: Criterion, u: Criterion) {
    || t == u
    || (t == Limit(BUF_MAX) && u == Right)
    || (t == Right && u == Limit(REPLY_CAPACITY))
  }

  lemma AllowedWeaker<D>(t: Criterion, u: Criterion, h: Handlers<D>, s: Session<D>, cmd: Command, c: Cursor)
    requires Implies(t, u) && Allowed(t, h, s, cmd, c)
    ensures Allowed(u, h, s, cmd, c)
  {
    hide Execute, Head, Body;
  }

  lemma {:induction false} WindowWeaker<D>(
    t: Criterion, u: Criterion, h: Handlers<D>, s: Session<D>, stream: seq<byte>, room: nat, c: Cursor)
    requires Implies(t, u) && WindowFits(t, h, s, stream, room, c)
    ensures WindowFits(u, h, s, stream, room, c)
    decreases |stream|
  {
    hide Execute, NextCommand, NextFrame, Allowed, Moved;
    match NextFrame(h.features, stream)
    case Packet(_, end) =>
      var cmd := NextCommand(h.features, stream);
      if end <= room && !Waits(cmd, c.at) {
        AllowedWeaker(t, u, h, s, cmd, c);
        WindowWeaker(t, u, h, Execute(h, s, cmd).session, stream[end..], room - end, Moved(h, s, cmd, c));
      }
    case _ =>
  }

  lemma {:induction false} FittingWeaker<D>(
    t: Criterion, u: Criterion, h: Handlers<D>, s: Session<D>, stream: seq<byte>)
    requires Implies(t, u) && Fitting(t, h, s, stream)
    ensures Fitting(u, h, s, stream)
    decreases |stream|
  {
    hide Execute, NextCommand, NextFrame, WindowFits;
    WindowWeaker(t, u, h, s, stream, BUF_MAX, Cursor(0, false));
    match NextFrame(h.features, stream)
    case Packet(_, end) =>
      FittingWeaker(t, u, h, Execute(h, s, NextCommand(h.features, stream)).session, stream[end..]);
    case _ =>
  }

  lemma {:induction false} LeanWindow<D>(h: Handlers<D>, s: Session<D>, stream: seq<byte>, room: nat, c: Cursor)
    requires LeanStream(h.features, stream) && c.at + room <= BUF_MAX
    ensures WindowFits(Limit(BUF_MAX), h, s, stream, room, c)
    decreases |stream|
  {
    hide Execute, NextCommand, NextFrame, LeanStream;
    match NextFrame(h.features, stream)
    case Packet(_, end) =>
      LeanTail(h.features, stream);
      LeanReply(h, s, stream);
      if end <= room {
        var cmd := NextCommand(h.features, stream);
        LeanWindow(h, Execute(h, s, cmd).session, stream[end..], room - end, Moved(h, s, cmd, c));
      }
    case _ =>
  }

  /** Replies that are no longer than their packets never pass max_packet_len. */
  lemma {:induction false} LeanFits<D>(h: Handlers<D>, s: Session<D>, stream: seq<byte>)
    requires LeanStream(h.features, stream)
    ensures Fitting(Limit(BUF_MAX), h, s, stream)
    decreases |stream|
  {
    hide Execute, NextCommand, NextFrame, LeanStream, WindowFits;
    LeanWindow(h, s, stream, BUF_MAX, Cursor(0, false));
    match NextFrame(h.features, stream)
    case Packet(_, end) =>
      LeanTail(h.features, stream);
      LeanFits(h, Execute(h, s, NextCommand(h.features, stream)).session, stream[end..]);
    case _ =>
  }

  // ---------------------------------------------------------------- what ought to be sent

  /** The replies of the packet-at-a-time run. */
  function Answered<D>(h: Handlers<D>, s: Session<D>, stream: seq<byte>): seq<byte>
    decreases |stream|
  {
    match NextFrame(h.features, stream)
    case Packet(_, end) =>
      var e := Execute(h, s, NextCommand(h.features, stream));
      e.reply + Answered(h, e.session, stream[end..])
    case _ => []
  }

  lemma {:induction false} AnsweredIsRun<D>(h: Handlers<D>, p: Progress<D>, stream: seq<byte>)
    ensures Run(h, p, stream).progress.reply == p.reply + Answered(h, p.session, stream)
    decreases |stream|
  {
    hide Execute, NextCommand, NextFrame;
    match NextFrame(h.features, stream)
    case Packet(_, end) =>
      var e := Execute(h, p.session, NextCommand(h.features, stream));
      AnsweredIsRun(h, Advance(h, p, NextCommand(h.features, stream)), stream[end..]);
      var more := Answered(h, e.session, stream[end..]);
      assert p.reply + e.reply + more == p.reply + (e.reply + more);
    case _ =>
      assert p.reply + [] == p.reply;
  }

  /** The replies of a batch come first. */
  lemma {:induction false} AnsweredBehind<D>(
    h: Handlers<D>, s: Session<D>, pending: nat, view: seq<byte>, unread: seq<byte>)
    ensures var b := BatchOf(h, s, pending, view);
            Answered(h, s, view + unread)
            == BatchReply(h, s, pending, view) + Answered(h, b.session, view[b.used..] + unread)
    decreases |view|
  {
    hide Execute, NextCommand, NextFrame, Overflows, Answered, BatchReply, BatchOf;
    BatchStep(h, s, Zeros(REPLY_CAPACITY), pending, view);
    ReplyStep(h, s, pending, view);
    assert view[0..] == view;
    Nothing(Answered(h, s, view + unread));
    match NextFrame(h.features, view)
    case Packet(_, end) =>
      var cmd := NextCommand(h.features, view);
      if !Waits(cmd, pending) && !Overflows(h, s, cmd, pending) {
        CommandExtend(h.features, view, unread);
        var e := Execute(h, s, cmd);
        assert (view + unread)[end..] == view[end..] + unread;
        var now, rest := pending + |e.reply|, view[end..];
        AnsweredBehind(h, e.session, now, rest, unread);
        AnsweredStep(h, s, view + unread);
        var b := BatchOf(h, e.session, now, rest);
        assert rest[b.used..] == view[end + b.used..];
        Regrouped(e.reply, BatchReply(h, e.session, now, rest), Answered(h, b.session, rest[b.used..] + unread));
      }
    case _ =>
  }

  lemma Nothing(a: seq<byte>)
    ensures [] + a == a
  {
  }

  lemma Regrouped(a: seq<byte>, b: seq<byte>, c: seq<byte>)
    ensures a + (b + c) == (a + b) + c
  {
  }

  lemma AnsweredStep<D>(h: Handlers<D>, s: Session<D>, stream: seq<byte>)
    ensures match NextFrame(h.features, stream)
            case Packet(_, end) =>
              var e := Execute(h, s, NextCommand(h.features, stream));
              Answered(h, s, stream) == e.reply + Answered(h, e.session, stream[end..])
            case _ => Answered(h, s, stream) == []
  {
    hide Execute, NextCommand, NextFrame;
  }

  lemma ReplyStep<D>(h: Handlers<D>, s: Session<D>, pending: nat, view: seq<byte>)
    ensures match NextFrame(h.features, view)
            case Packet(_, end) =>
              var cmd := NextCommand(h.features, view);
              var e := Execute(h, s, cmd);
              BatchReply(h, s, pending, view)
              == if Waits(cmd, pending) || Overflows(h, s, cmd, pending) then []
                 else e.reply + BatchReply(h, e.session, pending + |e.reply|, view[end..])
            case _ => BatchReply(h, s, pending, view) == []
  {
    hide Execute, NextCommand, NextFrame, Overflows;
  }

  // ---------------------------------------------------------------- fitting streams are sent rightly

  /** A batch in which no byte is missed holds the replies it ought to. */
  lemma {:induction false} BatchRight<D>(h: Handlers<D>, s: Session<D>, mem: seq<byte>, c: Cursor, view: seq<byte>)
    requires |mem| == REPLY_CAPACITY && c.at <= REPLY_CAPACITY && Terminated(mem, c)
    requires BatchFits(Right, h, s, c, view)
    ensures BatchMem(h, s, mem, c.at, view)[..BatchOf(h, s, c.at, view).length]
         == mem[..c.at] + BatchReply(h, s, c.at, view)
    ensures BatchOf(h, s, c.at, view).stop != Overflow
    decreases |view|
  {
    hide Execute, NextCommand, NextFrame, After, Misses, Terminated;
    assert mem[..c.at] + [] == mem[..c.at];
    match NextFrame(h.features, view)
    case Packet(_, end) =>
      var cmd := NextCommand(h.features, view);
      if !Waits(cmd, c.at) {
        var e, m, next := Execute(h, s, cmd), After(h, s, cmd, mem, c.at), Moved(h, s, cmd, c);
        StoredRight(h, s, cmd, mem, c);
        BatchRight(h, e.session, m, next, view[end..]);
        var more := BatchReply(h, e.session, next.at, view[end..]);
        assert mem[..c.at] + e.reply + more == mem[..c.at] + (e.reply + more);
      }
    case _ =>
  }

  /** The next batch of a fitting stream. */
  lemma NextBatchRight<D>(h: Handlers<D>, s: Session<D>, mem: seq<byte>, view: seq<byte>, unread: seq<byte>)
    requires Fitting(Right, h, s, view + unread) && |view| <= BUF_MAX && |mem| == REPLY_CAPACITY
    ensures var b, reply := BatchOf(h, s, 0, view), BatchReply(h, s, 0, view);
            && BatchMem(h, s, mem, 0, view)[..b.length] == reply
            && Fitting(Right, h, b.session, view[b.used..] + unread)
            && Answered(h, s, view + unread) == reply + Answered(h, b.session, view[b.used..] + unread)
  {
    hide BatchOf, BatchMem, BatchReply, Fitting, BatchFits, Answered;
    NextBatchFits(Right, h, s, view, unread);
    BatchRight(h, s, mem, Cursor(0, false), view);
    AnsweredBehind(h, s, 0, view, unread);
    assert mem[..0] + BatchReply(h, s, 0, view) == BatchReply(h, s, 0, view);
  }

  /** Everything sent over a connection with a fitting stream ought to be sent, in every state of the
      connection. */
  lemma {:induction false} TransmitRight<D>(
    h: Handlers<D>, s: Session<D>, mem: seq<byte>, view: seq<byte>, unread: seq<byte>, cuts: seq<nat>)
    requires Fitting(Right, h, s, view + unread) && |view| <= BUF_MAX && |mem| == REPLY_CAPACITY
    ensures Transmit(h, s, mem, view, unread, cuts) <= Answered(h, s, view + unread)
    decreases |unread|, |view|
  {
    hide BatchOf, BatchMem, BatchReply, Fitting, Answered, Transmit, Piece, NextCuts;
    NextBatchRight(h, s, mem, view, unread);
    TransmitStep(h, s, mem, view, unread, cuts);
    var b, m, reply := BatchOf(h, s, 0, view), BatchMem(h, s, mem, 0, view), BatchReply(h, s, 0, view);
    var rest := view[b.used..];
    var answered := Answered(h, b.session, rest + unread);
    if b.stop == Deferred {
      TransmitRight(h, b.session, m, rest, unread, cuts);
      PrefixBehind(reply, Transmit(h, b.session, m, rest, unread, cuts), answered);
    } else if b.stop == NeedFill && unread != [] && |rest| < BUF_MAX {
      var n := Piece(rest, unread, cuts);
      var more, next := rest + unread[..n], NextCuts(cuts);
      assert rest + unread == more + unread[n..];
      TransmitRight(h, b.session, m, more, unread[n..], next);
      PrefixBehind(reply, Transmit(h, b.session, m, more, unread[n..], next), answered);
    }
  }

  lemma PrefixBehind(a: seq<byte>, x: seq<byte>, y: seq<byte>)
    ensures x <= y <==> a + x <= a + y
  {
    if a + x <= a + y {
      assert x == (a + x)[|a|..] && y == (a + y)[|a|..];
    }
  }

  // ---------------------------------------------------------------- other streams are not

  /** The connection stays inside the reply buffer and sends nothing wrong. */
  predicate Faithful<D>(h: Handlers<D>, s: Session<D>, mem: seq<byte>, stream: seq<byte>, cuts: seq<nat>)
    requires |mem| == REPLY_CAPACITY
  {
    && !Outgrows(Limit(REPLY_CAPACITY), h, s, [], stream, cuts)
    && Transmit(h, s, mem, [], stream, cuts) <= Answered(h, s, stream)
  }

  /** The part of the reply buffer where bytes may be left out holds one value. */
  predicate Stale(mem: seq<byte>, value: byte) {
    |mem| == REPLY_CAPACITY && forall i :: BUF_MAX <= i < REPLY_CAPACITY ==> mem[i] == value
  }

  /** A batch leaves the replies before it alone. */
  lemma {:induction false} BatchKeeps<D>(
    h: Handlers<D>, s: Session<D>, mem: seq<byte>, pending: nat, view: seq<byte>, k: nat)
    requires |mem| == REPLY_CAPACITY && k < pending && k < REPLY_CAPACITY
    ensures BatchMem(h, s, mem, pending, view)[k] == mem[k]
    decreases |view|
  {
    hide Execute, NextCommand, NextFrame, Head, Body;
    match NextFrame(h.features, view)
    case Packet(_, end) =>
      var cmd := NextCommand(h.features, view);
      var e := Execute(h, s, cmd);
      if !Waits(cmd, pending) && !Overflows(h, s, cmd, pending) {
        BatchKeeps(h, e.session, After(h, s, cmd, mem, pending), pending + |e.reply|, view[end..], k);
      }
    case _ =>
  }

  /** What a byte that is missed later is like before. */
  predicate Spoilt(mem: seq<byte>, c: Cursor, p: nat, right: byte)
    ensures Spoilt(mem, c, p, right) ==> |mem| == REPLY_CAPACITY
  {
    |mem| == REPLY_CAPACITY && p < REPLY_CAPACITY && Terminated(mem, c) && ((p == c.at && c.zero) || mem[p] != right)
  }

  lemma SpoiltStays<D>(h: Handlers<D>, s: Session<D>, cmd: Command, mem: seq<byte>, c: Cursor, p: nat, right: byte)
    requires Spoilt(mem, c, p, right) && !Overflows(h, s, cmd, c.at) && !Misses(h, s, cmd, c)
    requires p >= Moved(h, s, cmd, c).at
    ensures Spoilt(After(h, s, cmd, mem, c.at), Moved(h, s, cmd, c), p, right)
  {
    hide Execute, Head, Body, Misses;
    StoredRight(h, s, cmd, mem, c);
  }

  lemma WrongReply<D>(h: Handlers<D>, s: Session<D>, cmd: Command, c: Cursor) returns (p: nat)
    requires Misses(h, s, cmd, c) && !Overflows(h, s, cmd, c.at)
    ensures BUF_MAX <= p < REPLY_CAPACITY && c.at <= p < c.at + |Execute(h, s, cmd).reply|
    ensures var right := Execute(h, s, cmd).reply[p - c.at];
            forall mem :: Spoilt(mem, c, p, right) ==> After(h, s, cmd, mem, c.at)[p] != right
  {
    hide Execute, Head, Body, After;
    var i: nat :| i < |Execute(h, s, cmd).reply| && Missed(h, s, cmd, c, i);
    p := c.at + i;
    var right := Execute(h, s, cmd).reply[i];
    forall mem | Spoilt(mem, c, p, right)
      ensures After(h, s, cmd, mem, c.at)[p] != right
    {
      StoredWrong(h, s, cmd, mem, c, i);
    }
  }

  /** A batch that misses a byte has a wrong byte, if the memory did not hold it by chance. */
  lemma {:induction false} WrongBatch<D>(h: Handlers<D>, s: Session<D>, c: Cursor, view: seq<byte>) returns (p: nat)
    requires !BatchFits(Right, h, s, c, view) && BatchOf(h, s, c.at, view).stop != Overflow
    ensures BUF_MAX <= p < REPLY_CAPACITY && c.at <= p < BatchOf(h, s, c.at, view).length
    ensures p - c.at < |BatchReply(h, s, c.at, view)|
    ensures var right := BatchReply(h, s, c.at, view)[p - c.at];
            forall mem :: Spoilt(mem, c, p, right) ==> BatchMem(h, s, mem, c.at, view)[p] != right
    decreases |view|
  {
    hide Execute, NextCommand, NextFrame, Misses, Missed, Spoilt, After;
    var end := NextFrame(h.features, view).end;
    var cmd := NextCommand(h.features, view);
    var e, next, rest := Execute(h, s, cmd), Moved(h, s, cmd, c), view[end..];
    ReplyLength(h, s, c.at, view);
    assert BatchReply(h, s, c.at, view) == e.reply + BatchReply(h, e.session, next.at, rest);
    if Allowed(Right, h, s, cmd, c) {
      p := WrongBatch(h, e.session, next, rest);
      var right := BatchReply(h, e.session, next.at, rest)[p - next.at];
      forall mem | Spoilt(mem, c, p, right)
        ensures BatchMem(h, s, mem, c.at, view)[p] != right
      {
        SpoiltStays(h, s, cmd, mem, c, p, right);
      }
    } else {
      p := WrongReply(h, s, cmd, c);
      var right := e.reply[p - c.at];
      forall mem | Spoilt(mem, c, p, right)
        ensures BatchMem(h, s, mem, c.at, view)[p] != right
      {
        BatchKeeps(h, e.session, After(h, s, cmd, mem, c.at), next.at, rest, p);
      }
    }
  }

  // ---------------------------------------------------------------- the theorem

  /** A window that misses a byte, received at once, is sent wrongly. */
  lemma WrongWindow<D>(h: Handlers<D>, s: Session<D>, stream: seq<byte>) returns (stale: byte)
    requires Conforming(h.features, stream)
    ensures WindowFits(Right, h, s, stream, BUF_MAX, Cursor(0, false))
         || (var cuts := [WindowEnd(Right, h, s, stream, BUF_MAX, Cursor(0, false))];
             forall mem :: Stale(mem, stale) ==> !Faithful(h, s, mem, stream, cuts))
  {
    var start := Cursor(0, false);
    stale := 0;
    EmptyWindow(Right, h, s, BUF_MAX, start);
    hide BatchOf, WindowFits, WindowEnd, BatchFits, Faithful, Conforming;
    if !WindowFits(Right, h, s, stream, BUF_MAX, start) {
      var n := WindowEnd(Right, h, s, stream, BUF_MAX, start);
      var view := stream[..n];
      WindowBatch(Right, h, s, stream, BUF_MAX, start);
      if BatchOf(h, s, 0, view).stop == Overflow {
        forall mem | Stale(mem, stale)
          ensures !Faithful(h, s, mem, stream, [n])
        {
          OverflowingWindow(h, s, mem, stream, n);
        }
      } else {
        stale := MissedByte(h, s, stream, n);
      }
    }
  }

  lemma MissedByte<D>(h: Handlers<D>, s: Session<D>, stream: seq<byte>, n: nat) returns (stale: byte)
    requires 0 < n <= |stream| && n <= BUF_MAX && BatchOf(h, s, 0, stream[..n]).stop == NeedFill
    requires !BatchFits(Right, h, s, Cursor(0, false), stream[..n])
    ensures forall mem :: Stale(mem, stale) ==> !Faithful(h, s, mem, stream, [n])
  {
    hide BatchOf, BatchMem, BatchReply, BatchFits, Faithful;
    var start, view := Cursor(0, false), stream[..n];
    var p := WrongBatch(h, s, start, view);
    var right := BatchReply(h, s, 0, view)[p];
    stale := if right == 0 then 1 else 0;
    forall mem | Stale(mem, stale)
      ensures !Faithful(h, s, mem, stream, [n])
    {
      assert Spoilt(mem, start, p, right);
      SentWrongly(h, s, mem, stream, n, p);
    }
  }

  lemma FirstPiece(stream: seq<byte>, n: nat)
    requires 0 < n <= |stream| && n <= BUF_MAX
    ensures Piece([], stream, [n]) == n && NextCuts([n]) == []
    ensures stream[..n] + stream[n..] == stream
  {
  }

  lemma OverflowingWindow<D>(h: Handlers<D>, s: Session<D>, mem: seq<byte>, stream: seq<byte>, n: nat)
    requires 0 < n <= |stream| && n <= BUF_MAX && |mem| == REPLY_CAPACITY
    requires BatchOf(h, s, 0, stream[..n]).stop == Overflow
    ensures !Faithful(h, s, mem, stream, [n])
  {
    hide BatchOf, BatchFits, Transmit, Outgrows, Answered, Piece;
    var t := Limit(REPLY_CAPACITY);
    FirstPiece(stream, n);
    NothingBuffered(t, h, s, mem, stream, [n]);
    LimitOfBatch(REPLY_CAPACITY, h, s, Cursor(0, false), stream[..n]);
    FirstBatch(t, h, s, stream[..n], stream[n..], []);
  }

  lemma SentWrongly<D>(h: Handlers<D>, s: Session<D>, mem: seq<byte>, stream: seq<byte>, n: nat, p: nat)
    requires 0 < n <= |stream| && n <= BUF_MAX && |mem| == REPLY_CAPACITY
    requires BatchOf(h, s, 0, stream[..n]).stop == NeedFill
    requires p < BatchOf(h, s, 0, stream[..n]).length && p < |BatchReply(h, s, 0, stream[..n])|
    requires BatchMem(h, s, mem, 0, stream[..n])[p] != BatchReply(h, s, 0, stream[..n])[p]
    ensures !Faithful(h, s, mem, stream, [n])
  {
    hide BatchOf, BatchMem, BatchReply, Transmit, Outgrows, Answered, Piece;
    FirstPiece(stream, n);
    NothingBuffered(Right, h, s, mem, stream, [n]);
    TransmitStep(h, s, mem, stream[..n], stream[n..], []);
    AnsweredBehind(h, s, 0, stream[..n], stream[n..]);
    var sent, right := Transmit(h, s, mem, [], stream, [n]), Answered(h, s, stream);
    assert sent[p] == BatchMem(h, s, mem, 0, stream[..n])[p];
    assert right[p] == BatchReply(h, s, 0, stream[..n])[p];
  }

  /** What a first packet that is answered alone, and rightly, leaves to the rest of the stream. */
  lemma FaithfulBehind<D>(h: Handlers<D>, s: Session<D>, mem: seq<byte>, stream: seq<byte>, cuts: seq<nat>)
    requires Conforming(h.features, stream) && NextFrame(h.features, stream).Packet?
    requires NextFrame(h.features, stream).end < |stream| && |mem| == REPLY_CAPACITY
    requires Allowed(Right, h, s, NextCommand(h.features, stream), Cursor(0, false))
    ensures var end := NextFrame(h.features, stream).end;
            var cmd := NextCommand(h.features, stream);
            Faithful(h, s, mem, stream, [end] + cuts) ==>
              Faithful(h, Execute(h, s, cmd).session, After(h, s, cmd, mem, 0), stream[end..], cuts)
  {
    hide Transmit, Outgrows, After, Execute, NextCommand, NextFrame, Conforming, Misses;
    var end := NextFrame(h.features, stream).end;
    var cmd := NextCommand(h.features, stream);
    AllowedInside(Right, h, s, cmd, Cursor(0, false));
    var e, m := Execute(h, s, cmd), After(h, s, cmd, mem, 0);
    FirstAlone(Limit(REPLY_CAPACITY), h, s, mem, stream, cuts);
    AloneRight(h, s, cmd, mem);
    PrefixBehind(e.reply, Transmit(h, e.session, m, [], stream[end..], cuts), Answered(h, e.session, stream[end..]));
  }

  lemma AloneRight<D>(h: Handlers<D>, s: Session<D>, cmd: Command, mem: seq<byte>)
    requires !Overflows(h, s, cmd, 0) && !Misses(h, s, cmd, Cursor(0, false)) && |mem| == REPLY_CAPACITY
    ensures After(h, s, cmd, mem, 0)[..|Execute(h, s, cmd).reply|] == Execute(h, s, cmd).reply
  {
    hide Execute, After, Misses;
    StoredRight(h, s, cmd, mem, Cursor(0, false));
    assert mem[..0] + Execute(h, s, cmd).reply == Execute(h, s, cmd).reply;
  }

  /** A packet answered alone leaves the part of the reply buffer alone where bytes may be left out. */
  lemma StaleStays<D>(h: Handlers<D>, s: Session<D>, cmd: Command, mem: seq<byte>, value: byte)
    requires Stale(mem, value) && |Written(h, s, cmd)| <= BUF_MAX
    ensures Stale(After(h, s, cmd, mem, 0), value)
  {
    hide Execute, Head, Body;
  }

  lemma ShiftFits(f: Features, stream: seq<byte>)
    requires NextFrame(f, stream).Packet? && NextFrame(f, stream).end <= BUF_MAX
    ensures NextCommand(f, stream).Shift? ==> VectorBytes(NextCommand(f, stream).bits) <= BUF_MAX
  {
    hide Keyword, VectorBytes, FromLe;
    var c := ColonFrom(stream, 0);
    hide ColonFrom;
    OnlyShift(Keyword(f, stream[..c + 1]), stream, c + 1);
  }

  lemma OnlyShift(kind: Kind, s: seq<byte>, pos: nat)
    requires pos <= |s| && kind != KUnknown && PacketEnd(kind, s, pos) <= |s|
    ensures var cmd := CommandAt(kind, s, pos);
            cmd.Shift? ==> VectorBytes(cmd.bits) <= PacketEnd(kind, s, pos)
  {
    hide VectorBytes, FromLe, Payload;
  }

  /** A stream that is not fitting has a cutting, and contents of the reply buffer, with which the
      connection is not faithful: its packets one by one, and the window that misses a byte at once. */
  lemma {:induction false} WrongCutting<D>(h: Handlers<D>, s: Session<D>, stream: seq<byte>)
    returns (cuts: seq<nat>, stale: byte)
    requires Conforming(h.features, stream) && |s.client.pendingError| <= ERROR_MAX
    ensures Fitting(Right, h, s, stream)
         || forall mem :: Stale(mem, stale) ==> !Faithful(h, s, mem, stream, cuts)
    decreases |stream|
  {
    var start := Cursor(0, false);
    EmptyWindow(Right, h, s, BUF_MAX, start);
    cuts, stale := [], 0;
    hide Execute, NextCommand, NextFrame, WindowFits, Conforming, WindowEnd, Allowed, After, Faithful, Stale, Misses;
    if !WindowFits(Right, h, s, stream, BUF_MAX, start) {
      cuts := [WindowEnd(Right, h, s, stream, BUF_MAX, start)];
      stale := WrongWindow(h, s, stream);
    } else if !Fitting(Right, h, s, stream) {
      var end, cmd := NextFrame(h.features, stream).end, NextCommand(h.features, stream);
      var t := Execute(h, s, cmd).session;
      PacketInPrefix(h.features, stream, end);
      NotOverflowing(Right, h, s, stream);
      AllowedInside(Right, h, s, cmd, start);
      ShiftFits(h.features, stream);
      AloneShort(h, s, cmd);
      ErrorStaysShort(h, s, cmd);
      EmptyWindow(Right, h, t, BUF_MAX, start);
      var more;
      more, stale := WrongCutting(h, t, stream[end..]);
      cuts := [end] + more;
      forall mem | Stale(mem, stale)
        ensures !Faithful(h, s, mem, stream, cuts)
      {
        StaleSize(mem, stale);
        StaleStays(h, s, cmd, mem, stale);
        FaithfulBehind(h, s, mem, stream, more);
      }
    }
  }

  lemma StaleSize(mem: seq<byte>, value: byte)
    ensures Stale(mem, value) ==> |mem| == REPLY_CAPACITY
    ensures Stale(seq(REPLY_CAPACITY, i => value), value)
  {
  }

  /** Whatever the reply buffer held, and however a conforming stream is cut, the connection stays
      inside the reply buffer and sends what the packet-at-a-time run answers, if and only if the
      stream is fitting: no length or status byte of packets that can be in the buffer together falls
      at or beyond max_packet_len, unless it is zero and follows the text of getinfo:, and nothing
      passes the end of the reply buffer. */
  lemma BytesExact<D>(h: Handlers<D>, s: Session<D>, stream: seq<byte>)
    requires Conforming(h.features, stream) && |s.client.pendingError| <= ERROR_MAX
    ensures (forall mem, cuts | |mem| == REPLY_CAPACITY :: Faithful(h, s, mem, stream, cuts))
       <==> Fitting(Right, h, s, stream)
  {
    if Fitting(Right, h, s, stream) {
      forall mem, cuts | |mem| == REPLY_CAPACITY
        ensures Faithful(h, s, mem, stream, cuts)
      {
        FittingFaithful(h, s, mem, stream, cuts);
      }
    } else {
      hide Faithful, Stale, Fitting, Conforming;
      var cuts, stale := WrongCutting(h, s, stream);
      StaleSize([], stale);
      var mem := seq(REPLY_CAPACITY, i => stale);
      assert !Faithful(h, s, mem, stream, cuts);
    }
  }

  lemma FittingFaithful<D>(h: Handlers<D>, s: Session<D>, mem: seq<byte>, stream: seq<byte>, cuts: seq<nat>)
    requires Fitting(Right, h, s, stream) && |mem| == REPLY_CAPACITY
    ensures Faithful(h, s, mem, stream, cuts)
  {
    hide Fitting, Transmit, Outgrows, Answered;
    assert [] + stream == stream;
    FittingWeaker(Right, Limit(REPLY_CAPACITY), h, s, stream);
    FittingHolds(Limit(REPLY_CAPACITY), h, s, [], stream, cuts);
    TransmitRight(h, s, mem, [], stream, cuts);
  }
}
