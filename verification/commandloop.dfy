/** The command loop of the ZynqMP server: exact-length reads, three commands, and the shift loop.
    A connection is served from the bytes on the wire down to the clocks of the device. */
module CommandLoop {
  import opened Bytes
  import opened Jtag
  import opened Bridge
  import opened ShiftLoops

  // bufferSize: room for both vectors of a shift.
  const BUFFER_SIZE: nat := 2048
  const INFO := "xvcServer_v1.0:2048\n"

  datatype AnyTurn =
    | Info
    | Tck(period: seq<byte>)
    | Shift(len: nat, tms: seq<byte>, tdi: seq<byte>)

  /** A command that was read completely. */
  type Turn = t: AnyTurn | t.Shift? ==> |t.tms| == |t.tdi| == BytesFor(t.len) witness Info

  datatype Reading = Turn(turn: Turn, size: nat) | Stop

  function Signed(w: nat): int {
    if w < 0x8000_0000 then w else w - TWO32
  }

  /** The byte count the server computes from a signed length, division truncating. */
  function VectorSize(len: int): int {
    if len + 7 >= 0 then (len + 7) / 8 else -((-(len + 7)) / 8)
  }

  /** The next command in the stream; the server stops at an unknown one, at a vector larger than
      its buffer, and when the stream ends inside a command. Only the first two letters count. */
  function NextTurn(s: seq<byte>): (r: Reading)
    ensures r.Turn? ==> 0 < r.size <= |s|
  {
    if |s| < 2 then Stop
    else if s[..2] == Ascii("ge") then
      if |s| < 8 then Stop else Turn(Info, 8)
    else if s[..2] == Ascii("se") then
      if |s| < 11 then Stop else Turn(Tck(s[7..11]), 11)
    else if s[..2] == Ascii("sh") && |s| >= 10 then
      var len := Signed(FromLe(s[6..10]));
      var size := VectorSize(len);
      if size < 0 || 2 * size > BUFFER_SIZE || |s| < 10 + 2 * size then Stop
      else Turn(Shift(if len < 0 then 0 else len, s[10..10 + size], s[10 + size..10 + 2 * size]), 10 + 2 * size)
    else Stop
  }

  function Turns(s: seq<byte>): seq<Turn>
    decreases |s|
  {
    match NextTurn(s)
    case Stop => []
    case Turn(t, size) => [t] + Turns(s[size..])
  }

  /** The device after a command. */
  function TurnDevice<S>(step: Device<S>, s: S, t: Turn): S {
    if t.Shift? then Reference(step, s, t.tms, t.tdi, Clocks(t.len)).0 else s
  }

  /** A reply: TDO of a shift is the output of the bit-serial shift in its first len bits. */
  ghost predicate TurnReply<S>(step: Device<S>, s: S, t: Turn, r: seq<byte>) {
    match t
    case Info => r == Ascii("xvcServer_v1.0:2048\n")
    case Tck(period) => r == period
    case Shift(len, tms, tdi) =>
      |r| == BytesFor(len) && VectorBits(r)[..len] == Reference(step, s, tms, tdi, len).1
  }

  function DeviceAfter<S>(step: Device<S>, s: S, turns: seq<Turn>): S
    decreases |turns|
  {
    if turns == [] then s else DeviceAfter(step, TurnDevice(step, s, turns[0]), turns[1..])
  }

  /** A run of commands was answered, each reply on its own, in order. */
  ghost predicate Answered<S>(step: Device<S>, s: S, turns: seq<Turn>, replies: seq<seq<byte>>)
    decreases |turns|
  {
    |turns| == |replies|
    && (turns != [] ==>
          && TurnReply(step, s, turns[0], replies[0])
          && Answered(step, TurnDevice(step, s, turns[0]), turns[1..], replies[1..]))
  }

  function Join(parts: seq<seq<byte>>): seq<byte> {
    if parts == [] then [] else parts[0] + Join(parts[1..])
  }

  lemma {:induction false} JoinAppend(a: seq<seq<byte>>, b: seq<seq<byte>>)
    ensures Join(a + b) == Join(a) + Join(b)
  {
    if a == [] {
      assert a + b == b;
    } else {
      assert (a + b)[1..] == a[1..] + b;
      JoinAppend(a[1..], b);
    }
  }

  lemma {:induction false} AnsweredAppend<S>(
    step: Device<S>, s: S, a: seq<Turn>, x: seq<seq<byte>>, b: seq<Turn>, y: seq<seq<byte>>)
    requires Answered(step, s, a, x) && Answered(step, DeviceAfter(step, s, a), b, y)
    ensures Answered(step, s, a + b, x + y)
    ensures DeviceAfter(step, s, a + b) == DeviceAfter(step, DeviceAfter(step, s, a), b)
    decreases |a|
  {
    hide TurnReply, TurnDevice;
    if a == [] {
      assert a + b == b && x + y == y;
    } else {
      assert (a + b)[1..] == a[1..] + b && (x + y)[1..] == x[1..] + y;
      AnsweredAppend(step, TurnDevice(step, s, a[0]), a[1..], x[1..], b, y);
    }
  }

  /** One more command answered. */
  lemma AnsweredSnoc<S>(
    step: Device<S>, s: S, turns: seq<Turn>, replies: seq<seq<byte>>, t: Turn, r: seq<byte>)
    requires Answered(step, s, turns, replies)
    requires TurnReply(step, DeviceAfter(step, s, turns), t, r)
    ensures Answered(step, s, turns + [t], replies + [r])
    ensures DeviceAfter(step, s, turns + [t]) == TurnDevice(step, DeviceAfter(step, s, turns), t)
    ensures Join(replies + [r]) == Join(replies) + r
  {
    hide TurnReply, TurnDevice;
    var before := DeviceAfter(step, s, turns);
    assert [t][1..] == [] && [r][1..] == [] && r + [] == r;
    assert Answered(step, before, [t], [r]) && Join([r]) == r;
    AnsweredAppend(step, s, turns, replies, [t], [r]);
    JoinAppend(replies, [r]);
  }

  lemma TurnsCons(s: seq<byte>)
    requires NextTurn(s).Turn?
    ensures Turns(s) == [NextTurn(s).turn] + Turns(s[NextTurn(s).size..])
  {
    hide NextTurn;
  }

  /** The commands from a on, after the one at start was read. */
  lemma TurnsStep(input: seq<byte>, a: nat, start: nat, done: seq<Turn>)
    requires a <= |input| && start <= |input| && NextTurn(input[start..]).Turn?
    requires Turns(input[a..]) == done + Turns(input[start..])
    ensures var r := NextTurn(input[start..]);
            start + r.size <= |input| && Turns(input[a..]) == done + [r.turn] + Turns(input[start + r.size..])
  {
    TurnsCons(input[start..]);
    hide NextTurn, Turns;
    var r := NextTurn(input[start..]);
    DropAgain(input, start, r.size);
    Regroup(done, [r.turn], Turns(input[start + r.size..]));
  }

  // ---------------------------------------------------------------- what a client sends

  /** A command as the protocol writes it. */
  function Wire(t: Turn): seq<byte> {
    match t
    case Info => Ascii("getinfo:")
    case Tck(period) => Ascii("settck:") + period
    case Shift(len, tms, tdi) => Ascii("shift:") + ToLe(4, len) + tms + tdi
  }

  predicate Sendable(t: Turn) {
    match t
    case Info => true
    case Tck(period) => |period| == 4
    case Shift(len, _, _) => 2 * BytesFor(len) <= 2048
  }

  function WireAll(turns: seq<Turn>): seq<byte> {
    if turns == [] then [] else Wire(turns[0]) + WireAll(turns[1..])
  }

  lemma Letters()
    ensures Ascii("ge") == [103, 101] && Ascii("se") == [115, 101] && Ascii("sh") == [115, 104]
  {
  }

  lemma ShiftParsed(s: seq<byte>, len: nat, tms: seq<byte>, tdi: seq<byte>)
    requires |tms| == |tdi| == BytesFor(len) && 2 * BytesFor(len) <= BUFFER_SIZE
    requires |s| >= 10 + 2 * |tms| && s[..2] == Ascii("sh") && FromLe(s[6..10]) == len
    requires s[10..10 + |tms|] == tms && s[10 + |tms|..10 + 2 * |tms|] == tdi
    ensures NextTurn(s) == Turn(Shift(len, tms, tdi), 10 + 2 * |tms|)
  {
    Letters();
    hide FromLe, Ascii;
  }

  lemma FiveParts(a: seq<byte>, b: seq<byte>, c: seq<byte>, d: seq<byte>, e: seq<byte>)
    requires |a| == 6 && |b| == 4 && |c| == |d|
    ensures var s := a + b + c + d + e;
            && s[..2] == a[..2] && s[6..10] == b && s[10..10 + |c|] == c
            && s[10 + |c|..10 + 2 * |c|] == d && s[10 + 2 * |c|..] == e
  {
  }

  lemma ShiftReads(len: nat, tms: seq<byte>, tdi: seq<byte>, rest: seq<byte>)
    requires |tms| == |tdi| == BytesFor(len) && 2 * BytesFor(len) <= BUFFER_SIZE
    ensures var s := Wire(Shift(len, tms, tdi)) + rest;
            NextTurn(s) == Turn(Shift(len, tms, tdi), 10 + 2 * |tms|) && s[10 + 2 * |tms|..] == rest
  {
    hide NextTurn, FromLe, ToLe;
    var name := Ascii("shift:");
    assert name[..2] == Ascii("sh");
    hide Ascii;
    FiveParts(name, ToLe(4, len), tms, tdi, rest);
    LeRoundTrip(4, len);
    Pow2Words();
    ShiftParsed(name + ToLe(4, len) + tms + tdi + rest, len, tms, tdi);
  }

  lemma TckReads(period: seq<byte>, rest: seq<byte>)
    requires |period| == 4
    ensures var s := Wire(Tck(period)) + rest;
            NextTurn(s) == Turn(Tck(period), 11) && s[11..] == rest
  {
    hide FromLe;
    var s := Wire(Tck(period)) + rest;
    Letters();
    assert s[..2] == Ascii("se");
    assert s[7..11] == period;
  }

  /** A command a client sends is read as itself, whatever follows. */
  lemma WireReads(t: Turn, rest: seq<byte>)
    requires Sendable(t)
    ensures var s := Wire(t) + rest;
            NextTurn(s) == Turn(t, |Wire(t)|) && s[|Wire(t)|..] == rest
  {
    match t
    case Info =>
      assert (Wire(t) + rest)[..2] == Ascii("ge");
    case Tck(period) =>
      TckReads(period, rest);
    case Shift(len, tms, tdi) =>
      ShiftReads(len, tms, tdi, rest);
  }

  /** A shift of larger vectors is refused, and so is what starts with other letters. */
  lemma RefusedTurns(s: seq<byte>)
    ensures |s| >= 2 && s[..2] != Ascii("ge") && s[..2] != Ascii("se") && s[..2] != Ascii("sh") ==> NextTurn(s).Stop?
    ensures |s| >= 10 && s[..2] == Ascii("sh") ==>
              var len := FromLe(s[6..10]);
              2 * BytesFor(len) > 2048 && len < 0x8000_0000 ==> NextTurn(s).Stop?
    ensures NextTurn(s).Turn? ==>
              NextTurn(s).size == match NextTurn(s).turn
                                  case Info => 8
                                  case Tck(_) => 11
                                  case Shift(_, tms, _) => 10 + 2 * |tms|
  {
    Letters();
    hide FromLe, Ascii;
  }

  /** Lengths with the sign bit set are negative. Down to -14 they round to no bytes at all, and the
      shift is answered with nothing; below, it is refused. */
  lemma NegativeLengths(s: seq<byte>)
    requires |s| >= 10 && s[..2] == Ascii("sh") && FromLe(s[6..10]) >= 0x8000_0000
    requires FromLe(s[6..10]) < 0x1_0000_0000
    ensures NextTurn(s) == if 0x1_0000_0000 - FromLe(s[6..10]) < 15 then Turn(Shift(0, [], []), 10) else Stop
  {
    Letters();
    hide FromLe, Ascii;
  }

  /** What a client sends is what the server reads, command by command. */
  lemma {:induction false} TurnsOfWire(turns: seq<Turn>)
    requires forall t :: t in turns ==> Sendable(t)
    ensures Turns(WireAll(turns)) == turns
    decreases |turns|
  {
    if turns == [] {
    } else {
      hide NextTurn, Wire;
      WireReads(turns[0], WireAll(turns[1..]));
      TurnsOfWire(turns[1..]);
    }
  }

  // ---------------------------------------------------------------- whole connections

  /** All TMS bits of a run of commands, in order. */
  function AllTms(turns: seq<Turn>): seq<bool> {
    if turns == [] then []
    else (if turns[0].Shift? then VectorBits(turns[0].tms)[..turns[0].len] else []) + AllTms(turns[1..])
  }

  function AllTdi(turns: seq<Turn>): (b: seq<bool>)
    ensures |b| == |AllTms(turns)|
  {
    if turns == [] then []
    else (if turns[0].Shift? then VectorBits(turns[0].tdi)[..turns[0].len] else []) + AllTdi(turns[1..])
  }

  /** The byte-driven loop issues the right number of clocks for every shift. */
  predicate Exact(turns: seq<Turn>) {
    forall t :: t in turns && t.Shift? ==> t.len % 32 < 25
  }

  /** However the bits are spread over shifts, the device sees one bit-serial run of them. */
  lemma {:induction false} OneLongShift<S>(step: Device<S>, s: S, turns: seq<Turn>)
    requires Exact(turns)
    ensures DeviceAfter(step, s, turns) == Serial(step, s, AllTms(turns), AllTdi(turns)).0
    decreases |turns|
  {
    if turns != [] {
      var t := turns[0];
      assert t in turns && forall x :: x in turns[1..] ==> x in turns;
      OneLongShift(step, TurnDevice(step, s, t), turns[1..]);
      if t.Shift? {
        SerialAppend(step, s, VectorBits(t.tms)[..t.len], VectorBits(t.tdi)[..t.len],
                     AllTms(turns[1..]), AllTdi(turns[1..]));
      } else {
        assert [] + AllTms(turns[1..]) == AllTms(turns[1..]) && [] + AllTdi(turns[1..]) == AllTdi(turns[1..]);
      }
    }
  }

  lemma ExactSplit(t: Turn, rest: seq<Turn>)
    ensures Exact([t] + rest) <==> (t.Shift? ==> t.len % 32 < 25) && Exact(rest)
  {
    assert Exact([t] + rest) ==> forall x :: x in rest ==> x in [t] + rest;
  }

  /** The device that counts clocks never sees fewer than there are bits. */
  lemma {:induction false} ClocksCounted(n: nat, turns: seq<Turn>)
    ensures DeviceAfter<nat>(Count, n, turns) >= n + |AllTms(turns)|
    ensures DeviceAfter<nat>(Count, n, turns) == n + |AllTms(turns)| <==> Exact(turns)
    decreases |turns|
  {
    if turns != [] {
      var t := turns[0];
      var next := TurnDevice<nat>(Count, n, t);
      ClocksCounted(next, turns[1..]);
      ExactSplit(t, turns[1..]);
      assert turns == [t] + turns[1..];
      if t.Shift? {
        CountsClocks(n, VectorBits(t.tms)[..Clocks(t.len)], VectorBits(t.tdi)[..Clocks(t.len)]);
        assert next == n + Clocks(t.len);
      }
      hide Exact, TurnDevice;
    }
  }

  /** A connection is one bit-serial run of all its bits, for every device, exactly when no shift has
      a length that is 25 to 31 modulo 32. */
  lemma ExactConnections(turns: seq<Turn>)
    ensures (forall step: Device<nat>, s: nat ::
               DeviceAfter(step, s, turns) == Serial(step, s, AllTms(turns), AllTdi(turns)).0)
       <==> Exact(turns)
  {
    if Exact(turns) {
      forall step: Device<nat>, s: nat
        ensures DeviceAfter(step, s, turns) == Serial(step, s, AllTms(turns), AllTdi(turns)).0
      {
        OneLongShift(step, s, turns);
      }
    } else {
      ClocksCounted(0, turns);
      CountsClocks(0, AllTms(turns), AllTdi(turns));
      assert DeviceAfter<nat>(Count, 0, turns) != Serial<nat>(Count, 0, AllTms(turns), AllTdi(turns)).0;
    }
  }

  // ---------------------------------------------------------------- the server

  /** A connection: the bytes the client sends before it closes, and what it has been sent. */
  class Socket {
    const input: seq<byte>
    var at: nat
    var output: seq<byte>

    constructor (input: seq<byte>)
      ensures this.input == input && at == 0 && output == []
    {
      this.input, at, output := input, 0, [];
    }

    /** read: some of the bytes asked for, none only at the end of the stream. */
    method Read(target: array<byte>, from: nat, len: nat) returns (r: nat)
      requires at <= |input| && len > 0 && from + len <= target.Length
      modifies this`at, target
      ensures at == old(at) + r <= |input| && r <= len && (r == 0 <==> old(at) == |input|)
      ensures target[..from] == old(target[..from]) && target[from..from + r] == input[old(at)..at]
    {
      var least := if at == |input| then 0 else 1;
      assert least <= len && at + least <= |input|;
      r :| least <= r <= len && at + r <= |input|;
      forall i | 0 <= i < r {
        target[from + i] := input[at + i];
      }
      at := at + r;
    }

    /** Reads exactly len bytes, however they arrive, or finds the end of the stream. */
    method SRead(target: array<byte>, len: nat) returns (ok: bool)
      requires at <= |input| && len <= target.Length
      modifies this`at, target
      ensures at <= |input|
      ensures ok <==> old(at) + len <= |input|
      ensures ok ==> at == old(at) + len && target[..len] == input[old(at)..at]
    {
      var t := 0;
      while t < len
        invariant t <= len && at == old(at) + t <= |input|
        invariant target[..t] == input[old(at)..at]
      {
        ghost var before := at;
        var r := Read(target, t, len - t);
        if r == 0 {
          return false;
        }
        assert target[..t + r] == target[..t] + target[t..t + r];
        assert input[old(at)..at] == input[old(at)..before] + input[before..at];
        t := t + r;
      }
      ok := true;
    }

    method Write(data: seq<byte>)
      modifies this`output
      ensures output == old(output) + data
    {
      output := output + data;
    }
  }

  lemma SliceFrom(s: seq<byte>, start: nat, a: nat, b: nat)
    requires start <= |s| && a <= b <= |s| - start
    ensures s[start..][a..b] == s[start + a..start + b]
  {
  }

  lemma DropAgain(s: seq<byte>, start: nat, n: nat)
    requires start + n <= |s|
    ensures s[start..][n..] == s[start + n..]
  {
  }

  /** The TDO bytes of a shift answer the command. */
  lemma ShiftAnswers<S>(step: Device<S>, s: S, after: S, t: Turn, result: seq<byte>)
    requires t.Shift? && |result| == BytesFor(t.len)
    requires Shifted(step, s, after, t.tms, t.tdi, Clocks(t.len), result)
    ensures TurnReply(step, s, t, result) && after == TurnDevice(step, s, t)
  {
    hide Reference, VectorBits, Clocks;
    FirstBitsAgree(step, s, t.tms, t.tdi, t.len);
    var n := Clocks(t.len);
    assert VectorBits(result)[..t.len] == VectorBits(result)[..n][..t.len];
  }

  /** How the reading of a shift is decided. */
  lemma ShiftDecision(s: seq<byte>)
    requires |s| >= 2 && s[..2] == Ascii("sh")
    ensures |s| < 10 ==> NextTurn(s).Stop?
    ensures |s| >= 10 ==>
              var size := VectorSize(Signed(FromLe(s[6..10])));
              NextTurn(s).Stop? <==> size < 0 || 2 * size > BUFFER_SIZE || |s| < 10 + 2 * size
  {
    Letters();
    hide FromLe, Ascii;
  }

  lemma ShiftTaken(s: seq<byte>, vectors: seq<byte>, bits: nat, n: nat)
    requires |s| >= 10 + 2 * n && s[..2] == Ascii("sh")
    requires var len := Signed(FromLe(s[6..10])); n == VectorSize(len) && bits == if len < 0 then 0 else len
    requires 2 * n <= BUFFER_SIZE && vectors == s[10..10 + 2 * n]
    ensures BytesFor(bits) == n
    ensures NextTurn(s) == Turn(Shift(bits, vectors[..n], vectors[n..]), 10 + 2 * n)
  {
    Letters();
    hide FromLe, Ascii;
    SliceOfSlice(s, 10, 10 + 2 * n, 0, n);
    SliceOfSlice(s, 10, 10 + 2 * n, n, 2 * n);
  }

  /** Shifts both vectors in the buffer and sends TDO. */
  method ShiftAndReply<S>(db: DebugBridge<S>, sock: Socket, len: nat, nrBytes: nat, buffer: array<byte>)
    returns (ghost reply: seq<byte>)
    requires db.busy == 0 && nrBytes == BytesFor(len) && 2 * nrBytes <= BUFFER_SIZE == buffer.Length
    modifies db, sock`output
    ensures db.busy == 0 && sock.output == old(sock.output) + reply
    ensures var t := Shift(len, buffer[..nrBytes], buffer[nrBytes..2 * nrBytes]);
            TurnReply(db.step, old(db.dev), t, reply) && db.dev == TurnDevice(db.step, old(db.dev), t)
  {
    hide TurnReply, TurnDevice, Shifted, Plan;
    var result := new byte[BUFFER_SIZE / 2];
    ghost var t := Shift(len, buffer[..nrBytes], buffer[nrBytes..2 * nrBytes]);
    var _ := ShiftMapped(db, len, buffer, result);
    ShiftAnswers(db.step, old(db.dev), db.dev, t, result[..nrBytes]);
    reply := result[..nrBytes];
    sock.Write(result[..nrBytes]);
  }

  /** What follows the name of a shift: the length and both vectors. */
  method ShiftCommand<S>(db: DebugBridge<S>, sock: Socket, ghost start: nat) returns (ok: bool, ghost reply: seq<byte>)
    requires db.busy == 0 && start + 6 == sock.at <= |sock.input|
    requires sock.input[start..][..2] == Ascii("sh")
    modifies db, sock
    ensures db.busy == 0 && sock.at <= |sock.input|
    ensures ok ==> Taken(db.step, old(db.dev), db.dev, sock.input, start, sock.at, old(sock.output), sock.output, reply)
    ensures !ok ==> NextTurn(sock.input[start..]).Stop? && db.dev == old(db.dev) && sock.output == old(sock.output)
  {
    hide TurnReply, TurnDevice, FromLe, NextTurn, Ascii, VectorSize, Signed;
    ghost var s := sock.input[start..];
    reply := [];
    ShiftDecision(s);
    var word := new byte[4];
    ok := sock.SRead(word, 4);
    if !ok {
      return;
    }
    SliceFrom(sock.input, start, 6, 10);
    var len := Signed(FromLe(word[..4]));
    var nrBytes := VectorSize(len);
    if nrBytes < 0 || nrBytes * 2 > BUFFER_SIZE {
      ok := false;
      return;
    }
    var buffer := new byte[BUFFER_SIZE];
    ok := sock.SRead(buffer, nrBytes * 2);
    if !ok {
      return;
    }
    SliceFrom(sock.input, start, 10, 10 + 2 * nrBytes);
    var bits := if len < 0 then 0 else len;
    ghost var vectors := buffer[..2 * nrBytes];
    ShiftTaken(s, vectors, bits, nrBytes);
    assert vectors[..nrBytes] == buffer[..nrBytes] && vectors[nrBytes..] == buffer[nrBytes..2 * nrBytes];
    reply := ShiftAndReply(db, sock, bits, nrBytes, buffer);
  }

  /** One command was read at start and answered: stream position, device and output are right. */
  ghost predicate Taken<S>(
    step: Device<S>, s: S, after: S, input: seq<byte>, start: nat, at: nat,
    output: seq<byte>, now: seq<byte>, reply: seq<byte>)
  {
    start <= |input|
    && var r := NextTurn(input[start..]);
    && r.Turn? && at == start + r.size && now == output + reply
    && TurnReply(step, s, r.turn, reply) && after == TurnDevice(step, s, r.turn)
  }

  datatype Outcome = Again | Quit | Fail

  /** One round of the loop: a command is read and answered, or the connection is given up. */
  method Round<S>(db: DebugBridge<S>, sock: Socket) returns (outcome: Outcome, ghost reply: seq<byte>)
    requires db.busy == 0 && sock.at <= |sock.input|
    modifies db, sock
    ensures db.busy == 0 && sock.at <= |sock.input|
    ensures outcome == Fail ==>
              NextTurn(sock.input[old(sock.at)..]).Stop? && db.dev == old(db.dev) && sock.output == old(sock.output)
    ensures outcome != Fail ==>
              && Taken(db.step, old(db.dev), db.dev, sock.input, old(sock.at), sock.at,
                       old(sock.output), sock.output, reply)
              && (outcome == Again <==> NextTurn(sock.input[old(sock.at)..]).turn.Shift?)
  {
    hide FromLe, VectorSize, Signed;
    ghost var start, s := sock.at, sock.input[sock.at..];
    Letters();
    reply := [];
    var cmd := new byte[16];
    var ok := sock.SRead(cmd, 2);
    if !ok {
      return Fail, reply;
    }
    SliceFrom(sock.input, start, 0, 2);
    assert cmd[..2] == s[..2];
    if cmd[..2] == Ascii("ge") {
      ok := sock.SRead(cmd, 6);
      if !ok {
        return Fail, reply;
      }
      reply := Ascii(INFO);
      sock.Write(Ascii(INFO));
      return Quit, reply;
    } else if cmd[..2] == Ascii("se") {
      ok := sock.SRead(cmd, 9);
      if !ok {
        return Fail, reply;
      }
      SliceFrom(sock.input, start, 7, 11);
      assert cmd[5..9] == cmd[..9][5..9];
      reply := cmd[5..9];
      sock.Write(cmd[5..9]);
      return Quit, reply;
    } else if cmd[..2] == Ascii("sh") {
      ok := sock.SRead(cmd, 4);
      if !ok {
        return Fail, reply;
      }
      ok, reply := ShiftCommand(db, sock, start);
      return if ok then Again else Fail, reply;
    }
    outcome := Fail;
  }

  /** Serves commands until one that is not a shift was answered, or the connection fails. */
  method HandleData<S>(db: DebugBridge<S>, sock: Socket)
    returns (rv: int, ghost done: seq<Turn>, ghost replies: seq<seq<byte>>)
    requires db.busy == 0 && sock.at <= |sock.input|
    modifies db, sock
    ensures db.busy == 0 && sock.at <= |sock.input| && (rv == 0 || rv == 1)
    ensures Answered(db.step, old(db.dev), done, replies) && db.dev == DeviceAfter(db.step, old(db.dev), done)
    ensures sock.output == old(sock.output) + Join(replies)
    ensures rv == 0 ==> sock.at > old(sock.at)
    ensures Turns(sock.input[old(sock.at)..]) == done + if rv == 0 then Turns(sock.input[sock.at..]) else []
    ensures rv == 0 ==> done != [] && !done[|done| - 1].Shift?
    ensures forall i :: 0 <= i < |done| - (if rv == 0 then 1 else 0) ==> done[i].Shift?
  {
    hide TurnReply, TurnDevice, NextTurn, Answered, DeviceAfter;
    done, replies := [], [];
    NothingDone(db.step, db.dev);
    assert sock.output + [] == sock.output;
    while true
      invariant db.busy == 0 && sock.at <= |sock.input| && sock.at >= old(sock.at)
      invariant Answered(db.step, old(db.dev), done, replies) && db.dev == DeviceAfter(db.step, old(db.dev), done)
      invariant sock.output == old(sock.output) + Join(replies)
      invariant Turns(sock.input[old(sock.at)..]) == done + Turns(sock.input[sock.at..])
      invariant forall i :: 0 <= i < |done| ==> done[i].Shift?
      decreases |sock.input| - sock.at
    {
      ghost var before, start := db.dev, sock.at;
      var outcome, reply := Round(db, sock);
      if outcome == Fail {
        rv := 1;
        return;
      }
      ghost var r := NextTurn(sock.input[start..]);
      TurnsStep(sock.input, old(sock.at), start, done);
      AnsweredSnoc(db.step, old(db.dev), done, replies, r.turn, reply);
      done, replies := done + [r.turn], replies + [reply];
      if outcome == Quit {
        rv := 0;
        return;
      }
    }
  }

  lemma NothingDone<S>(step: Device<S>, s: S)
    ensures Answered(step, s, [], []) && DeviceAfter(step, s, []) == s
  {
  }

  /** Serves a whole connection, one call of the command loop after the other. Whatever way its
      bytes are cut up on arrival, the commands in them are answered one by one, and the device
      has seen them in that order. */
  method Serve<S>(db: DebugBridge<S>, sock: Socket) returns (ghost replies: seq<seq<byte>>)
    requires db.busy == 0 && sock.at == 0 && sock.output == []
    modifies db, sock
    ensures Answered(db.step, old(db.dev), Turns(sock.input), replies) && sock.output == Join(replies)
    ensures db.dev == DeviceAfter(db.step, old(db.dev), Turns(sock.input))
  {
    hide TurnReply, TurnDevice, NextTurn, Answered, DeviceAfter, Turns;
    ghost var done: seq<Turn> := [];
    replies := [];
    NothingDone(db.step, db.dev);
    assert sock.input[0..] == sock.input;
    while true
      invariant db.busy == 0 && sock.at <= |sock.input|
      invariant Answered(db.step, old(db.dev), done, replies) && db.dev == DeviceAfter(db.step, old(db.dev), done)
      invariant sock.output == Join(replies) && Turns(sock.input) == done + Turns(sock.input[sock.at..])
      decreases |sock.input| - sock.at
    {
      ghost var before, start := db.dev, sock.at;
      var rv, more, answers := HandleData(db, sock);
      AnsweredAppend(db.step, old(db.dev), done, replies, more, answers);
      JoinAppend(replies, answers);
      Regroup(done, more, Turns(sock.input[sock.at..]));
      done, replies := done + more, replies + answers;
      if rv != 0 {
        assert done + [] == done;
        return;
      }
    }
  }

  lemma Regroup(a: seq<Turn>, b: seq<Turn>, c: seq<Turn>)
    ensures a + (b + c) == (a + b) + c && b + [] == b
  {
  }
}
