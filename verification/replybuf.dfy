/** What executing a packet stores in the reply buffer. Status and length bytes are stored only in front
    of max_packet_len; everything else is stored wherever it belongs. */
module ReplyBuffer {
  import opened Bytes
  import Uleb128
  import opened Framing
  import opened Configure
  import opened Session

  // What reply_buf_size makes of BUF_MAX.
  const REPLY_CAPACITY: nat := 16384

  /** The size reply_buf_size grows a buffer to. */
  function Doubled(size: nat, bytes: nat): (r: nat)
    requires size > 0
    ensures r >= size && r >= bytes && (r == size || r < 2 * bytes)
    decreases bytes - size
  {
    if size < bytes then Doubled(2 * size, bytes) else size
  }

  lemma ShippedCapacity()
    ensures Doubled(1, BUF_MAX) == REPLY_CAPACITY
  {
    assert Doubled(8192, BUF_MAX) == REPLY_CAPACITY;
    assert Doubled(2048, BUF_MAX) == REPLY_CAPACITY;
    assert Doubled(512, BUF_MAX) == REPLY_CAPACITY;
    assert Doubled(128, BUF_MAX) == REPLY_CAPACITY;
    assert Doubled(32, BUF_MAX) == REPLY_CAPACITY;
    assert Doubled(8, BUF_MAX) == REPLY_CAPACITY;
    assert Doubled(2, BUF_MAX) == REPLY_CAPACITY;
  }

  /** Whether byte i of data at a position is left out: the first head bytes, and those behind the
      body, are length and status bytes. */
  predicate LeftOut(at: nat, head: nat, body: nat, i: nat) {
    (i < head || i >= head + body) && at + i >= BUF_MAX
  }

  /** The reply buffer after data with a head, a body and a tail was put at a position. */
  function Stored(mem: seq<byte>, at: nat, data: seq<byte>, head: nat, body: nat): (r: seq<byte>)
    requires at + |data| <= |mem|
    ensures |r| == |mem|
    ensures forall i :: 0 <= i < |mem| ==>
              r[i] == if at <= i < at + |data| && !LeftOut(at, head, body, i - at) then data[i - at] else mem[i]
  {
    seq(|mem|, i requires 0 <= i < |mem| =>
      if at <= i < at + |data| && !LeftOut(at, head, body, i - at) then data[i - at] else mem[i])
  }

  /** A length and then a text. */
  lemma HeadThenBody(mem: seq<byte>, at: nat, a: seq<byte>, b: seq<byte>)
    requires at + |a| + |b| <= |mem|
    ensures Stored(Stored(mem, at, a, |a|, 0), at + |a|, b, 0, |b|) == Stored(mem, at, a + b, |a|, |b|)
  {
  }

  /** A status behind the rest of a reply. */
  lemma ThenTail(mem: seq<byte>, at: nat, a: seq<byte>, head: nat, body: nat, tail: seq<byte>)
    requires at + |a| + |tail| <= |mem| && |a| == head + body
    ensures Stored(Stored(mem, at, a, head, body), at + |a|, tail, 0, 0) == Stored(mem, at, a + tail, head, body)
  {
  }

  // ---------------------------------------------------------------- replies

  /** The length bytes a reply starts with. */
  function Head<D>(h: Handlers<D>, s: Session<D>, cmd: Command): nat {
    match cmd
    case Capabilities => |Uleb128.Put(|CapabilityText(h.features)|)|
    case GetError => |Uleb128.Put(|ErrorText(s.client)|)|
    case Edpc(_) => |Uleb128.Put(Try(h, s, cmd).number % TWO32)|
    case _ => 0
  }

  /** The bytes between them and the status. */
  function Body<D>(h: Handlers<D>, s: Session<D>, cmd: Command): nat {
    match cmd
    case GetInfo => |InfoText()| + 1
    case Capabilities => |CapabilityText(h.features)|
    case GetError => |ErrorText(s.client)|
    case Edpc(_) => Try(h, s, cmd).number * 4 % TWO64
    case Shift(bits, _, _) => VectorBytes(bits)
    case SetTck(_) => 4
    case RegisterShift(_, flags, _, count, _) => TdoBytes(flags, count)
    case Mrd(_, _, size) => size
    case _ => 0
  }

  /** Everything a packet puts into the buffer: its reply, and behind the text of getinfo: the
      terminator that snprintf writes. */
  function Written<D>(h: Handlers<D>, s: Session<D>, cmd: Command): seq<byte> {
    Execute(h, s, cmd).reply + if cmd.GetInfo? then [0] else []
  }

  /** The reply buffer after a packet was executed. */
  function After<D>(h: Handlers<D>, s: Session<D>, cmd: Command, mem: seq<byte>, at: nat): (r: seq<byte>)
    requires at + |Written(h, s, cmd)| <= |mem|
    ensures |r| == |mem|
  {
    Stored(mem, at, Written(h, s, cmd), Head(h, s, cmd), Body(h, s, cmd))
  }

  // ---------------------------------------------------------------- the cursor

  /** The reply cursor, and whether the byte there is the terminator that getinfo: left. */
  datatype Cursor = Cursor(at: nat, zero: bool)

  function Moved<D>(h: Handlers<D>, s: Session<D>, cmd: Command, c: Cursor): Cursor {
    var n := |Execute(h, s, cmd).reply|;
    Cursor(c.at + n, if cmd.GetInfo? then true else if n == 0 then c.zero else false)
  }

  predicate Terminated(mem: seq<byte>, c: Cursor) {
    c.zero ==> c.at < |mem| && mem[c.at] == 0
  }

  /** Byte i of a reply is neither stored nor there already. */
  predicate Missed<D>(h: Handlers<D>, s: Session<D>, cmd: Command, c: Cursor, i: nat)
    requires i < |Execute(h, s, cmd).reply|
  {
    && LeftOut(c.at, Head(h, s, cmd), Body(h, s, cmd), i)
    && !(i == 0 && c.zero && Execute(h, s, cmd).reply[0] == 0)
  }

  /** Some byte of a reply is not what it ought to be, unless by chance. */
  predicate Misses<D>(h: Handlers<D>, s: Session<D>, cmd: Command, c: Cursor) {
    exists i :: 0 <= i < |Execute(h, s, cmd).reply| && Missed(h, s, cmd, c, i)
  }

  /** A reply without a missed byte is stored behind the replies before it. */
  lemma StoredRight<D>(h: Handlers<D>, s: Session<D>, cmd: Command, mem: seq<byte>, c: Cursor)
    requires c.at + |Written(h, s, cmd)| <= |mem| && Terminated(mem, c) && !Misses(h, s, cmd, c)
    ensures var r, m := Execute(h, s, cmd).reply, After(h, s, cmd, mem, c.at);
            m[..c.at + |r|] == mem[..c.at] + r && Terminated(m, Moved(h, s, cmd, c))
  {
    hide Execute, Head, InfoText;
    var r, m := Execute(h, s, cmd).reply, After(h, s, cmd, mem, c.at);
    var right := mem[..c.at] + r;
    forall k | 0 <= k < c.at + |r|
      ensures m[k] == right[k]
    {
      if k >= c.at {
        assert !Missed(h, s, cmd, c, k - c.at);
      }
    }
    assert m[..c.at + |r|] == right;
    if cmd.GetInfo? {
      InfoWhole(h, s, cmd);
      assert Written(h, s, cmd)[|r|] == 0;
    }
  }

  lemma InfoWhole<D>(h: Handlers<D>, s: Session<D>, cmd: Command)
    requires cmd.GetInfo?
    ensures Head(h, s, cmd) == 0 && Body(h, s, cmd) == |Written(h, s, cmd)| == |Execute(h, s, cmd).reply| + 1
  {
    hide InfoText;
  }

  /** A missed byte keeps what the memory held, which is not right if that was chosen so. */
  lemma StoredWrong<D>(h: Handlers<D>, s: Session<D>, cmd: Command, mem: seq<byte>, c: Cursor, i: nat)
    requires c.at + |Written(h, s, cmd)| <= |mem| && Terminated(mem, c)
    requires i < |Execute(h, s, cmd).reply| && Missed(h, s, cmd, c, i)
    requires (i == 0 && c.zero) || mem[c.at + i] != Execute(h, s, cmd).reply[i]
    ensures After(h, s, cmd, mem, c.at)[c.at + i] != Execute(h, s, cmd).reply[i]
  {
    hide Execute, Head, Body;
  }

  lemma LongMisses<D>(h: Handlers<D>, s: Session<D>, cmd: Command)
    requires |s.client.pendingError| <= ERROR_MAX && |Execute(h, s, cmd).reply| > BUF_MAX && !cmd.GetInfo?
    requires cmd.Shift? ==> VectorBytes(cmd.bits) <= BUF_MAX
    ensures Misses(h, s, cmd, Cursor(0, false))
  {
    TailFollows(h, s, cmd);
    hide Execute, Head, Body;
    assert Missed(h, s, cmd, Cursor(0, false), |Execute(h, s, cmd).reply| - 1);
  }

  /** A packet answered alone, and rightly, stores nothing from max_packet_len on. */
  lemma AloneShort<D>(h: Handlers<D>, s: Session<D>, cmd: Command)
    requires |s.client.pendingError| <= ERROR_MAX
    requires cmd.Shift? ==> VectorBytes(cmd.bits) <= BUF_MAX
    requires !Misses(h, s, cmd, Cursor(0, false))
    ensures |Written(h, s, cmd)| <= BUF_MAX
  {
    ShortTexts(h, s);
    hide Misses;
    if |Execute(h, s, cmd).reply| > BUF_MAX && !cmd.GetInfo? {
      LongMisses(h, s, cmd);
    }
  }

  lemma ShortTexts<D>(h: Handlers<D>, s: Session<D>)
    requires |s.client.pendingError| <= ERROR_MAX
    ensures |InfoText()| == 21
    ensures |Counted(CapabilityText(h.features))| <= 200 && |Counted(ErrorText(s.client))| <= ERROR_MAX + 2
  {
    assert |Digits(BUF_MAX)| == 5 by {
      assert |Digits(10)| == 2 && |Digits(1000)| == 4;
    }
    assert |CapabilityText(h.features)| <= 100;
    hide CapabilityText;
    assert |ErrorText(s.client)| <= ERROR_MAX;
    Uleb128.PutLength(|CapabilityText(h.features)|, 2) by { Pow2Fourteen(); }
    Uleb128.PutLength(|ErrorText(s.client)|, 2) by { Pow2Fourteen(); }
  }

  lemma Pow2Fourteen()
    ensures Pow2(14) == 16384
  {
    Pow2Eight();
    assert Pow2(6) == 64;
    hide Pow2;
    Pow2Add(8, 6);
  }

  /** A reply longer than max_packet_len ends with a status byte. */
  lemma TailFollows<D>(h: Handlers<D>, s: Session<D>, cmd: Command)
    requires |s.client.pendingError| <= ERROR_MAX && |Execute(h, s, cmd).reply| > BUF_MAX
    requires cmd.Shift? ==> VectorBytes(cmd.bits) <= BUF_MAX
    ensures cmd.GetInfo? || |Execute(h, s, cmd).reply| > Head(h, s, cmd) + Body(h, s, cmd)
  {
    ShortTexts(h, s);
    hide Text, InfoText, CapabilityText, ErrorText, VectorBytes, TdoBytes;
  }

  /** No packet leaves an error longer than its buffer. */
  lemma ErrorStaysShort<D>(h: Handlers<D>, s: Session<D>, cmd: Command)
    requires |s.client.pendingError| <= ERROR_MAX
    ensures |Execute(h, s, cmd).session.client.pendingError| <= ERROR_MAX
  {
    hide Text, InfoText, CapabilityText, Clip, Counted, ErrorText, EdpcReply, DataReply, TdoBytes, VectorBytes;
    if cmd.Configure? {
      ConfigErrorShort(h.features, s.client, SplitFields(UntilNul(cmd.text)));
    }
  }

  lemma {:induction false} ConfigErrorShort(f: Features, c: Client, fields: seq<seq<byte>>)
    requires |c.pendingError| <= ERROR_MAX
    ensures |FoldFields(f, c, fields).pendingError| <= ERROR_MAX
    decreases |fields|
  {
    hide Text, Clip, ParseSetting;
    if fields != [] && c.pendingError == [] {
      ConfigErrorShort(f, ApplySetting(f, c, ParseSetting(fields[0])), fields[1..]);
    }
  }
}
