/** What a connection does in the order it does it: handler calls and sends. */
module Trace {
  import opened Bytes
  import opened Session

  datatype Action = Handler(event: Event) | Sent(data: seq<byte>)

  function CallsOf(trace: seq<Action>): seq<Event> {
    if trace == [] then []
    else
      var last := trace[|trace| - 1];
      CallsOf(trace[..|trace| - 1]) + if last.Handler? then [last.event] else []
  }

  function SentOf(trace: seq<Action>): seq<byte> {
    if trace == [] then []
    else
      var last := trace[|trace| - 1];
      SentOf(trace[..|trace| - 1]) + if last.Sent? then last.data else []
  }

  function ActionsOf(calls: seq<Event>): seq<Action> {
    if calls == [] then [] else [Handler(calls[0])] + ActionsOf(calls[1..])
  }

  /** For each call of the lock handler, the number of bytes already sent. */
  function LockPointsOf(trace: seq<Action>): seq<nat> {
    if trace == [] then []
    else
      var last := trace[|trace| - 1];
      var before := trace[..|trace| - 1];
      LockPointsOf(before) + if last.Handler? && last.event.cmd.Lock? then [|SentOf(before)|] else []
  }

  lemma Snoc(trace: seq<Action>, a: Action)
    ensures CallsOf(trace + [a]) == CallsOf(trace) + if a.Handler? then [a.event] else []
    ensures SentOf(trace + [a]) == SentOf(trace) + if a.Sent? then a.data else []
    ensures LockPointsOf(trace + [a])
         == LockPointsOf(trace) + if a.Handler? && a.event.cmd.Lock? then [|SentOf(trace)|] else []
  {
    assert (trace + [a])[..|trace|] == trace;
  }
}

/** The buffered packet engine: read_packet over a receive buffer, a reply buffer and a socket that
    delivers the input in pieces of any size. */
module Server {
  import opened Bytes
  import Uleb128
  import opened Framing
  import opened Configure
  import opened Session
  import opened Trace
  import opened Laws
  import opened ReplyBuffer
  import opened Batches
  import opened Exactness
  import Wire

  lemma AddModulo(a: nat, b: nat)
    ensures (a % TWO64 + b) % TWO64 == (a + b) % TWO64
  {
  }

  /** One step of the decoder: what the byte at q adds, and what is left to be decoded. */
  lemma UlebStep(view: seq<byte>, q: nat, acc: nat, i: nat, digit: nat)
    requires digit == (if q < |view| then view[q] else 0) % 128 * Pow2(i)
    ensures var n := if q < |view| then view[q] else 0;
            var g, rest := Uleb128.Get(view, q), Uleb128.Get(view, q + 1);
            var now := acc + digit;
            && (n < 128 ==> g.end == q + 1 && acc + Pow2(i) * g.value == now)
            && (n >= 128 ==> g.end == rest.end && acc + Pow2(i) * g.value == now + Pow2(i + 7) * rest.value)
  {
    var n := if q < |view| then view[q] else 0;
    var rest := Uleb128.Get(view, q + 1).value;
    Pow2Add(7, i);
    assert Pow2(7) == 128;
    DigitStep(acc, n % 128, Pow2(i), if n >= 128 then rest else 0);
    assert Uleb128.Get(view, q).value == n % 128 + 128 * if n >= 128 then rest else 0;
  }

  lemma DigitStep(acc: nat, b: nat, scale: nat, rest: nat)
    ensures acc + scale * (b + 128 * rest) == (acc + b * scale) + (128 * scale) * rest
  {
    assert scale * (b + 128 * rest) == scale * b + scale * (128 * rest);
    assert scale * (128 * rest) == (128 * scale) * rest;
    assert scale * b == b * scale;
  }

  /** Values kept modulo 2^64 size and fill a packet the same way as the full ones. */
  lemma FieldsModulo(kind: Kind, full: seq<nat>, kept: seq<nat>, data: seq<byte>)
    requires |full| == |kept| == Arity(kind)
    requires forall i :: 0 <= i < |full| ==> kept[i] == full[i] % TWO64
    ensures Payload(kind, kept) == Payload(kind, full)
    ensures kind != KUnknown && kind != KShift && kind != KSetTck ==>
              FieldCommand(kind, kept, data) == FieldCommand(kind, full, data)
  {
    forall i | 0 <= i < |full|
      ensures kept[i] % TWO64 == full[i] % TWO64 && kept[i] % TWO32 == full[i] % TWO32 && kept[i] % 4 == full[i] % 4
    {
      KeepsLow(full[i]);
    }
  }

  lemma KeepsLow(v: nat)
    ensures v % TWO64 % TWO32 == v % TWO32 && v % TWO64 % 4 == v % 4
  {
    MultipleVanishes(v % TWO64, TWO32, TWO32, v / TWO64);
    MultipleVanishes(v % TWO64, 4, TWO64 / 4, v / TWO64);
    assert v == v % TWO64 + TWO64 * (v / TWO64);
  }

  datatype Outcome =
    | Closed         // the peer closed the connection
    | BadPacket      // protocol error: the connection is dropped
    | ReplyTooLong   // a reply would be written past the end of the reply buffer

  class XvcClient<D> {
    const handlers: Handlers<D>
    // The receive buffer, and one more byte: configure: saves, clears and restores the byte after
    // its packet, which may be the one after the buffer.
    const buf: array<byte>
    var bufLen: nat
    const replyBuf: array<byte>
    var replyLen: nat
    var locked: bool
    var enableLocking: bool
    var enableStatus: bool
    var pendingError: seq<byte>
    var dev: D
    // The socket: bytes not yet received, and the sizes of the pieces to come.
    var unread: seq<byte>
    var cuts: seq<nat>
    var trace: seq<Action>
    // What ought to have been sent, and what ought to be in the reply buffer.
    ghost var settled: seq<byte>
    ghost var ideal: seq<byte>

    ghost predicate Valid()
      reads this
    {
      && buf.Length == BUF_MAX + 1
      && replyBuf.Length == REPLY_CAPACITY
      && buf != replyBuf
      && bufLen <= BUF_MAX
      && replyLen <= REPLY_CAPACITY
      && (enableLocking ==> handlers.features.lock && handlers.features.unlock)
    }

    ghost function TheClient(): Client
      reads this
    {
      Client(locked, enableLocking, enableStatus, pendingError)
    }

    ghost function TheSession(): Session<D>
      reads this
    {
      Session(TheClient(), dev)
    }

    /** The bytes from a cursor to the end of what was received. */
    ghost function View(cbuf: nat): seq<byte>
      requires Valid() && cbuf <= bufLen
      reads this, buf
    {
      buf[cbuf..bufLen]
    }

    ghost function Replies(): seq<byte>
      requires Valid()
      reads this, replyBuf
    {
      replyBuf[..replyLen]
    }

    /** As many bytes were sent as ought to have been, and as many are in the reply buffer. */
    ghost predicate InStep()
      reads this
    {
      |settled| == |SentOf(trace)| && replyLen == |ideal|
    }

    /** Data with a head, a body and a tail was put behind the replies that were there. */
    ghost predicate Wrote(mem: seq<byte>, at: nat, data: seq<byte>, head: nat, body: nat)
      reads this, replyBuf
    {
      && at + |data| <= |mem| && replyLen == at + |data|
      && replyBuf[..] == Stored(mem, at, data, head, body)
    }

    /** reply_buf_size: doubles the size of the reply buffer until it is large enough. */
    static method ReplyBufSize(max: nat, bytes: nat) returns (size: nat)
      ensures size == if max >= bytes then max else Doubled(if max == 0 then 1 else max, bytes)
    {
      size := max;
      if size < bytes {
        if size == 0 {
          size := 1;
        }
        ghost var start := size;
        while size < bytes
          invariant size > 0 && Doubled(start, bytes) == Doubled(size, bytes)
          decreases bytes - size
        {
          size := size * 2;
        }
      }
    }

    /** The reply buffer starts with whatever the memory held. */
    constructor (handlers: Handlers<D>, dev: D, input: seq<byte>, cuts: seq<nat>, stale: byte)
      ensures Valid() && fresh(buf) && fresh(replyBuf)
      ensures this.handlers == handlers && bufLen == 0 && unread == input && this.cuts == cuts && trace == []
      ensures replyLen == 0 && settled == ideal == [] && InStep()
      ensures replyBuf[..] == seq(REPLY_CAPACITY, i => stale)
      ensures TheSession() == Session(Client(false, false, false, []), dev)
    {
      var capacity := ReplyBufSize(0, BUF_MAX);
      ShippedCapacity();
      this.handlers := handlers;
      buf := new byte[BUF_MAX + 1](_ => 0);
      replyBuf := new byte[capacity](_ => stale);
      bufLen, replyLen := 0, 0;
      locked, enableLocking, enableStatus, pendingError := false, false, false, [];
      this.dev := dev;
      unread := input;
      this.cuts := cuts;
      trace, settled, ideal := [], [], [];
    }

    // ------------------------------------------------------------ reading fields

    method FindColon(cbuf: nat) returns (p: nat)
      requires Valid() && cbuf <= bufLen
      ensures cbuf <= p <= bufLen && p - cbuf == ColonFrom(View(cbuf), 0)
    {
      var e := if cbuf + NAME_MAX < bufLen then cbuf + NAME_MAX else bufLen;
      p := cbuf;
      while p < e && buf[p] != COLON
        invariant cbuf <= p <= e
        invariant ColonFrom(View(cbuf), p - cbuf) == ColonFrom(View(cbuf), 0)
      {
        p := p + 1;
      }
    }

    method GetUleb128(p: nat, ghost cbuf: nat) returns (value: nat, q: nat)
      requires Valid() && cbuf <= bufLen && cbuf <= p
      ensures q > p && q - cbuf == Uleb128.Get(View(cbuf), p - cbuf).end
      ensures value == Uleb128.Get(View(cbuf), p - cbuf).value % TWO64
    {
      assert Pow2(0) == 1;
      hide Pow2, Uleb128.Get;
      value, q := 0, p;
      var i := 0;
      var more := true;
      ghost var view := View(cbuf);
      ghost var goal := Uleb128.Get(view, p - cbuf);
      ghost var acc: nat := 0;
      while more
        invariant p <= q && (more ==> cbuf <= q)
        invariant value == acc % TWO64
        invariant more ==> goal.value == acc + Pow2(i) * Uleb128.Get(view, q - cbuf).value
        invariant more ==> goal.end == Uleb128.Get(view, q - cbuf).end
        invariant !more ==> goal.value == acc && goal.end == q - cbuf && q > p
        decreases more, bufLen - q
      {
        var n := if q < bufLen then buf[q] else 0;
        assert q < bufLen ==> n == view[q - cbuf];
        var digit := n % 128 * Pow2(i);
        UlebStep(view, q - cbuf, acc, i, digit);
        AddModulo(acc, digit);
        acc := acc + digit;
        value := (value + digit) % TWO64;
        q := q + 1;
        i := i + 7;
        more := n >= 128;
      }
    }

    method GetUintLe(p: nat, n: nat) returns (value: nat)
      requires Valid() && p + n <= bufLen
      ensures value == FromLe(buf[p..p + n])
    {
      value := 0;
      var len: nat := n;
      while len > 0
        invariant len <= n
        invariant value == FromLe(buf[p + len..p + n])
      {
        len := len - 1;
        assert buf[p + len..p + n][1..] == buf[p + len + 1..p + n];
        value := value * 256 + buf[p + len];
      }
    }

    // ------------------------------------------------------------ writing replies

    method PutBytes(data: seq<byte>)
      requires Valid() && replyLen + |data| <= REPLY_CAPACITY
      modifies this`replyLen, replyBuf
      ensures Valid() && Wrote(old(replyBuf[..]), old(replyLen), data, 0, |data|)
    {
      ghost var mem := replyBuf[..];
      var i := 0;
      while i < |data|
        invariant i <= |data| && replyLen == old(replyLen)
        invariant forall k :: 0 <= k < REPLY_CAPACITY ==>
                    replyBuf[k] == if replyLen <= k < replyLen + i then data[k - replyLen] else mem[k]
        modifies replyBuf
      {
        replyBuf[replyLen + i] := data[i];
        i := i + 1;
      }
      assert replyBuf[..] == Stored(mem, replyLen, data, 0, |data|);
      replyLen := replyLen + |data|;
    }

    /** Beyond max_packet_len the status is counted but not stored. */
    method ReplyStatus()
      requires Valid() && replyLen + 1 <= REPLY_CAPACITY
      modifies this`replyLen, replyBuf
      ensures Valid() && Wrote(old(replyBuf[..]), old(replyLen), [StatusByte(TheClient())], 0, 0)
    {
      ghost var mem := replyBuf[..];
      if replyLen < BUF_MAX {
        replyBuf[replyLen] := if pendingError != [] then 1 else 0;
      }
      assert replyBuf[..] == Stored(mem, replyLen, [StatusByte(TheClient())], 0, 0);
      replyLen := replyLen + 1;
    }

    /** Digits beyond max_packet_len are counted but not stored. */
    method ReplyUleb128(v: nat)
      requires Valid() && replyLen + |Uleb128.Put(v)| <= REPLY_CAPACITY
      modifies this`replyLen, replyBuf
      ensures Valid() && Wrote(old(replyBuf[..]), old(replyLen), Uleb128.Put(v), |Uleb128.Put(v)|, 0)
    {
      ghost var mem, all := replyBuf[..], Uleb128.Put(v);
      hide Uleb128.Put;
      var value, pos := v, 0;
      var more := true;
      while more
        invariant pos <= |all| && replyLen == old(replyLen)
        invariant forall k :: 0 <= k < REPLY_CAPACITY ==>
                    replyBuf[k] == if replyLen <= k < replyLen + pos && k < BUF_MAX then all[k - replyLen] else mem[k]
        invariant more ==> all[pos..] == Uleb128.Put(value)
        invariant !more ==> pos == |all|
        decreases more, value
        modifies replyBuf
      {
        Uleb128.FirstDigit(value);
        assert all[pos] == all[pos..][0] && all[pos + 1..] == all[pos..][1..];
        if replyLen + pos < BUF_MAX {
          replyBuf[replyLen + pos] := if value >= 128 then value % 128 + 128 else value % 128;
        }
        value := value / 128;
        pos := pos + 1;
        more := value != 0;
      }
      assert replyBuf[..] == Stored(mem, replyLen, all, |all|, 0);
      replyLen := replyLen + pos;
    }

    method SetUintLe(n: nat, v: nat)
      requires Valid() && replyLen + n <= REPLY_CAPACITY
      modifies this`replyLen, replyBuf
      ensures Valid() && Wrote(old(replyBuf[..]), old(replyLen), ToLe(n, v), 0, n)
    {
      var value, i := v, 0;
      ghost var mem, all := replyBuf[..], ToLe(n, v);
      while i < n
        invariant i <= n && replyLen == old(replyLen)
        invariant forall k :: 0 <= k < REPLY_CAPACITY ==>
                    replyBuf[k] == if replyLen <= k < replyLen + i then all[k - replyLen] else mem[k]
        invariant all[i..] == ToLe(n - i, value)
        modifies replyBuf
      {
        assert all[i] == all[i..][0] && all[i + 1..] == all[i..][1..];
        replyBuf[replyLen + i] := value % 256;
        value := value / 256;
        i := i + 1;
      }
      assert replyBuf[..] == Stored(mem, replyLen, all, 0, n);
      replyLen := replyLen + n;
    }

    // ------------------------------------------------------------ configuration text, in place

    /** The assignments and errors of one configuration field. */
    method ApplyField(key: seq<byte>, switch: Switch)
      requires Valid()
      modifies this`enableLocking, this`enableStatus, this`pendingError
      ensures Valid()
      ensures TheClient() == ApplySetting(handlers.features, old(TheClient()), Setting(key, switch))
    {
      hide Text, Clip;
      if key == Ascii("locking") && handlers.features.lock && handlers.features.unlock {
        if switch == Neither {
          pendingError := Clip(Text(LockingNeedsSwitch));
        } else {
          enableLocking := switch == On;
        }
      } else if key == Ascii("status") {
        if switch == Neither {
          pendingError := Clip(Text(StatusNeedsSwitch));
        } else {
          enableStatus := switch == On;
        }
      } else {
        pendingError := Clip(Text(Unexpected) + key);
      }
    }

    /** get_field: ends the field at config with a zero byte and steps over it. */
    method GetField(config: nat, pktend: nat) returns (end: nat, s: nat)
      requires Valid() && config < pktend <= bufLen && buf[pktend] == 0 && buf[config] != 0
      modifies buf
      ensures config <= end <= pktend && end <= s <= pktend && s > config
      ensures s == if old(buf[end]) == COMMA then end + 1 else end
      ensures old(buf[end]) == COMMA || old(buf[end]) == 0
      ensures forall k :: config <= k < end ==> old(buf[k]) != 0 && old(buf[k]) != COMMA
      ensures buf[end] == 0 && buf[pktend] == 0
      ensures forall i :: 0 <= i < buf.Length && i != end ==> buf[i] == old(buf[i])
    {
      end := config;
      while buf[end] != 0 && buf[end] != COMMA
        invariant config <= end <= pktend
        invariant forall k :: config <= k < end ==> buf[k] != 0 && buf[k] != COMMA
        decreases pktend - end
      {
        end := end + 1;
      }
      s := end;
      if buf[s] != 0 {
        buf[s] := 0;
        s := s + 1;
      }
    }

    /** Splits the zero-terminated field into key and switch, cutting it in place. */
    method StripField(config: nat, end: nat) returns (key: seq<byte>, switch: Switch)
      requires Valid() && config <= end <= bufLen && buf[end] == 0
      requires forall k :: config <= k < end ==> buf[k] != 0
      modifies buf
      ensures Setting(key, switch) == ParseSetting(old(buf[config..end]))
      ensures forall i :: 0 <= i < buf.Length && !(config <= i < end) ==> buf[i] == old(buf[i])
    {
      ghost var field := buf[config..end];
      var assign := config;
      while buf[assign] != 0 && buf[assign] != ASSIGN
        invariant config <= assign <= end
        invariant forall k :: config <= k < assign ==> buf[k] != ASSIGN
        decreases end - assign
      {
        assign := assign + 1;
      }
      IndexOfUnique(field, ASSIGN, assign - config);
      switch := Neither;
      var keyEnd := end;
      if buf[assign] == ASSIGN {
        buf[assign] := 0;
        keyEnd := assign;
      } else if end - config > 1 {
        if buf[end - 1] == PLUS {
          switch := On;
        } else if buf[end - 1] == MINUS {
          switch := Off;
        }
        buf[end - 1] := 0;
        keyEnd := end - 1;
      }
      key := buf[config..keyEnd];
      assert |key| == keyEnd - config && forall k :: 0 <= k < |key| ==> key[k] == field[k];
      assert key == field[..keyEnd - config];
    }

    /** Takes and applies the field at config. */
    method ConfigStep(config: nat, pktend: nat) returns (s: nat)
      requires Valid() && config < pktend <= bufLen && buf[pktend] == 0 && buf[config] != 0
      requires pendingError == []
      modifies this`enableLocking, this`enableStatus, this`pendingError, buf
      ensures Valid() && config < s <= pktend && buf[pktend] == 0
      ensures var f, b := handlers.features, old(buf[config..pktend]);
              && FoldFields(f, old(TheClient()), SplitFields(UntilNul(b)))
              == FoldFields(f, TheClient(), SplitFields(UntilNul(b[s - config..])))
      ensures forall i :: 0 <= i < buf.Length && !(config <= i < s) ==> buf[i] == old(buf[i])
    {
      hide ApplySetting, ParseSetting, SplitFields, UntilNul, FoldFields;
      ghost var b := buf[config..pktend];
      ghost var client := TheClient();
      assert b[0] == buf[config];
      var end;
      end, s := GetField(config, pktend);
      assert buf[config..end] == b[..end - config];
      FieldAt(b, end - config);
      var key, switch := StripField(config, end);
      ApplyField(key, switch);
      FoldStep(handlers.features, client, b[..end - config], SplitFields(UntilNul(b[s - config..])));
    }

    /** Parses the text of a configure: packet destructively; nothing outside the text changes. */
    method ParseConfig(p: nat, pktend: nat)
      requires Valid() && p <= pktend <= bufLen
      modifies this`enableLocking, this`enableStatus, this`pendingError, buf
      ensures Valid()
      ensures TheClient() == ApplyConfig(handlers.features, old(TheClient()), old(buf[p..pktend]))
      ensures forall i :: 0 <= i < buf.Length && !(p <= i < pktend) ==> buf[i] == old(buf[i])
    {
      hide ApplySetting, ParseSetting, SplitFields, UntilNul;
      ghost var body := buf[p..pktend];
      ghost var f := handlers.features;
      ghost var goal := FoldFields(f, TheClient(), SplitFields(UntilNul(body)));
      var oldc := buf[pktend];
      buf[pktend] := 0;
      var s := p;
      assert body[s - p..] == body;
      // The source leaves the loop right after an error; the loop guard does the same here.
      while buf[s] != 0 && pendingError == []
        invariant Valid() && p <= s <= pktend && buf[pktend] == 0
        invariant buf[s..pktend] == body[s - p..]
        invariant goal == FoldFields(f, TheClient(), SplitFields(UntilNul(body[s - p..])))
        invariant forall i :: 0 <= i < buf.Length && !(p <= i <= pktend) ==> buf[i] == old(buf[i])
        decreases pktend - s
        modifies this`enableLocking, this`enableStatus, this`pendingError, buf
      {
        ghost var config := s;
        s := ConfigStep(s, pktend);
        assert body[s - p..] == body[config - p..][s - config..];
      }
      NothingLeft(f, TheClient(), body[s - p..]);
      assert s < pktend ==> body[s - p..][0] == buf[s];
      buf[pktend] := oldc;
    }

    // ------------------------------------------------------------ executing one packet

    method CallHandler(cmd: Command) returns (data: seq<byte>, number: nat)
      requires Valid() && pendingError == []
      modifies this`dev, this`pendingError, this`trace
      ensures Valid()
      ensures var a := Try(handlers, old(TheSession()), cmd);
              && TheSession() == a.session && data == a.data && number == a.number
              && trace == old(trace) + ActionsOf(a.calls)
    {
      var r := handlers.respond(dev, cmd);
      dev := r.dev;
      pendingError := Clip(r.error);
      data, number := r.data, r.number;
      trace := trace + [Handler(Called(cmd, pendingError == []))];
    }

    /** A command answered with n bytes of data, as shift:, mrd: and the register shifts are. */
    method DataCommand(cmd: Command, n: nat)
      requires Valid() && replyLen + n <= REPLY_CAPACITY
      modifies this`dev, this`pendingError, this`trace, this`replyLen, replyBuf
      ensures Valid()
      ensures var e := DataEffect(handlers, old(TheSession()), cmd, n);
              && TheSession() == e.session && Wrote(old(replyBuf[..]), old(replyLen), e.reply, 0, n)
              && trace == old(trace) + ActionsOf(e.calls)
    {
      var data, number := [], 0;
      if pendingError == [] {
        data, number := CallHandler(cmd);
      }
      if pendingError != [] {
        PutBytes(Zeros(n));
      } else {
        PutBytes(Fit(data, n));
      }
    }

    method DataStatusCommand(cmd: Command, n: nat, optional: bool)
      requires Valid()
      requires replyLen + |StatusOn(DataEffect(handlers, TheSession(), cmd, n), optional).reply| <= REPLY_CAPACITY
      modifies this`dev, this`pendingError, this`trace, this`replyLen, replyBuf
      ensures Valid()
      ensures var e := StatusOn(DataEffect(handlers, old(TheSession()), cmd, n), optional);
              && TheSession() == e.session && Wrote(old(replyBuf[..]), old(replyLen), e.reply, 0, n)
              && trace == old(trace) + ActionsOf(e.calls)
    {
      hide Try;
      ghost var mem, at, data := replyBuf[..], replyLen, DataEffect(handlers, TheSession(), cmd, n).reply;
      DataCommand(cmd, n);
      if !optional || enableStatus {
        ReplyStatus();
        ThenTail(mem, at, data, 0, n, [StatusByte(TheClient())]);
      }
    }

    static ghost function StatusOn(e: Effect<D>, optional: bool): Effect<D> {
      if optional then WithOptionalStatus(e) else WithStatus(e)
    }

    method SetTckCommand(cmd: Command, period: nat)
      requires Valid()
      requires replyLen + |ExecuteSetTck(handlers, TheSession(), cmd, period).reply| <= REPLY_CAPACITY
      modifies this`dev, this`pendingError, this`trace, this`replyLen, replyBuf
      ensures Valid()
      ensures var e := ExecuteSetTck(handlers, old(TheSession()), cmd, period);
              && TheSession() == e.session && Wrote(old(replyBuf[..]), old(replyLen), e.reply, 0, 4)
              && trace == old(trace) + ActionsOf(e.calls)
    {
      var data, result := [], 0;
      if pendingError == [] {
        data, result := CallHandler(cmd);
      }
      if pendingError != [] {
        result := period;
      }
      ghost var mem, at := replyBuf[..], replyLen;
      SetUintLe(4, result);
      if enableStatus {
        ReplyStatus();
        ThenTail(mem, at, ToLe(4, result), 0, 4, [StatusByte(TheClient())]);
      }
    }

    method EdpcCommand(cmd: Command)
      requires Valid() && cmd.Edpc?
      requires replyLen + |ExecuteEdpc(handlers, TheSession(), cmd).reply| <= REPLY_CAPACITY
      modifies this`dev, this`pendingError, this`trace, this`replyLen, replyBuf
      ensures Valid()
      ensures var a, e := Try(handlers, old(TheSession()), cmd), ExecuteEdpc(handlers, old(TheSession()), cmd);
              && TheSession() == e.session
              && Wrote(old(replyBuf[..]), old(replyLen), e.reply,
                       |Uleb128.Put(a.number % TWO32)|, a.number * 4 % TWO64)
              && trace == old(trace) + ActionsOf(e.calls)
    {
      var data, words := [], 0;
      if pendingError == [] {
        data, words := CallHandler(cmd);
      }
      ghost var a := Try(handlers, old(TheSession()), cmd);
      ghost var mem, at := replyBuf[..], replyLen;
      PutEdpcReply(data, words, a);
      ReplyStatus();
      ThenTail(mem, at, EdpcReply(a), |Uleb128.Put(a.number % TWO32)|, a.number * 4 % TWO64, [StatusByte(TheClient())]);
    }

    method PutEdpcReply(data: seq<byte>, words: nat, ghost a: Attempt<D>)
      requires Valid() && a.session == TheSession() && a.number == words && a.data == data
      requires replyLen + |EdpcReply(a)| <= REPLY_CAPACITY
      modifies this`replyLen, replyBuf
      ensures Valid()
      ensures Wrote(old(replyBuf[..]), old(replyLen), EdpcReply(a), |Uleb128.Put(words % TWO32)|, words * 4 % TWO64)
    {
      hide Fit, Zeros, Uleb128.Put;
      ghost var mem, at := replyBuf[..], replyLen;
      var n := words * 4 % TWO64;
      ReplyUleb128(words % TWO32);
      if pendingError != [] {
        PutBytes(Zeros(n));
      } else {
        PutBytes(Fit(data, n));
      }
      HeadThenBody(mem, at, Uleb128.Put(words % TWO32), DataReply(a, n));
    }

    /** The lock handler is only reached with an empty reply buffer. */
    method LockCommand(cmd: Command)
      requires Valid() && cmd.Lock? && replyLen == 0
      modifies this`dev, this`pendingError, this`trace, this`locked, this`replyLen, replyBuf
      ensures Valid()
      ensures var e := WithStatus(ExecuteLock(handlers, old(TheSession()), cmd));
              && TheSession() == e.session && Wrote(old(replyBuf[..]), old(replyLen), e.reply, 0, 0)
              && trace == old(trace) + ActionsOf(e.calls)
    {
      hide Text, Clip;
      if pendingError == [] {
        if !enableLocking {
          pendingError := Clip(Text(LockingDisabled));
        } else if locked {
          pendingError := Clip(Text(AlreadyLocked));
        } else {
          assert handlers.features.lock;
          var data, number := CallHandler(cmd);
          if pendingError == [] {
            locked := true;
          }
        }
      }
      ghost var reply := [StatusByte(TheClient())];
      assert [] + reply == reply;
      ReplyStatus();
    }

    method UnlockCommand()
      requires Valid() && replyLen + 1 <= REPLY_CAPACITY
      modifies this`dev, this`pendingError, this`trace, this`locked, this`replyLen, replyBuf
      ensures Valid()
      ensures var e := WithStatus(ExecuteUnlock(handlers, old(TheSession())));
              && TheSession() == e.session && Wrote(old(replyBuf[..]), old(replyLen), e.reply, 0, 0)
              && trace == old(trace) + ActionsOf(e.calls)
    {
      hide Text, Clip;
      if pendingError == [] {
        if !enableLocking {
          pendingError := Clip(Text(LockingDisabled));
        } else if !locked {
          pendingError := Clip(Text(AlreadyUnlocked));
        } else {
          assert handlers.features.unlock;
          var data, number := CallHandler(Unlock);
          if pendingError == [] {
            locked := false;
          }
        }
      }
      ghost var reply := [StatusByte(TheClient())];
      assert [] + reply == reply;
      ReplyStatus();
    }

    /** A text preceded by its length. */
    method PutCounted(text: seq<byte>)
      requires Valid() && replyLen + |Counted(text)| <= REPLY_CAPACITY
      modifies this`replyLen, replyBuf
      ensures Valid()
      ensures Wrote(old(replyBuf[..]), old(replyLen), Counted(text), |Uleb128.Put(|text|)|, |text|)
    {
      hide Uleb128.Put;
      ghost var mem, at := replyBuf[..], replyLen;
      ReplyUleb128(|text|);
      PutBytes(text);
      HeadThenBody(mem, at, Uleb128.Put(|text|), text);
    }

    /** error: the pending text with its length, cut to what the buffer could hold. */
    method ErrorCommand()
      requires Valid() && replyLen + |Counted(ErrorText(TheClient()))| <= REPLY_CAPACITY
      modifies this`pendingError, this`replyLen, replyBuf
      ensures Valid()
      ensures TheSession() == old(TheSession()).(client := old(TheClient()).(pendingError := []))
      ensures var text := ErrorText(old(TheClient()));
              Wrote(old(replyBuf[..]), old(replyLen), Counted(text), |Uleb128.Put(|text|)|, |text|)
    {
      var n := |pendingError|;
      var bytes := n;
      if BUF_MAX >= (n + 127) / 128 && bytes > BUF_MAX - (n + 127) / 128 {
        bytes := BUF_MAX - (n + 127) / 128;
      }
      assert pendingError[..bytes] == ErrorText(TheClient());
      hide Counted, ErrorText, Uleb128.Put;
      PutCounted(pendingError[..bytes]);
      pendingError := [];
    }

    /** getinfo: the text and its terminator, which the cursor does not step over. */
    method InfoCommand()
      requires Valid() && replyLen + |InfoText()| + 1 <= REPLY_CAPACITY
      modifies this`replyLen, replyBuf
      ensures Valid() && replyLen == old(replyLen) + |InfoText()|
      ensures replyBuf[..] == Stored(old(replyBuf[..]), old(replyLen), InfoText() + [0], 0, |InfoText()| + 1)
    {
      hide InfoText;
      PutBytes(InfoText() + [0]);
      replyLen := replyLen - 1;
    }

    method ConfigureCommand(p: nat, pktend: nat)
      requires Valid() && p <= pktend <= bufLen && replyLen + 1 <= REPLY_CAPACITY
      modifies this`enableLocking, this`enableStatus, this`pendingError, this`replyLen, buf, replyBuf
      ensures Valid()
      ensures TheClient() == ApplyConfig(handlers.features, old(TheClient()), old(buf[p..pktend]))
      ensures Wrote(old(replyBuf[..]), old(replyLen), [StatusByte(TheClient())], 0, 0)
      ensures forall i :: 0 <= i < buf.Length && !(p <= i < pktend) ==> buf[i] == old(buf[i])
    {
      ParseConfig(p, pktend);
      ReplyStatus();
    }

    /** The packets that are answered with a number of bytes of data known from the request, and a
        status. */
    method DataPacket(cmd: Command)
      requires Valid() && (cmd.RegisterShift? || cmd.State? || cmd.Mrd? || cmd.Mwr? || cmd.Idpc?)
      requires !Overflows(handlers, TheSession(), cmd, replyLen)
      modifies this`dev, this`pendingError, this`trace, this`replyLen, replyBuf
      ensures Valid()
      ensures var e := Execute(handlers, old(TheSession()), cmd);
              && TheSession() == e.session && replyLen == old(replyLen) + |e.reply|
              && trace == old(trace) + ActionsOf(e.calls)
      ensures replyBuf[..] == After(handlers, old(TheSession()), cmd, old(replyBuf[..]), old(replyLen))
    {
      hide DataEffect, VectorBytes, TdoBytes, Stored, Try, StatusByte;
      match cmd
      case RegisterShift(_, flags, _, count, _) => DataStatusCommand(cmd, TdoBytes(flags, count), false);
      case Mrd(_, _, size) => DataStatusCommand(cmd, size, false);
      case State(_, _, _) => DataStatusCommand(cmd, 0, false);
      case Mwr(_, _, _, _) => DataStatusCommand(cmd, 0, false);
      case Idpc(_, _, _) => DataStatusCommand(cmd, 0, false);
    }

    /** Runs the handler of a complete packet and appends its reply. The bytes after the packet stay
        as they are. */
    method ExecutePacket(cmd: Command, p: nat, pktend: nat)
      requires Valid() && p <= pktend <= bufLen
      requires cmd.Configure? ==> cmd.text == buf[p..pktend]
      requires cmd.Lock? ==> replyLen == 0
      requires !Overflows(handlers, TheSession(), cmd, replyLen)
      modifies this`dev, this`pendingError, this`trace, this`locked, this`enableLocking,
               this`enableStatus, this`replyLen, buf, replyBuf
      ensures Valid()
      ensures var e := Execute(handlers, old(TheSession()), cmd);
              && TheSession() == e.session && replyLen == old(replyLen) + |e.reply|
              && trace == old(trace) + ActionsOf(e.calls)
      ensures replyBuf[..] == After(handlers, old(TheSession()), cmd, old(replyBuf[..]), old(replyLen))
      ensures forall i :: 0 <= i < buf.Length && !(p <= i < pktend) ==> buf[i] == old(buf[i])
    {
      hide Text, InfoText, CapabilityText, ApplyConfig, ExecuteLock, ExecuteUnlock, ErrorText, Counted, Uleb128.Put;
      hide DataEffect, ExecuteSetTck, ExecuteEdpc, WithOptionalStatus, VectorBytes, TdoBytes, Stored, Try, StatusByte;
      assert trace + [] == trace;
      match cmd
      case GetInfo => InfoCommand();
      case Capabilities => PutCounted(CapabilityText(handlers.features));
      case Configure(text) => ConfigureCommand(p, pktend);
      case GetError => ErrorCommand();
      case Lock(_) => LockCommand(cmd);
      case Unlock => UnlockCommand();
      case SetTck(period) => SetTckCommand(cmd, period);
      case Shift(bits, _, _) => DataStatusCommand(cmd, VectorBytes(bits), true);
      case Edpc(_) => EdpcCommand(cmd);
      case _ => DataPacket(cmd);
    }

    // ------------------------------------------------------------ framing

    method GetFields(p: nat, k: nat, ghost cbuf: nat) returns (vals: seq<nat>, q: nat)
      requires Valid() && cbuf <= bufLen && cbuf <= p
      ensures var full := Uleb128.Fields(View(cbuf), p - cbuf, k);
              && |vals| == k && q - cbuf == full.end
              && forall i :: 0 <= i < k ==> vals[i] == full.vals[i] % TWO64
    {
      vals, q := [], p;
      ghost var view := View(cbuf);
      ghost var full := Uleb128.Fields(view, p - cbuf, k);
      while |vals| < k
        invariant |vals| <= k && cbuf <= q
        invariant full.end == Uleb128.Fields(view, q - cbuf, k - |vals|).end
        invariant full.vals[|vals|..] == Uleb128.Fields(view, q - cbuf, k - |vals|).vals
        invariant forall i :: 0 <= i < |vals| ==> vals[i] == full.vals[i] % TWO64
        decreases k - |vals|
      {
        ghost var j := |vals|;
        ghost var rest := Uleb128.Fields(view, q - cbuf, k - j);
        var v;
        v, q := GetUleb128(q, cbuf);
        assert full.vals[j] == rest.vals[0];
        assert full.vals[j + 1..] == rest.vals[1..];
        vals := vals + [v];
      }
    }

    /** Looks at the bytes from cbuf on. The size assertions of the source hold here because no
        packet of a conforming stream is oversized. */
    method NextPacket(cbuf: nat) returns (frame: Frame, cmd: Command, p: nat, pktend: nat)
      requires Valid() && cbuf <= bufLen
      requires !NextFrame(handlers.features, View(cbuf)).Oversized?
      ensures frame == NextFrame(handlers.features, View(cbuf))
      ensures frame.Packet? ==>
                && cmd == NextCommand(handlers.features, View(cbuf))
                && cbuf <= p <= pktend <= bufLen && pktend == cbuf + frame.end
                && (cmd.Configure? ==> cmd.text == buf[p..pktend])
    {
      hide Keyword, NextFrame, NextCommand, FrameAfterName, CommandAt, PacketEnd, ColonFrom;
      frame, cmd, pktend := Fill, GetInfo, cbuf;
      p := FindColon(cbuf);
      AtName(handlers.features, View(cbuf));
      if p - cbuf >= NAME_MAX {
        frame := Malformed;
        return;
      }
      if p >= bufLen {
        return;
      }
      p := p + 1;
      ViewSlice(cbuf, 0, p - cbuf);
      var kind := Keyword(handlers.features, buf[cbuf..p]);
      if kind == KUnknown {
        frame := Malformed;
      } else if kind == KShift {
        frame, cmd, pktend := ShiftPacket(cbuf, p);
      } else if kind == KSetTck {
        frame, cmd, pktend := SetTckPacket(cbuf, p);
      } else {
        frame, cmd, p, pktend := FieldPacket(cbuf, p, kind);
      }
    }

    method SetTckPacket(cbuf: nat, p: nat) returns (frame: Frame, cmd: Command, pktend: nat)
      requires Valid() && cbuf < p <= bufLen
      requires !FrameAfterName(KSetTck, View(cbuf), p - cbuf).Oversized?
      ensures frame == FrameAfterName(KSetTck, View(cbuf), p - cbuf)
      ensures frame.Packet? ==>
                && cmd == CommandAt(KSetTck, View(cbuf), p - cbuf) && cmd.SetTck?
                && pktend == cbuf + frame.end && p <= pktend <= bufLen
    {
      frame, cmd, pktend := Fill, GetInfo, p + 4;
      if bufLen < p + 4 {
        return;
      }
      var period := GetUintLe(p, 4);
      ViewSlice(cbuf, p - cbuf, p - cbuf + 4);
      frame, cmd := Packet(KSetTck, pktend - cbuf), SetTck(period);
    }

    method ShiftPacket(cbuf: nat, p: nat) returns (frame: Frame, cmd: Command, pktend: nat)
      requires Valid() && cbuf < p <= bufLen
      requires !FrameAfterName(KShift, View(cbuf), p - cbuf).Oversized?
      ensures frame == FrameAfterName(KShift, View(cbuf), p - cbuf)
      ensures frame.Packet? ==>
                && cmd == CommandAt(KShift, View(cbuf), p - cbuf) && cmd.Shift?
                && pktend == cbuf + frame.end && p <= pktend <= bufLen
    {
      hide FromLe, FrameAfterName, CommandAt, PacketEnd, VectorBytes, Keyword, ColonFrom;
      ghost var view, pos := View(cbuf), p - cbuf;
      frame, cmd, pktend := Fill, GetInfo, p + 4;
      if bufLen < p + 4 {
        AtShortShift(view, pos);
        return;
      }
      var bits := GetUintLe(p, 4);
      ViewSlice(cbuf, pos, pos + 4);
      AtShift(view, pos, bits);
      var bytes := VectorBytes(bits);
      pktend := p + 4 + bytes * 2;
      if bufLen < pktend {
        assert pktend - cbuf <= BUF_MAX;
        return;
      }
      frame := Packet(KShift, pktend - cbuf);
      cmd := TakeVectors(cbuf, p + 4, bits, bytes);
    }

    method TakeVectors(cbuf: nat, p: nat, bits: nat, bytes: nat) returns (cmd: Command)
      requires Valid() && cbuf <= p && p + 2 * bytes <= bufLen
      ensures var view, pos := View(cbuf), p - cbuf;
              cmd == Shift(bits, view[pos..pos + bytes], view[pos + bytes..pos + 2 * bytes])
    {
      ViewSlice(cbuf, p - cbuf, p - cbuf + bytes);
      ViewSlice(cbuf, p - cbuf + bytes, p - cbuf + 2 * bytes);
      cmd := Shift(bits, buf[p..p + bytes], buf[p + bytes..p + 2 * bytes]);
    }

    lemma ViewSlice(cbuf: nat, x: nat, y: nat)
      requires Valid() && cbuf <= bufLen && x <= y <= bufLen - cbuf
      ensures View(cbuf)[x..y] == buf[cbuf + x..cbuf + y]
    {
      SliceOfSlice(buf[..], cbuf, bufLen, x, y);
      assert View(cbuf) == buf[..][cbuf..bufLen];
      assert buf[..][cbuf + x..cbuf + y] == buf[cbuf + x..cbuf + y];
    }

    method FieldPacket(cbuf: nat, p: nat, kind: Kind) returns (frame: Frame, cmd: Command, q: nat, pktend: nat)
      requires Valid() && cbuf < p <= bufLen
      requires kind != KUnknown && kind != KShift && kind != KSetTck
      requires !FrameAfterName(kind, View(cbuf), p - cbuf).Oversized?
      ensures frame == FrameAfterName(kind, View(cbuf), p - cbuf)
      ensures frame.Packet? ==>
                && cmd == CommandAt(kind, View(cbuf), p - cbuf) && pktend == cbuf + frame.end
                && cbuf <= q <= pktend <= bufLen
                && (cmd.Configure? ==> cmd.text == buf[q..pktend])
    {
      hide Payload, FieldCommand, Uleb128.Fields, Uleb128.Get;
      ghost var view := View(cbuf);
      ghost var full := Uleb128.Fields(view, p - cbuf, Arity(kind));
      frame, cmd := Fill, GetInfo;
      var vals;
      vals, q := GetFields(p, Arity(kind), cbuf);
      FieldsModulo(kind, full.vals, vals, []);
      pktend := q + Payload(kind, vals);
      if bufLen < pktend {
        assert Admissible(kind, pktend - cbuf);
        return;
      }
      var data := buf[q..pktend];
      ViewSlice(cbuf, q - cbuf, pktend - cbuf);
      FieldsModulo(kind, full.vals, vals, data);
      frame := Packet(kind, pktend - cbuf);
      cmd := FieldCommand(kind, vals, data);
      OnlyConfigure(kind, vals, data);
    }

    // ------------------------------------------------------------ the two loops

    /** Everything observable about the packets executed so far, and what they ought to be answered. */
    ghost function Now(): Progress<D>
      reads this
    {
      Progress(TheSession(), CallsOf(trace), settled + ideal, LockPointsOf(trace))
    }

    /** The stream that is still to be executed. */
    ghost function Pending(cbuf: nat): seq<byte>
      requires Valid() && cbuf <= bufLen
      reads this, buf
    {
      View(cbuf) + unread
    }

    /** One pass of the inner loop: executes the packet at cbuf if it is complete. */
    method ParseOne(cbuf: nat) returns (step: Step, next: nat)
      requires Valid() && InStep() && cbuf <= bufLen && Conforming(handlers.features, Pending(cbuf))
      modifies this`dev, this`pendingError, this`trace, this`locked, this`enableLocking,
               this`enableStatus, this`replyLen, this`ideal, buf, replyBuf
      ensures Valid() && InStep()
      ensures SentOf(trace) == old(SentOf(trace))
      ensures step == Done ==>
                && cbuf < next <= bufLen
                && Run(handlers, old(Now()), old(Pending(cbuf))) == Run(handlers, Now(), Pending(next))
                && Conforming(handlers.features, Pending(next))
                && View(next) == old(View(cbuf))[next - cbuf..]
      ensures step != Done ==>
                Now() == old(Now()) && Pending(cbuf) == old(Pending(cbuf)) && View(cbuf) == old(View(cbuf))
      ensures step != Done ==> replyLen == old(replyLen) && next == cbuf
      ensures step == NeedFill <==> NextFrame(handlers.features, old(View(cbuf))).Fill?
      ensures step == Failed ==> NextFrame(handlers.features, old(View(cbuf))).Malformed?
      ensures BatchOf(handlers, old(TheSession()), old(replyLen), old(View(cbuf)))
           == if step == Done then Behind(BatchOf(handlers, TheSession(), replyLen, View(next)), next - cbuf)
              else Batch(step, 0, TheSession(), replyLen)
      ensures BatchMem(handlers, old(TheSession()), old(replyBuf[..]), old(replyLen), old(View(cbuf)))
           == if step == Done then BatchMem(handlers, TheSession(), replyBuf[..], replyLen, View(next))
              else replyBuf[..]
    {
      hide NextFrame, NextCommand, Execute, Run, Conforming, Advance, BatchOf, BatchMem, After;
      ghost var f := handlers.features;
      ghost var view := View(cbuf);
      NeverOversized(f, view, unread);
      BatchStep(handlers, TheSession(), replyBuf[..], replyLen, view);
      next := cbuf;
      var frame, cmd, p, pktend := NextPacket(cbuf);
      match frame
      case Fill => step := NeedFill;
      case Malformed => step := Failed;
      case Packet(_, end) =>
        CommandExtend(f, view, unread);
        assert Pending(cbuf)[end..] == View(pktend) + unread;
        assert view[end..] == View(pktend);
        if Waits(cmd, replyLen) {
          step := Deferred;
          return;
        }
        var session := Session(Client(locked, enableLocking, enableStatus, pendingError), dev);
        if Overflows(handlers, session, cmd, replyLen) {
          step := Overflow;
          return;
        }
        RunStep(handlers, Now(), Pending(cbuf));
        Perform(cmd, p, pktend);
        step, next := Done, pktend;
    }

    /** Executes a packet, as one step of the run. */
    method Perform(cmd: Command, p: nat, pktend: nat)
      requires Valid() && InStep() && p <= pktend <= bufLen
      requires cmd.Configure? ==> cmd.text == buf[p..pktend]
      requires cmd.Lock? ==> replyLen == 0
      requires !Overflows(handlers, TheSession(), cmd, replyLen)
      modifies this`dev, this`pendingError, this`trace, this`locked, this`enableLocking,
               this`enableStatus, this`replyLen, this`ideal, buf, replyBuf
      ensures Valid() && InStep()
      ensures SentOf(trace) == old(SentOf(trace))
      ensures Now() == Advance(handlers, old(Now()), cmd)
      ensures var e := Execute(handlers, old(TheSession()), cmd);
              replyLen == old(replyLen) + |e.reply| && TheSession() == e.session
      ensures replyBuf[..] == After(handlers, old(TheSession()), cmd, old(replyBuf[..]), old(replyLen))
      ensures View(pktend) == old(View(pktend))
    {
      hide Execute, SentOf, CallsOf, LockPointsOf, Advance, After;
      ghost var e := Execute(handlers, TheSession(), cmd);
      ghost var before, was := trace, ideal;
      ExecutePacket(cmd, p, pktend);
      AdvanceStep(handlers, old(TheSession()), cmd, before, settled, was);
      ideal := was + e.reply;
    }

    /** The inner loop: executes complete packets until more bytes are needed, a lock: has to wait
        for the replies before it, or the connection fails. */
    method ParseBatch() returns (stop: Step, cbuf: nat)
      requires Valid() && InStep() && replyLen == 0 && Conforming(handlers.features, Pending(0))
      modifies this`dev, this`pendingError, this`trace, this`locked, this`enableLocking,
               this`enableStatus, this`replyLen, this`ideal, buf, replyBuf
      ensures Valid() && InStep() && cbuf <= bufLen
      ensures SentOf(trace) == old(SentOf(trace))
      ensures Run(handlers, old(Now()), old(Pending(0))) == Run(handlers, Now(), Pending(cbuf))
      ensures Conforming(handlers.features, Pending(cbuf))
      ensures stop == NeedFill ==> NextFrame(handlers.features, View(cbuf)).Fill?
      ensures stop == Failed ==> NextFrame(handlers.features, View(cbuf)).Malformed?
      ensures BatchOf(handlers, old(TheSession()), 0, old(View(0))) == Batch(stop, cbuf, TheSession(), replyLen)
      ensures BatchMem(handlers, old(TheSession()), old(replyBuf[..]), 0, old(View(0))) == replyBuf[..]
      ensures View(cbuf) == old(View(0))[cbuf..]
    {
      hide NextFrame, Run, Conforming, BatchOf, BatchMem, InStep;
      cbuf := 0;
      stop := Done;
      ghost var goal := BatchOf(handlers, TheSession(), 0, View(0));
      ghost var mem := BatchMem(handlers, TheSession(), replyBuf[..], 0, View(0));
      while stop == Done
        invariant Valid() && InStep() && cbuf <= bufLen
        invariant SentOf(trace) == old(SentOf(trace)) && View(cbuf) == old(View(0))[cbuf..]
        invariant Run(handlers, old(Now()), old(Pending(0))) == Run(handlers, Now(), Pending(cbuf))
        invariant Conforming(handlers.features, Pending(cbuf))
        invariant stop == NeedFill ==> NextFrame(handlers.features, View(cbuf)).Fill?
        invariant stop == Failed ==> NextFrame(handlers.features, View(cbuf)).Malformed?
        invariant stop == Done ==> goal == Behind(BatchOf(handlers, TheSession(), replyLen, View(cbuf)), cbuf)
        invariant stop != Done ==> goal == Batch(stop, cbuf, TheSession(), replyLen)
        invariant mem == if stop == Done then BatchMem(handlers, TheSession(), replyBuf[..], replyLen, View(cbuf))
                         else replyBuf[..]
        decreases stop == Done, bufLen - cbuf
      {
        ghost var at := cbuf;
        stop, cbuf := ParseOne(cbuf);
        assert old(View(0))[at..][cbuf - at..] == old(View(0))[cbuf..];
      }
    }

    method SendPacket()
      requires Valid() && InStep()
      modifies this`trace, this`replyLen, this`settled, this`ideal
      ensures Valid() && InStep() && replyLen == 0
      ensures Now() == old(Now())
      ensures SentOf(trace) == old(SentOf(trace)) + old(replyBuf[..replyLen])
    {
      hide SentOf, CallsOf, LockPointsOf;
      var data := replyBuf[..replyLen];
      Snoc(trace, Sent(data));
      assert LockPointsOf(trace) + [] == LockPointsOf(trace);
      assert CallsOf(trace) + [] == CallsOf(trace);
      trace := trace + [Sent(data)];
      settled, ideal := settled + ideal, [];
      replyLen := 0;
      assert settled + [] == settled;
    }

    method ConsumePacket(len: nat)
      requires Valid() && len <= bufLen
      modifies this`bufLen, buf
      ensures Valid() && bufLen == old(bufLen) - len && View(0) == old(View(len)) && Replies() == old(Replies())
    {
      ghost var tail := View(len);
      bufLen := bufLen - len;
      var i := 0;
      while i < bufLen
        invariant i <= bufLen == old(bufLen) - len
        invariant forall k :: 0 <= k < i ==> buf[k] == tail[k]
        invariant forall k :: i <= k < bufLen ==> buf[k + len] == tail[k]
        modifies buf
      {
        buf[i] := buf[i + len];
        i := i + 1;
      }
    }

    /** Receives the next piece: at least one byte, at most the room offered, which is never zero;
        nothing once the peer has closed the connection. */
    method Recv() returns (n: nat)
      requires Valid() && bufLen < BUF_MAX
      modifies this`bufLen, this`unread, this`cuts, buf
      ensures Valid() && bufLen == old(bufLen) + n && |unread| == |old(unread)| - n
      ensures Pending(0) == old(Pending(0))
      ensures n == 0 <==> old(unread) == []
      ensures n == Piece(old(View(0)), old(unread), old(cuts)) && cuts == NextCuts(old(cuts))
      ensures View(0) == old(View(0)) + old(unread)[..n] && unread == old(unread)[n..]
    {
      var room := BUF_MAX - bufLen;
      n := if |unread| < room then |unread| else room;
      if cuts != [] {
        var want := if cuts[0] == 0 then 1 else cuts[0];
        n := if want < n then want else n;
        cuts := cuts[1..];
      }
      Append(unread[..n]);
      assert unread == unread[..n] + unread[n..];
      unread := unread[n..];
    }

    /** The bytes the socket puts behind those already there. */
    method Append(data: seq<byte>)
      requires Valid() && bufLen + |data| <= BUF_MAX
      modifies this`bufLen, buf
      ensures Valid() && bufLen == old(bufLen) + |data| && View(0) == old(View(0)) + data
    {
      ghost var before := View(0);
      var i := 0;
      while i < |data|
        invariant i <= |data| && bufLen == old(bufLen)
        invariant buf[..bufLen + i] == before + data[..i]
        modifies buf
      {
        buf[bufLen + i] := data[i];
        i := i + 1;
      }
      bufLen := bufLen + |data|;
    }

    /** How a connection ends, given the packet-at-a-time run: the calls, the state and the number of
        bytes sent are its own. */
    ghost predicate Ended(r: Final<D>, outcome: Outcome)
      requires Valid()
      reads this, buf
    {
      && |SentOf(trace)| <= |r.progress.reply| && CallsOf(trace) <= r.progress.calls
      && (outcome != ReplyTooLong ==>
            && TheSession() == r.progress.session
            && CallsOf(trace) == r.progress.calls && LockPointsOf(trace) == r.progress.lockPoints)
      && (outcome == Closed ==>
            && r.ending == Waiting && |SentOf(trace)| == |r.progress.reply|
            && View(0) == r.rest && unread == [])
      && (outcome == BadPacket ==> r.ending == ProtocolError)
    }

    /** Whether a reply will be put past the end of the reply buffer. */
    ghost predicate WillOverflow()
      requires Valid()
      reads this, buf
    {
      Outgrows(Limit(REPLY_CAPACITY), handlers, TheSession(), View(0), unread, cuts)
    }

    /** What will be sent. */
    ghost function ToSend(): seq<byte>
      requires Valid()
      reads this, buf, replyBuf
    {
      Transmit(handlers, TheSession(), replyBuf[..], View(0), unread, cuts)
    }

    /** The connection ends with a protocol error or at the end of the reply buffer. */
    method Fail(stop: Step, cbuf: nat) returns (outcome: Outcome)
      requires Valid() && InStep() && cbuf <= bufLen && (stop == Failed || stop == Overflow)
      requires stop == Failed ==> NextFrame(handlers.features, View(cbuf)).Malformed?
      ensures outcome == if stop == Failed then BadPacket else ReplyTooLong
      ensures Ended(Run(handlers, Now(), Pending(cbuf)), outcome)
    {
      hide NextFrame, Run, Execute, SentOf, CallsOf, LockPointsOf;
      outcome := if stop == Failed then BadPacket else ReplyTooLong;
      RunExtends(handlers, Now(), Pending(cbuf));
      if stop == Failed {
        RunEnds(handlers, Now(), View(cbuf), unread);
      }
    }

    /** Sends the replies of a batch and drops its packets. */
    method SendReplies(cbuf: nat)
      requires Valid() && InStep() && cbuf <= bufLen
      modifies this`trace, this`replyLen, this`settled, this`ideal, this`bufLen, buf
      ensures Valid() && InStep() && replyLen == 0 && bufLen == old(bufLen) - cbuf
      ensures Now() == old(Now()) && View(0) == old(View(cbuf))
      ensures SentOf(trace) == old(SentOf(trace)) + old(replyBuf[..replyLen])
    {
      hide SentOf, CallsOf, LockPointsOf;
      SendPacket();
      ConsumePacket(cbuf);
    }

    /** One turn of the outer loop: a batch, its replies, and more bytes if they are needed. */
    method Turn() returns (finished: bool, outcome: Outcome)
      requires Valid() && InStep() && replyLen == 0 && Conforming(handlers.features, Pending(0))
      modifies this, buf, replyBuf
      ensures Valid()
      ensures old(WillOverflow()) <==> if finished then outcome == ReplyTooLong else WillOverflow()
      ensures old(SentOf(trace)) + old(ToSend()) == SentOf(trace) + if finished then [] else ToSend()
      ensures !finished ==>
                && InStep() && replyLen == 0 && Conforming(handlers.features, Pending(0))
                && Run(handlers, old(Now()), old(Pending(0))) == Run(handlers, Now(), Pending(0))
                && (|unread| < |old(unread)| || (unread == old(unread) && bufLen < old(bufLen)))
      ensures finished ==> Ended(Run(handlers, old(Now()), old(Pending(0))), outcome)
    {
      hide NextFrame, Run, Conforming, Execute, SentOf, CallsOf, LockPointsOf, Outgrows, BatchOf, BatchMem, BatchFits;
      hide Piece, NextCuts, Transmit, Ended, InStep;
      TurnValue(handlers, TheSession(), replyBuf[..], View(0), unread, cuts);
      finished, outcome := false, Closed;
      var stop, cbuf := ParseBatch();
      if stop == Failed || stop == Overflow {
        outcome := Fail(stop, cbuf);
        finished := true;
        return;
      }
      ghost var sent, reply, more := SentOf(trace), replyBuf[..replyLen], old(ToSend())[replyLen..];
      assert old(ToSend()) == reply + more && sent + reply + more == sent + (reply + more);
      if 0 < cbuf {
        SendReplies(cbuf);
        if bufLen != 0 && stop != NeedFill {
          return;
        }
      }
      finished := ReceiveMore();
    }

    /** Waits for more bytes; finds the end of the stream when the peer has closed the connection. */
    method ReceiveMore() returns (finished: bool)
      requires Valid() && InStep() && replyLen == 0 && NextFrame(handlers.features, View(0)).Fill?
      modifies this`bufLen, this`unread, this`cuts, buf
      ensures Valid() && InStep() && Now() == old(Now()) && Pending(0) == old(Pending(0))
      ensures replyBuf[..] == old(replyBuf[..])
      ensures finished <==> old(unread) == []
      ensures |old(View(0))| < BUF_MAX
      ensures !finished ==>
                var n := Piece(old(View(0)), old(unread), old(cuts));
                && n > 0 && View(0) == old(View(0)) + old(unread)[..n] && unread == old(unread)[n..]
                && cuts == NextCuts(old(cuts))
      ensures finished ==> Ended(Run(handlers, Now(), Pending(0)), Closed)
    {
      hide NextFrame, Run, SentOf, CallsOf, LockPointsOf, Piece, NextCuts;
      FillLeavesRoom(handlers.features, View(0));
      var n := Recv();
      finished := n == 0;
      if finished {
        assert View(0) == old(View(0));
        RunEnds(handlers, Now(), View(0), unread);
        assert |ideal| == 0 && settled + ideal == settled;
      }
    }

    /** Serves the connection until it ends. However the input is cut into pieces, the handler calls,
        the client state, the device and the number of bytes sent are those of the packet-at-a-time
        run; the run ends early exactly if a reply would be put past the end of the reply buffer. What
        is sent is known from the stream, the pieces and what the reply buffer held. */
    method ReadPacket() returns (outcome: Outcome)
      requires Valid() && InStep() && replyLen == 0 && Conforming(handlers.features, Pending(0))
      modifies this, buf, replyBuf
      ensures Valid()
      ensures outcome == ReplyTooLong <==> old(WillOverflow())
      ensures SentOf(trace) == old(SentOf(trace)) + old(ToSend())
      ensures Ended(Run(handlers, old(Now()), old(Pending(0))), outcome)
    {
      hide Run, Conforming, Outgrows, Transmit, Ended, SentOf, CallsOf, LockPointsOf;
      ghost var goal := Run(handlers, Now(), Pending(0));
      ghost var all, overflow := SentOf(trace) + ToSend(), WillOverflow();
      while true
        invariant Valid() && InStep() && replyLen == 0 && Conforming(handlers.features, Pending(0))
        invariant goal == Run(handlers, Now(), Pending(0))
        invariant all == SentOf(trace) + ToSend() && overflow == WillOverflow()
        decreases |unread|, bufLen
      {
        var finished;
        finished, outcome := Turn();
        if finished {
          assert SentOf(trace) + [] == SentOf(trace);
          return;
        }
      }
    }
  }

  /** A connection that has not sent anything yet. */
  function Fresh<D>(dev: D): Session<D> {
    Session(Client(false, false, false, []), dev)
  }

  /** Two connections that get the same stream in differently cut pieces, with different garbage in
      their reply buffers. If no replies of packets that can be in the buffer together pass the end of
      the reply buffer, they call the same handlers with the same arguments in the same order, end in
      the same state, and had sent as many bytes before every lock call. If moreover no byte of them
      is left out, they have sent the same bytes when both are closed by the peer. */
  method SegmentationIndependence<D>(
    handlers: Handlers<D>, dev: D, input: seq<byte>, cuts: seq<nat>, otherCuts: seq<nat>, stale: byte, otherStale: byte)
    returns (a: XvcClient<D>, b: XvcClient<D>, x: Outcome, y: Outcome)
    requires Conforming(handlers.features, input)
    ensures Fitting(Limit(REPLY_CAPACITY), handlers, Fresh(dev), input) ==>
              && x == y != ReplyTooLong
              && a.TheSession() == b.TheSession()
              && CallsOf(a.trace) == CallsOf(b.trace)
              && LockPointsOf(a.trace) == LockPointsOf(b.trace)
              && (x == Closed ==> |SentOf(a.trace)| == |SentOf(b.trace)|)
    ensures Fitting(Right, handlers, Fresh(dev), input) ==>
              && x == y != ReplyTooLong
              && (x == Closed ==> SentOf(a.trace) == SentOf(b.trace))
              && (SentOf(a.trace) <= SentOf(b.trace) || SentOf(b.trace) <= SentOf(a.trace))
  {
    hide Run, Conforming, Fitting, Outgrows, Transmit, SentOf, CallsOf, LockPointsOf;
    ghost var p := Progress(Fresh(dev), [], [], []);
    ghost var r := Run(handlers, p, input);
    a, x := Serve(handlers, dev, input, cuts, stale);
    b, y := Serve(handlers, dev, input, otherCuts, otherStale);
    if Fitting(Right, handlers, Fresh(dev), input) {
      FittingWeaker(Right, Limit(REPLY_CAPACITY), handlers, Fresh(dev), input);
      PrefixesCompare(SentOf(a.trace), SentOf(b.trace), r.progress.reply);
    }
  }

  /** A whole connection, from the first byte on. */
  method Serve<D>(handlers: Handlers<D>, dev: D, input: seq<byte>, cuts: seq<nat>, stale: byte)
    returns (c: XvcClient<D>, outcome: Outcome)
    requires Conforming(handlers.features, input)
    ensures c.Valid() && c.Ended(Run(handlers, Progress(Fresh(dev), [], [], []), input), outcome)
    ensures outcome == ReplyTooLong <==> Outgrows(Limit(REPLY_CAPACITY), handlers, Fresh(dev), [], input, cuts)
    ensures SentOf(c.trace) == Transmit(handlers, Fresh(dev), seq(REPLY_CAPACITY, i => stale), [], input, cuts)
    ensures Fitting(Limit(REPLY_CAPACITY), handlers, Fresh(dev), input) ==> outcome != ReplyTooLong
    ensures Fitting(Right, handlers, Fresh(dev), input) ==>
              SentOf(c.trace) <= Run(handlers, Progress(Fresh(dev), [], [], []), input).progress.reply
  {
    hide Run, Conforming, Fitting, Outgrows, Transmit, SentOf, CallsOf, LockPointsOf, Answered;
    c := new XvcClient(handlers, dev, input, cuts, stale);
    NothingTraced();
    ghost var p, mem := Progress(Fresh(dev), [], [], []), seq(REPLY_CAPACITY, i => stale);
    assert c.Now() == p;
    assert c.View(0) == [];
    assert c.Pending(0) == [] + input == input;
    outcome := c.ReadPacket();
    ghost var sent := Transmit(handlers, Fresh(dev), mem, [], input, cuts);
    assert [] + sent == sent;
    if Fitting(Limit(REPLY_CAPACITY), handlers, Fresh(dev), input) {
      FittingHolds(Limit(REPLY_CAPACITY), handlers, Fresh(dev), [], input, cuts);
    }
    if Fitting(Right, handlers, Fresh(dev), input) {
      TransmitRight(handlers, Fresh(dev), mem, [], input, cuts);
      AnsweredIsRun(handlers, p, input);
      assert [] + Answered(handlers, Fresh(dev), input) == Answered(handlers, Fresh(dev), input);
    }
  }

  /** A client that writes packets, none of them longer than the receive buffer, and then closes the
      connection, in pieces of any size: if no replies of packets that can be in the buffer together
      pass the end of the reply buffer, executing the packets in order says everything. */
  method ServePackets<D>(handlers: Handlers<D>, dev: D, cmds: seq<Command>, cuts: seq<nat>, stale: byte)
    returns (c: XvcClient<D>, outcome: Outcome)
    requires Wire.Sendable(handlers.features, cmds) && forall cmd :: cmd in cmds ==> Wire.Small(cmd)
    requires Fitting(Limit(REPLY_CAPACITY), handlers, Fresh(dev), Wire.WireForms(cmds))
    ensures outcome == Closed
    ensures var r := ExecuteAll(handlers, Progress(Fresh(dev), [], [], []), Wire.KeptAll(cmds));
            && c.TheSession() == r.session && CallsOf(c.trace) == r.calls && LockPointsOf(c.trace) == r.lockPoints
            && |SentOf(c.trace)| == |r.reply|
            && (Fitting(Right, handlers, Fresh(dev), Wire.WireForms(cmds)) ==> SentOf(c.trace) == r.reply)
  {
    hide Run, Conforming, Fitting, Outgrows, Transmit, SentOf, CallsOf, LockPointsOf, ExecuteAll, Commands;
    hide Wire.WireForms, Wire.KeptAll, Wire.Small;
    Wire.CommandsOfForms(handlers.features, cmds);
    Wire.RunOfForms(handlers, Progress(Fresh(dev), [], [], []), cmds);
    c, outcome := Serve(handlers, dev, Wire.WireForms(cmds), cuts, stale);
    WholeReply(SentOf(c.trace), ExecuteAll(handlers, Progress(Fresh(dev), [], [], []), Wire.KeptAll(cmds)).reply);
  }

  lemma WholeReply(sent: seq<byte>, reply: seq<byte>)
    ensures sent <= reply && |sent| == |reply| ==> sent == reply
  {
  }

  lemma NothingTraced()
    ensures SentOf([]) == [] && CallsOf([]) == [] && LockPointsOf([]) == []
  {
  }

  lemma PrefixesCompare(a: seq<byte>, b: seq<byte>, all: seq<byte>)
    requires a <= all && b <= all
    ensures a <= b || b <= a
  {
    assert a == all[..|a|] && b == all[..|b|];
  }

  /** The frame and the command once the colon is found. */
  lemma AtName(f: Features, s: seq<byte>)
    ensures var c := ColonFrom(s, 0);
            && (c >= NAME_MAX ==> NextFrame(f, s).Malformed?)
            && (c < NAME_MAX && c == |s| ==> NextFrame(f, s).Fill?)
            && (c < NAME_MAX && c < |s| ==>
                  var kind := Keyword(f, s[..c + 1]);
                  && NextFrame(f, s) == FrameAfterName(kind, s, c + 1)
                  && (kind == KUnknown ==> NextFrame(f, s).Malformed?)
                  && (NextFrame(f, s).Packet? ==>
                        && kind != KUnknown && PacketEnd(kind, s, c + 1) <= |s|
                        && NextCommand(f, s) == CommandAt(kind, s, c + 1)))
  {
    hide Keyword, PacketEnd, CommandAt;
  }

  lemma AtShortShift(s: seq<byte>, pos: nat)
    requires 0 < pos <= |s| < pos + 4 && !FrameAfterName(KShift, s, pos).Oversized?
    ensures FrameAfterName(KShift, s, pos) == Fill
  {
  }

  /** The frame and the command of a shift: packet. */
  lemma AtShift(s: seq<byte>, pos: nat, bits: nat)
    requires 0 < pos && pos + 4 <= |s| && bits == FromLe(s[pos..pos + 4])
    ensures var n := VectorBytes(bits);
            var end := pos + 4 + n * 2;
            && PacketEnd(KShift, s, pos) == end
            && (end <= |s| ==>
                  && FrameAfterName(KShift, s, pos) == Packet(KShift, end)
                  && CommandAt(KShift, s, pos) == Shift(bits, s[pos + 4..pos + 4 + n], s[pos + 4 + n..end]))
            && (end > |s| ==> FrameAfterName(KShift, s, pos) == if end <= BUF_MAX then Fill else Oversized)
  {
    hide FromLe, VectorBytes;
  }

  lemma OnlyConfigure(kind: Kind, vals: seq<nat>, data: seq<byte>)
    requires |vals| == Arity(kind) && kind != KUnknown && kind != KShift && kind != KSetTck
    ensures FieldCommand(kind, vals, data).Configure? ==> FieldCommand(kind, vals, data).text == data
  {
  }

  lemma OneCall<D>(h: Handlers<D>, s: Session<D>, cmd: Command)
    ensures |Execute(h, s, cmd).calls| <= 1
    ensures forall c :: c in Execute(h, s, cmd).calls ==> c.cmd == cmd
  {
    hide Text, InfoText, CapabilityText, ApplyConfig, Counted;
  }

  lemma TraceStep(trace: seq<Action>, calls: seq<Event>)
    requires |calls| <= 1
    ensures CallsOf(trace + ActionsOf(calls)) == CallsOf(trace) + calls
    ensures SentOf(trace + ActionsOf(calls)) == SentOf(trace)
    ensures LockPointsOf(trace + ActionsOf(calls)) == LockPointsOf(trace) + LockPoint(calls, |SentOf(trace)|)
  {
    if calls == [] {
      assert trace + [] == trace;
    } else {
      assert ActionsOf(calls) == [Handler(calls[0])];
      assert calls == [calls[0]];
      Snoc(trace, Handler(calls[0]));
    }
  }

  /** A packet executed after the actions of a trace, with some replies not sent yet; a lock: packet
      finds no such reply. */
  lemma AdvanceStep<D>(
    h: Handlers<D>, s: Session<D>, cmd: Command, trace: seq<Action>, settled: seq<byte>, replies: seq<byte>)
    requires |settled| == |SentOf(trace)| && (cmd.Lock? ==> replies == [])
    ensures var e := Execute(h, s, cmd);
            var after := trace + ActionsOf(e.calls);
            && SentOf(after) == SentOf(trace)
            && Progress(e.session, CallsOf(after), settled + (replies + e.reply), LockPointsOf(after))
            == Advance(h, Progress(s, CallsOf(trace), settled + replies, LockPointsOf(trace)), cmd)
  {
    hide Execute, SentOf, CallsOf, LockPointsOf;
    var e := Execute(h, s, cmd);
    OneCall(h, s, cmd);
    TraceStep(trace, e.calls);
    assert settled + (replies + e.reply) == (settled + replies) + e.reply;
    if cmd.Lock? {
      assert settled + [] == settled;
    } else if e.calls != [] {
      assert e.calls[0] in e.calls;
    }
  }

  lemma RunStep<D>(h: Handlers<D>, p: Progress<D>, stream: seq<byte>)
    requires NextFrame(h.features, stream).Packet?
    ensures Run(h, p, stream)
         == Run(h, Advance(h, p, NextCommand(h.features, stream)), stream[NextFrame(h.features, stream).end..])
    ensures Conforming(h.features, stream) ==> Conforming(h.features, stream[NextFrame(h.features, stream).end..])
  {
  }

  lemma RunEnds<D>(h: Handlers<D>, p: Progress<D>, view: seq<byte>, unread: seq<byte>)
    requires NextFrame(h.features, view).Malformed? || (NextFrame(h.features, view).Fill? && unread == [])
    ensures var r := Run(h, p, view + unread);
            && r.progress == p && r.rest == view + unread
            && r.ending == if NextFrame(h.features, view).Malformed? then ProtocolError else Waiting
  {
    if NextFrame(h.features, view).Malformed? {
      FrameExtend(h.features, view, unread);
    } else {
      assert view + unread == view;
    }
  }

  /** A run only ever adds to what was answered and called before. */
  lemma {:induction false} RunExtends<D>(h: Handlers<D>, p: Progress<D>, stream: seq<byte>)
    ensures p.reply <= Run(h, p, stream).progress.reply
    ensures p.calls <= Run(h, p, stream).progress.calls
    decreases |stream|
  {
    hide NextCommand, Execute;
    match NextFrame(h.features, stream)
    case Packet(_, end) => RunExtends(h, Advance(h, p, NextCommand(h.features, stream)), stream[end..]);
    case _ =>
  }

  lemma NothingLeft(f: Features, c: Client, b: seq<byte>)
    ensures b == [] || b[0] == 0 || c.pendingError != [] ==> FoldFields(f, c, SplitFields(UntilNul(b))) == c
  {
  }

  /** The first field of the text that b holds, and the text that is left after it. */
  lemma FieldAt(b: seq<byte>, j: nat)
    requires b != [] && b[0] != 0 && j <= |b|
    requires forall k :: 0 <= k < j ==> b[k] != 0 && b[k] != COMMA
    requires j < |b| ==> b[j] == 0 || b[j] == COMMA
    ensures var rest := if j < |b| && b[j] == COMMA then b[j + 1..] else b[j..];
            SplitFields(UntilNul(b)) == [b[..j]] + SplitFields(UntilNul(rest))
  {
    if j < |b| && b[j] == COMMA {
      FieldBeforeComma(b, j);
    } else {
      LastField(b, j);
    }
  }

  lemma FieldBeforeComma(b: seq<byte>, j: nat)
    requires j < |b| && b[j] == COMMA
    requires forall k :: 0 <= k < j ==> b[k] != 0 && b[k] != COMMA
    ensures SplitFields(UntilNul(b)) == [b[..j]] + SplitFields(UntilNul(b[j + 1..]))
  {
    hide SplitFields, IndexOf;
    var n := IndexOf(b, 0);
    var text := b[..n];
    assert n > j;
    IndexOfUnique(b[j + 1..], 0, n - (j + 1));
    assert b[j + 1..][..n - (j + 1)] == text[j + 1..];
    IndexOfUnique(text, COMMA, j);
    assert text[..j] == b[..j];
    SplitAtComma(text, j);
  }

  lemma SplitAtComma(text: seq<byte>, j: nat)
    requires j < |text| && IndexOf(text, COMMA) == j
    ensures SplitFields(text) == [text[..j]] + SplitFields(text[j + 1..])
  {
  }

  lemma LastField(b: seq<byte>, j: nat)
    requires b != [] && b[0] != 0 && b[0] != COMMA && j <= |b|
    requires forall k :: 0 <= k < j ==> b[k] != 0 && b[k] != COMMA
    requires j < |b| ==> b[j] == 0
    ensures SplitFields(UntilNul(b)) == [b[..j]] + SplitFields(UntilNul(b[j..]))
  {
    IndexOfUnique(b, 0, j);
    var text := b[..j];
    IndexOfUnique(text, COMMA, j);
    assert text[..j] == text;
    IndexOfUnique(b[j..], 0, 0);
    assert UntilNul(b[j..]) == [];
    assert SplitFields([]) == [];
  }

  lemma FoldStep(f: Features, c: Client, field: seq<byte>, fields: seq<seq<byte>>)
    requires c.pendingError == []
    ensures FoldFields(f, c, [field] + fields) == FoldFields(f, ApplySetting(f, c, ParseSetting(field)), fields)
  {
    assert ([field] + fields)[1..] == fields;
  }
}
