/** What a client reads in the reply to each packet, said in the bytes of the reply. */
module Answers {
  import opened Bytes
  import Uleb128
  import opened Framing
  import opened Configure
  import opened Session
  import opened Laws
  import opened Settings
  import opened Wire

  /** A handler that leaves no error, or an empty one. */
  predicate Silent(error: seq<byte>) {
    error == [] || error[0] == 0
  }

  /** Whether a status byte follows: always, except that shift: and settck: have to be configured. */
  predicate Reports(c: Client, cmd: Command) {
    (cmd.Shift? || cmd.SetTck?) ==> c.enableStatus
  }

  function Status(c: Client, cmd: Command, failed: bool): seq<byte> {
    if !Reports(c, cmd) then [] else if failed then [1] else [0]
  }

  /** The bytes of data a packet asks for. The third flag of a register shift asks for TDO. */
  predicate Asks(cmd: Command, n: nat) {
    match cmd
    case Shift(bits, _, _) => bits <= 0xFFFF_FFF8 && Holds(n, bits)
    case RegisterShift(_, flags, _, count, _) =>
      if flags % 8 >= 4 then count <= 0xFFFF_FFFF_FFFF_FFF8 && Holds(n, count) else n == 0
    case Mrd(_, _, size) => n == size
    case State(_, _, _) | Mwr(_, _, _, _) | Idpc(_, _, _) => n == 0
    case _ => false
  }

  /** What the handler does with a packet, if it is asked. */
  ghost predicate Handled<D>(h: Handlers<D>, s: Session<D>, cmd: Command, e: Effect<D>) {
    var r := h.respond(s.dev, cmd);
    if s.client.pendingError != [] then e.session == s && e.calls == []
    else if Silent(r.error) then e.session == s.(dev := r.dev) && e.calls == [Called(cmd, true)]
    else
      && e.session == Session(s.client.(pendingError := Clip(r.error)), r.dev)
      && e.calls == [Called(cmd, false)]
  }

  ghost predicate Fails<D>(h: Handlers<D>, s: Session<D>, cmd: Command) {
    s.client.pendingError != [] || !Silent(h.respond(s.dev, cmd).error)
  }

  lemma SilentClip(error: seq<byte>)
    ensures Clip(error) == [] <==> Silent(error)
  {
  }

  lemma AskedBytes(cmd: Command, n: nat)
    requires Asks(cmd, n)
    ensures cmd.Shift? ==> VectorBytes(cmd.bits) == n
    ensures cmd.RegisterShift? ==> TdoBytes(cmd.flags, cmd.count) == n
  {
    hide VectorBytes, WideVectorBytes;
    match cmd
    case Shift(bits, _, _) => VectorSize(n, bits);
    case RegisterShift(_, flags, _, count, _) =>
      assert flags / 4 % 2 == 1 <==> flags % 8 >= 4;
      if flags % 8 >= 4 {
        WideVectorSize(n, count);
      }
    case _ =>
  }

  lemma Tried<D>(h: Handlers<D>, s: Session<D>, cmd: Command, reply: seq<byte>)
    ensures var a := Try(h, s, cmd);
            && Handled(h, s, cmd, Effect(a.session, a.calls, reply))
            && (a.session.client.pendingError != [] <==> Fails(h, s, cmd))
            && a.session.client.enableStatus == s.client.enableStatus
            && (s.client.pendingError == [] ==>
                  a.data == h.respond(s.dev, cmd).data && a.number == h.respond(s.dev, cmd).number)
            && (s.client.pendingError != [] ==> a.number == 0)
  {
    SilentClip(h.respond(s.dev, cmd).error);
    hide Clip, Silent;
  }

  /** A packet with a fixed number of data bytes: the handler gets it as it was decoded, once, unless an
      error is pending. What it returns is sent, or zeros if there is an error, and then the status. */
  lemma DataAnswer<D>(h: Handlers<D>, s: Session<D>, cmd: Command, n: nat)
    requires Asks(cmd, n)
    ensures var e, data := Execute(h, s, cmd), h.respond(s.dev, cmd).data;
            && Handled(h, s, cmd, e) && |e.reply| == n + |Status(s.client, cmd, false)|
            && (Fails(h, s, cmd) ==> e.reply == Zeros(n) + Status(s.client, cmd, true))
            && (!Fails(h, s, cmd) && |data| == n ==> e.reply == data + Status(s.client, cmd, false))
            && (!Fails(h, s, cmd) ==> e.reply[n..] == Status(s.client, cmd, false))
  {
    AskedBytes(cmd, n);
    Tried(h, s, cmd, Execute(h, s, cmd).reply);
    FitWhole(h.respond(s.dev, cmd).data);
    hide Try, Fails, VectorBytes, TdoBytes, Asks, Fit, Handled;
    var d := DataReply(Try(h, s, cmd), n);
    assert d + [] == d && Execute(h, s, cmd).reply[..n] == d;
    if !Fails(h, s, cmd) {
      assert (d + [0])[n..] == [0] && d[n..] == [];
    }
  }

  lemma FitWhole(data: seq<byte>)
    ensures Fit(data, |data|) == data
  {
  }

  /** settck: is answered with four bytes of the period the handler chose, or of the one asked for if
      there is an error. */
  lemma TckAnswer<D>(h: Handlers<D>, s: Session<D>, period: nat)
    ensures var cmd := SetTck(period);
            var e := Execute(h, s, cmd);
            && Handled(h, s, cmd, e) && |e.reply| >= 4
            && FromLe(e.reply[..4])
               == (if Fails(h, s, cmd) then period else h.respond(s.dev, cmd).number) % 0x1_0000_0000
            && e.reply[4..] == Status(s.client, cmd, Fails(h, s, cmd))
  {
    var cmd := SetTck(period);
    Tried(h, s, cmd, Execute(h, s, cmd).reply);
    var a := Try(h, s, cmd);
    var value := if a.session.client.pendingError != [] then period else a.number;
    hide Try, Fails, Handled, FromLe, ToLe;
    FourBytes(value);
    var d, reply := ToLe(4, value), Execute(h, s, cmd).reply;
    assert d + [] == d && (d + [0])[4..] == [0] && (d + [1])[4..] == [1] && d[4..] == [] && d[..4] == d;
    assert reply[..4] == d;
  }

  /** edpc: is answered with the number of words the handler returned, four bytes for each, and the
      status; with zeros for them if it left an error, and without words if one was pending. */
  lemma WordsAnswer<D>(h: Handlers<D>, s: Session<D>, flags: nat)
    ensures var cmd := Edpc(flags);
            var e, r := Execute(h, s, cmd), h.respond(s.dev, cmd);
            && Handled(h, s, cmd, e)
            && (s.client.pendingError != [] ==> e.reply == [0, 1])
            && (s.client.pendingError == [] && r.number < 0x1_0000_0000 ==>
                  var d := Uleb128.Get(e.reply, 0);
                  && d.value == r.number && d.end <= |e.reply|
                  && (Fails(h, s, cmd) ==> e.reply[d.end..] == Zeros(4 * r.number) + [1])
                  && (!Fails(h, s, cmd) && |r.data| == 4 * r.number ==> e.reply[d.end..] == r.data + [0]))
  {
    var cmd := Edpc(flags);
    var r := h.respond(s.dev, cmd);
    Tried(h, s, cmd, Execute(h, s, cmd).reply);
    FitWhole(r.data);
    hide Fails, Handled, Fit, Uleb128.Get;
    if s.client.pendingError != [] {
      StickyStep(h, s, cmd);
    } else if r.number < 0x1_0000_0000 {
      WordCount(r.number);
      hide Try, Uleb128.Put;
      var a := Try(h, s, cmd);
      var tail := DataReply(a, 4 * r.number) + [StatusByte(a.session.client)];
      var n := Uleb128.Put(r.number);
      Uleb128.RoundTrip([], r.number, tail);
      assert [] + n + tail == n + tail == Execute(h, s, cmd).reply && (n + tail)[|n|..] == tail;
    }
  }

  lemma WordCount(n: nat)
    requires n < 0x1_0000_0000
    ensures n % TWO32 == n && n * 4 % TWO64 == 4 * n
  {
    ModUnique(n, TWO32, 0, n);
    ModUnique(n * 4, TWO64, 0, n * 4);
  }

  // ---------------------------------------------------------------- the lock

  /** lock: with no error pending. It is refused if locking is not enabled or the lock is held;
      otherwise the handler decides. It is answered 0 exactly if the handler was called and left no
      error; the lock is then held. In every other case it is answered 1 and an error is pending. */
  lemma LockAnswer<D>(h: Handlers<D>, s: Session<D>, timeout: nat)
    requires s.client.pendingError == []
    ensures var cmd := Lock(timeout);
            var e, r := Execute(h, s, cmd), h.respond(s.dev, cmd);
            && (!s.client.enableLocking ==>
                  e == Effect(s.(client := s.client.(pendingError := Ascii("locking is disabled"))), [], [1]))
            && (s.client.enableLocking && s.client.locked ==>
                  e == Effect(s.(client := s.client.(pendingError := Ascii("already locked"))), [], [1]))
            && (s.client.enableLocking && !s.client.locked ==>
                  e == if Silent(r.error)
                       then Effect(Session(s.client.(locked := true), r.dev), [Called(cmd, true)], [0])
                       else Effect(Session(s.client.(pendingError := Clip(r.error)), r.dev), [Called(cmd, false)], [1]))
            && (e.reply == [0] <==> e.calls == [Called(cmd, true)])
            && (e.reply == [0] ==> e.session.client.locked && e.session.client.pendingError == [])
            && (e.reply != [0] ==> e.reply == [1] && e.session.client.pendingError != [])
  {
    SilentClip(h.respond(s.dev, Lock(timeout)).error);
    Refusals();
    hide Ascii, Clip, Silent, Text;
  }

  /** unlock: is refused if locking is not enabled or the lock is free; otherwise the handler decides. */
  lemma UnlockAnswer<D>(h: Handlers<D>, s: Session<D>)
    requires s.client.pendingError == []
    ensures var e, r := Execute(h, s, Unlock), h.respond(s.dev, Unlock);
            && (!s.client.enableLocking ==>
                  e == Effect(s.(client := s.client.(pendingError := Ascii("locking is disabled"))), [], [1]))
            && (s.client.enableLocking && !s.client.locked ==>
                  e == Effect(s.(client := s.client.(pendingError := Ascii("already unlocked"))), [], [1]))
            && (s.client.enableLocking && s.client.locked ==>
                  e == if Silent(r.error)
                       then Effect(Session(s.client.(locked := false), r.dev), [Called(Unlock, true)], [0])
                       else Effect(Session(s.client.(pendingError := Clip(r.error)), r.dev),
                                   [Called(Unlock, false)], [1]))
            && (e.reply == [0] <==> e.calls == [Called(Unlock, true)])
            && (e.reply == [0] ==> !e.session.client.locked && e.session.client.pendingError == [])
            && (e.reply != [0] ==> e.reply == [1] && e.session.client.pendingError != [])
  {
    SilentClip(h.respond(s.dev, Unlock).error);
    Refusals();
    hide Ascii, Clip, Silent, Text;
  }

  lemma Refusals()
    ensures Clip(Text(LockingDisabled)) == Ascii("locking is disabled") != []
    ensures Clip(Text(AlreadyLocked)) == Ascii("already locked") != []
    ensures Clip(Text(AlreadyUnlocked)) == Ascii("already unlocked") != []
  {
    hide Ascii, Clip;
    ClipLiteral("locking is disabled");
    ClipLiteral("already locked");
    ClipLiteral("already unlocked");
  }

  lemma ClipLiteral(text: string)
    requires 0 < |text| <= 1023 && forall i :: 0 <= i < |text| ==> 0 as char < text[i] < 128 as char
    ensures Clip(Ascii(text)) == Ascii(text) != []
  {
    ClipKeeps(Ascii(text), []);
  }

  /** error: hands over the text of a refusal, preceded by its length. */
  lemma RefusalRead<D>(h: Handlers<D>, s: Session<D>)
    requires s.client.pendingError == Ascii("locking is disabled") || s.client.pendingError == Ascii("already locked")
          || s.client.pendingError == Ascii("already unlocked")
    ensures Execute(h, s, GetError)
         == Effect(s.(client := s.client.(pendingError := [])), [],
                   [|s.client.pendingError|] + s.client.pendingError)
  {
    hide Ascii;
  }

  // ---------------------------------------------------------------- texts

  /** The number digits stand for. */
  function Decimal(digits: seq<byte>): int {
    if digits == [] then 0
    else 10 * Decimal(digits[..|digits| - 1]) + digits[|digits| - 1] as char as int - '0' as int
  }

  lemma {:induction false} DigitsRead(n: nat)
    ensures Decimal(Digits(n)) == n && forall d :: d in Digits(n) ==> '0' <= d as char <= '9'
  {
    if n >= 10 {
      DigitsRead(n / 10);
      var high, all := Digits(n / 10), Digits(n);
      assert all == high + [48 + n % 10] && all[..|all| - 1] == high;
      assert forall d :: d in all ==> d in high || d == 48 + n % 10;
    } else {
      assert Decimal([]) == 0 && [48 + n][..0] == [];
    }
  }

  /** getinfo: names the version and the size of the receive buffer. */
  lemma InfoAnswer<D>(h: Handlers<D>, s: Session<D>)
    ensures Execute(h, s, GetInfo) == Effect(s, [], Ascii("xvcServer_v1.1:10000\n"))
  {
    var t := Ascii("xvcServer_v1.1:");
    assert Digits(10000) == [49, 48, 48, 48, 48] by {
      assert Digits(10) == [49, 48] && Digits(1000) == [49, 48, 48, 48];
    }
    assert t + [49, 48, 48, 48, 48] + [10] == Ascii("xvcServer_v1.1:10000\n");
  }

  /** What the handlers of a server allow. */
  function Abilities(f: Features): seq<byte> {
    match f.server
    case Mem =>
      (if f.lock && f.unlock then Ascii("locking,") else [])
      + (if f.registerShift && f.state then Ascii("state-aware,") else [])
      + Ascii("memory,") + Ascii("idcode=2315268243,") + Ascii("status")
    case Dpc => if f.idpc && f.edpc then Ascii("status,dpc") else Ascii("status,")
  }

  lemma AbilitiesText(f: Features)
    ensures CapabilityText(f) == Abilities(f) && |Abilities(f)| < 128
  {
    hide Ascii;
    AsciiJoin("status,", "dpc");
    assert "status," + "dpc" == "status,dpc";
    assert Ascii("status,") + [] == Ascii("status,");
  }

  /** capabilities: lists them, preceded by the length of the text. */
  lemma CapabilitiesAnswer<D>(h: Handlers<D>, s: Session<D>)
    ensures var text := Abilities(h.features);
            Execute(h, s, Capabilities) == Effect(s, [], [|text|] + text)
  {
    AbilitiesText(h.features);
    hide CapabilityText, Abilities;
  }

  lemma AsciiJoin(a: string, b: string)
    ensures Ascii(a + b) == Ascii(a) + Ascii(b)
  {
  }

  // ---------------------------------------------------------------- configuration

  /** configure: with a text of choices is answered 0, and sets the flags as it says. */
  lemma ConfigureAnswer<D>(h: Handlers<D>, s: Session<D>, choices: seq<Choice>, tail: seq<byte>)
    requires s.client.pendingError == [] && Possible(h.features, choices) && Ends(tail)
    ensures Execute(h, s, Configure(Listed(TextsOf(choices)) + tail))
         == Effect(s.(client := Chosen(s.client, choices)), [], [0])
  {
    Configured(h.features, s.client, choices, tail);
    hide ApplyConfig, Listed, Last;
  }

  /** With a field the server complains about it is answered 1. */
  lemma ConfigureRefused<D>(
    h: Handlers<D>, s: Session<D>, choices: seq<Choice>, field: Field, tail: seq<byte>)
    requires s.client.pendingError == [] && Possible(h.features, choices)
    requires Formed(field) && VerdictOn(h.features, field).Complains?
    requires 0 !in FieldText(field) && COMMA !in FieldText(field)
    requires (Ends(tail) && field != Empty) || (tail != [] && tail[0] as char == ',')
    ensures var error := Clip(VerdictOn(h.features, field).text);
            Execute(h, s, Configure(Ended(choices) + FieldText(field) + tail))
            == Effect(s.(client := Chosen(s.client, choices).(pendingError := error)), [], [1])
  {
    Misconfigured(h.features, s.client, choices, field, tail);
    ComplaintStays(h.features, field);
    hide ApplyConfig, Ended, Last, Clip, VerdictOn, FieldText, Ends;
  }
}
