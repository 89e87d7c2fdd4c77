/** The edpc: handler on the egress ring: a packet is polled, its slot is handed back to the engine,
    and only then does the server copy it into the reply. */
module Dpc {
  import opened Bytes
  import Uleb128
  import opened Framing
  import opened Configure
  import opened Session
  import opened Ring
  import opened Egress
  import opened Laws
  import opened Replies

  /** The bytes of a packet, each word little-endian. */
  function PacketBytes(words: seq<word>): (b: seq<byte>)
    ensures |b| == 4 * |words|
  {
    if words == [] then [] else ToLe(4, words[0]) + PacketBytes(words[1..])
  }

  /** Every word of a packet is four of its bytes, low byte first. */
  lemma {:induction false} WordAt(words: seq<word>, i: nat)
    requires i < |words|
    ensures FromLe(PacketBytes(words)[4 * i..4 * i + 4]) == words[i]
  {
    var head, rest := ToLe(4, words[0]), PacketBytes(words[1..]);
    if i == 0 {
      WordValue(words[0]);
      assert PacketBytes(words)[..4] == head;
    } else {
      WordAt(words[1..], i - 1);
      assert PacketBytes(words)[4 * i..4 * i + 4] == rest[4 * (i - 1)..4 * (i - 1) + 4];
    }
  }

  lemma WordValue(w: word)
    ensures FromLe(ToLe(4, w)) == w
  {
    LeRoundTrip(4, w);
    Pow2Words();
    ModUnique(w, TWO32, 0, w);
  }

  /** The word four bytes make, low byte first. */
  function WordOf(a: int, b: int, c: int, d: int): word
    requires 0 <= a < 256 && 0 <= b < 256 && 0 <= c < 256 && 0 <= d < 256
  {
    a + 0x100 * b + 0x1_0000 * c + 0x100_0000 * d
  }

  /** The words a client reads out of data. */
  function WordsOf(data: seq<byte>): seq<word>
    decreases |data|
  {
    if |data| < 4 then []
    else [WordOf(data[0], data[1], data[2], data[3])] + WordsOf(data[4..])
  }

  function WordsOfAll(answers: seq<Answer>): (w: seq<seq<word>>)
    ensures |w| == |answers|
  {
    if answers == [] then []
    else [if answers[0].Words? then WordsOf(answers[0].data) else []] + WordsOfAll(answers[1..])
  }

  /** That edpc: was asked n times. */
  function Asked(n: nat): (q: seq<bool>)
    ensures |q| == n
  {
    if n == 0 then [] else [true] + Asked(n - 1)
  }

  /** The packets a client that sent n edpc: packets reads out of the bytes it receives. */
  function PacketsRead(n: nat, sent: seq<byte>): seq<seq<word>> {
    match ParseAll(Asked(n), sent)
    case Complete(answers, _) => WordsOfAll(answers)
    case Incomplete => []
  }

  lemma FourValue(b: seq<byte>)
    requires |b| == 4
    ensures FromLe(b) == WordOf(b[0], b[1], b[2], b[3])
  {
    assert FromLe(b[1..][1..][1..]) == b[1..][1..][1..][0] + 256 * FromLe([]);
    assert FromLe(b[1..][1..]) == b[1..][1..][0] + 256 * FromLe(b[1..][1..][1..]);
  }

  /** A client reads the words of a packet out of its bytes. */
  lemma {:induction false} WordsBack(words: seq<word>)
    ensures WordsOf(PacketBytes(words)) == words
  {
    if words != [] {
      var head, rest := ToLe(4, words[0]), PacketBytes(words[1..]);
      WordsBack(words[1..]);
      WordValue(words[0]);
      FourValue(head);
      hide FromLe, ToLe;
      assert (head + rest)[4..] == rest && forall k :: 0 <= k < 4 ==> (head + rest)[k] == head[k];
      assert [words[0]] + words[1..] == words;
    }
  }

  lemma {:induction false} WordsAllAt(answers: seq<Answer>, i: nat)
    requires i < |answers| && answers[i].Words?
    ensures WordsOfAll(answers)[i] == WordsOf(answers[i].data)
    decreases |answers|
  {
    hide WordsOf;
    if i > 0 {
      WordsAllAt(answers[1..], i - 1);
    }
  }

  lemma {:induction false} AllWords(answers: seq<Answer>)
    requires forall a :: a in answers ==> a.Words?
    ensures Queries(answers) == Asked(|answers|)
    decreases |answers|
  {
    if answers != [] {
      assert answers[0] in answers && forall a :: a in answers[1..] ==> a in answers;
      AllWords(answers[1..]);
    }
  }

  /** The client gets the packets back. */
  lemma PacketsBack(packets: seq<seq<word>>, sent: seq<byte>)
    requires ParseAll(Queries(AnswersTo(packets)), sent) == Complete(AnswersTo(packets), [])
    ensures PacketsRead(|packets|, sent) == packets
  {
    hide ParseAll, Queries, AnswersTo, WordsOfAll, Asked;
    PacketsOfAnswers(packets);
    AllWords(AnswersTo(packets));
  }

  lemma PacketsOfAnswers(packets: seq<seq<word>>)
    ensures forall a :: a in AnswersTo(packets) ==> a.Words?
    ensures WordsOfAll(AnswersTo(packets)) == packets
  {
    hide AnswersTo, PacketBytes, WordsOf, WordsOfAll;
    var answers := AnswersTo(packets);
    forall i | 0 <= i < |packets|
      ensures answers[i].Words? && WordsOfAll(answers)[i] == packets[i]
    {
      AnswerAt(packets, i);
      WordsAllAt(answers, i);
      WordsBack(packets[i]);
    }
  }

  /** The answers to polls that returned these packets; no words mean that there was none. */
  function AnswersTo(packets: seq<seq<word>>): (a: seq<Answer>)
    ensures |a| == |packets|
  {
    if packets == [] then []
    else AnswersTo(packets[..|packets| - 1]) + [Words(PacketBytes(packets[|packets| - 1]), 0)]
  }

  lemma AnswersSnoc(packets: seq<seq<word>>, p: seq<word>)
    ensures AnswersTo(packets + [p]) == AnswersTo(packets) + [Words(PacketBytes(p), 0)]
  {
    assert (packets + [p])[..|packets|] == packets;
  }

  lemma {:induction false} AnswerAt(packets: seq<seq<word>>, i: nat)
    requires i < |packets|
    ensures AnswersTo(packets)[i] == Words(PacketBytes(packets[i]), 0)
  {
    hide PacketBytes;
    if i < |packets| - 1 {
      AnswerAt(packets[..|packets| - 1], i);
    }
  }

  lemma AnswersFit(packets: seq<seq<word>>)
    ensures forall a :: a in AnswersTo(packets) ==> Fits(a)
  {
    hide AnswersTo, Fits, PacketBytes;
    forall a | a in AnswersTo(packets)
      ensures Fits(a)
    {
      var i :| 0 <= i < |AnswersTo(packets)| && AnswersTo(packets)[i] == a;
      AnswerAt(packets, i);
      FitsWhole(packets[i]);
    }
  }

  lemma FitsWhole(packet: seq<word>)
    ensures Fits(Words(PacketBytes(packet), 0))
  {
    hide PacketBytes;
  }

  /** The polls that found a packet. */
  function Found(packets: seq<seq<word>>): seq<seq<word>> {
    if packets == [] then []
    else
      var last := packets[|packets| - 1];
      Found(packets[..|packets| - 1]) + if last == [] then [] else [last]
  }

  lemma FoundSnoc(packets: seq<seq<word>>, p: seq<word>)
    ensures Found(packets + [p]) == if p == [] then Found(packets) else Found(packets) + [p]
  {
    assert (packets + [p])[..|packets|] == packets;
  }

  lemma {:induction false} EncodeAllSnoc(answers: seq<Answer>, a: Answer)
    ensures EncodeAll(answers + [a]) == EncodeAll(answers) + Encode(a)
    decreases |answers|
  {
    hide Encode;
    if answers == [] {
      assert answers + [a] == [a] && [a][1..] == [] && EncodeAll([]) == [];
      assert EncodeAll([a]) == Encode(a) + [] == [] + Encode(a);
    } else {
      assert (answers + [a])[1..] == answers[1..] + [a];
      EncodeAllSnoc(answers[1..], a);
      assert Encode(answers[0]) + (EncodeAll(answers[1..]) + Encode(a))
          == (Encode(answers[0]) + EncodeAll(answers[1..])) + Encode(a);
    }
  }

  /** Handlers whose edpc: returns one packet after the other; the device counts them. */
  function Scripted(f: Features, packets: seq<seq<word>>): Handlers<int> {
    Handlers(f, (d, cmd) => Dealt(packets, d))
  }

  function Dealt(packets: seq<seq<word>>, d: int): Response<int> {
    if 0 <= d < |packets| then Response(d + 1, PacketBytes(packets[d]), |packets[d]|, []) else Response(d, [], 0, [])
  }

  /** Executing edpc: with a handler that returns a packet sends it. */
  lemma PacketSent(h: Handlers<int>, s: Session<int>, cmd: Command, packet: seq<word>)
    requires cmd.Edpc? && |packet| <= PACKET_WORDS && s.client.pendingError == []
    requires h.respond(s.dev, cmd) == Response(s.dev + 1, PacketBytes(packet), |packet|, [])
    ensures var e := Execute(h, s, cmd);
            e.session == s.(dev := s.dev + 1) && e.reply == Encode(Words(PacketBytes(packet), 0))
  {
    hide PacketBytes, EdpcReply, Try, Encode;
    TryPacket(h, s, cmd, packet);
    PacketReply(Try(h, s, cmd), packet);
    WordsEncode(packet);
  }

  lemma TryPacket(h: Handlers<int>, s: Session<int>, cmd: Command, packet: seq<word>)
    requires s.client.pendingError == []
    requires h.respond(s.dev, cmd) == Response(s.dev + 1, PacketBytes(packet), |packet|, [])
    ensures var a := Try(h, s, cmd);
            a.session == s.(dev := s.dev + 1) && a.data == PacketBytes(packet) && a.number == |packet|
  {
    hide PacketBytes, Clip;
    ClipNothing();
  }

  lemma PacketReply(a: Attempt<int>, packet: seq<word>)
    requires |packet| <= PACKET_WORDS && a.session.client.pendingError == []
    requires a.data == PacketBytes(packet) && a.number == |packet|
    ensures EdpcReply(a) == Uleb128.Put(|packet|) + PacketBytes(packet)
  {
    hide PacketBytes, Uleb128.Put, Fit, DataReply;
    SmallCount(|packet|);
    WholeData(a, PacketBytes(packet), |packet| * 4);
  }

  lemma SmallCount(n: nat)
    requires n <= PACKET_WORDS
    ensures n % TWO32 == n && n * 4 % TWO64 == n * 4
  {
  }

  lemma WholeData(a: Attempt<int>, data: seq<byte>, n: nat)
    requires a.session.client.pendingError == [] && a.data == data && |data| == n
    ensures DataReply(a, n) == data
  {
    hide Fit;
    FitsItself(data);
  }

  lemma WordsEncode(packet: seq<word>)
    ensures Encode(Words(PacketBytes(packet), 0)) == Uleb128.Put(|packet|) + PacketBytes(packet) + [0]
  {
    hide PacketBytes, Uleb128.Put;
    assert |PacketBytes(packet)| / 4 == |packet|;
  }

  lemma ClipNothing()
    ensures Clip([]) == []
  {
  }

  lemma FitsItself(data: seq<byte>)
    ensures Fit(data, |data|) == data
  {
  }

  lemma ScriptedStep(f: Features, packets: seq<seq<word>>, p: Progress<int>, cmd: Command)
    requires cmd.Edpc? && 0 <= p.session.dev < |packets| && p.session.client.pendingError == []
    requires |packets[p.session.dev]| <= PACKET_WORDS
    ensures var next := Advance(Scripted(f, packets), p, cmd);
            && next.session == p.session.(dev := p.session.dev + 1)
            && next.reply == p.reply + Encode(Words(PacketBytes(packets[p.session.dev]), 0))
  {
    hide Execute, Encode, PacketBytes, Dealt, Advance;
    var h, d := Scripted(f, packets), p.session.dev;
    assert h.respond(d, cmd) == Dealt(packets, d) by {
      assert Scripted(f, packets).respond(d, cmd) == Dealt(packets, d);
    }
    DealtOne(packets, d);
    PacketSent(h, p.session, cmd, packets[d]);
    AdvanceParts(h, p, cmd);
  }

  lemma DealtOne(packets: seq<seq<word>>, d: int)
    requires 0 <= d < |packets|
    ensures Dealt(packets, d) == Response(d + 1, PacketBytes(packets[d]), |packets[d]|, [])
  {
    hide PacketBytes;
  }

  lemma {:induction false} ScriptedRun(f: Features, packets: seq<seq<word>>, p: Progress<int>, cmds: seq<Command>)
    requires forall cmd :: cmd in cmds ==> cmd.Edpc?
    requires forall w :: w in packets ==> |w| <= PACKET_WORDS
    requires 0 <= p.session.dev && p.session.dev + |cmds| == |packets| && p.session.client.pendingError == []
    ensures ExecuteAll(Scripted(f, packets), p, cmds).reply
         == p.reply + EncodeAll(AnswersTo(packets)[p.session.dev..])
    decreases |cmds|
  {
    hide PacketBytes, Encode, Scripted, Advance, AnswersTo;
    var d := p.session.dev;
    var answers := AnswersTo(packets)[d..];
    if cmds == [] {
      assert answers == [] && p.reply + [] == p.reply;
    } else {
      assert cmds[0] in cmds && packets[d] in packets && forall c :: c in cmds[1..] ==> c in cmds;
      ScriptedStep(f, packets, p, cmds[0]);
      ScriptedRun(f, packets, Advance(Scripted(f, packets), p, cmds[0]), cmds[1..]);
      AnswerAt(packets, d);
      assert answers[1..] == AnswersTo(packets)[d + 1..];
      Grouped(p.reply, Encode(answers[0]), EncodeAll(answers[1..]));
    }
  }

  lemma Grouped(a: seq<byte>, b: seq<byte>, c: seq<byte>)
    ensures a + b + c == a + (b + c)
  {
  }

  /** Answers edpc: packets, no error being pending, while the engine runs. What is sent is what the
      packet engine sends for these packets when its handler returns what the polls do, and the client
      takes it apart into what the polls returned: a copy for each packet the engine completed without
      error and with at least one word, equal to it if made in time. */
  method ServeEdpc(ring: EgressRing, ghost f: Features, ghost client: Client, cmds: seq<Command>)
    returns (sent: seq<byte>, ghost packets: seq<seq<word>>)
    requires ring.Inv() && client.pendingError == [] && forall cmd :: cmd in cmds ==> cmd.Edpc?
    modifies ring
    ensures ring.Inv() && old(ring.received) <= ring.received && old(ring.copies) <= ring.copies
    ensures old(ring.polled) <= ring.polled <= |ring.received| <= ring.polled + ring.count
    ensures |packets| == |cmds|
    ensures sent == ExecuteAll(Scripted(f, packets), Progress(Session(client, 0), [], [], []), cmds).reply
    ensures ParseAll(Queries(AnswersTo(packets)), sent) == Complete(AnswersTo(packets), [])
    ensures PacketsRead(|cmds|, sent) == packets
    ensures CopiesOf(ring.count, ring.received, old(ring.polled), ring.polled, ring.copies[|old(ring.copies)|..],
                     Found(PacketsRead(|cmds|, sent)))
  {
    hide Invariant, Delivered, EncodeAll, ParseAll, Queries, AnswersTo, Found, PacketBytes, CopiesOf, ExecuteAll;
    hide Scripted, Uleb128.Put, InTime, PacketsRead;
    sent, packets := [], [];
    ghost var start, mark := ring.polled, |ring.copies|;
    StartEmpty();
    DeliveredSoFar(ring.Now(), Next(ring.count, ring.last));
    NoCopies(ring.count, ring.received, start);
    assert ring.copies[mark..] == [];
    var i := 0;
    while i < |cmds|
      invariant i <= |cmds| && ring.Inv() && old(ring.received) <= ring.received && old(ring.copies) <= ring.copies
      invariant start <= ring.polled <= |ring.received|
      invariant |packets| == i && sent == EncodeAll(AnswersTo(packets))
      invariant forall w :: w in packets ==> |w| <= PACKET_WORDS
      invariant CopiesOf(ring.count, ring.received, start, ring.polled, ring.copies[mark..], Found(packets))
    {
      var data := ring.PollCopied(start, mark, Found(packets));
      EncodedSnoc(packets, data);
      FoundSnoc(packets, data);
      sent := sent + Uleb128.Put(|data|) + PacketBytes(data) + [0];
      packets := packets + [data];
      i := i + 1;
    }
    SomethingUnread(ring.Now(), Next(ring.count, ring.last));
    SentAndParsed(f, client, packets, cmds);
    PacketsBack(packets, sent);
  }

  lemma StartEmpty()
    ensures EncodeAll([]) == [] && AnswersTo([]) == [] && Found([]) == []
  {
  }

  /** What one more poll adds. */
  lemma EncodedSnoc(packets: seq<seq<word>>, data: seq<word>)
    ensures EncodeAll(AnswersTo(packets + [data]))
         == EncodeAll(AnswersTo(packets)) + Uleb128.Put(|data|) + PacketBytes(data) + [0]
  {
    hide PacketBytes, EncodeAll, AnswersTo, Uleb128.Put, Encode;
    AnswersSnoc(packets, data);
    EncodeAllSnoc(AnswersTo(packets), Words(PacketBytes(data), 0));
    WordsEncode(data);
    var before, n, b := EncodeAll(AnswersTo(packets)), Uleb128.Put(|data|), PacketBytes(data);
    assert before + n + b + [0] == before + (n + b + [0]);
  }

  lemma SentAndParsed(f: Features, client: Client, packets: seq<seq<word>>, cmds: seq<Command>)
    requires client.pendingError == [] && |packets| == |cmds|
    requires forall cmd :: cmd in cmds ==> cmd.Edpc?
    requires forall w :: w in packets ==> |w| <= PACKET_WORDS
    ensures var sent := EncodeAll(AnswersTo(packets));
            && ExecuteAll(Scripted(f, packets), Progress(Session(client, 0), [], [], []), cmds).reply == sent
            && ParseAll(Queries(AnswersTo(packets)), sent) == Complete(AnswersTo(packets), [])
  {
    hide EncodeAll, ParseAll, Queries, AnswersTo, PacketBytes, ExecuteAll, Scripted, Fits;
    ScriptedRun(f, packets, Progress(Session(client, 0), [], [], []), cmds);
    AnswersFit(packets);
    var answers := AnswersTo(packets);
    assert answers[0..] == answers && [] + EncodeAll(answers) == EncodeAll(answers) == EncodeAll(answers) + [];
    RepliesParseBack(answers, []);
  }
}
