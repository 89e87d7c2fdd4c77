/** The replies of edpc: and error: carry their own length, so a client that knows what it asked can
    take a run of replies apart again. */
module Replies {
  import opened Bytes
  import Uleb128
  import opened Framing
  import opened Configure
  import opened Session
  import opened Laws

  datatype Answer =
    | Words(data: seq<byte>, status: byte)    // to edpc:
    | Message(text: seq<byte>)                // to error:

  predicate Fits(a: Answer) {
    a.Words? ==> |a.data| % 4 == 0
  }

  function Encode(a: Answer): seq<byte> {
    match a
    case Words(data, status) => Uleb128.Put(|data| / 4) + data + [status]
    case Message(text) => Counted(text)
  }

  function EncodeAll(answers: seq<Answer>): seq<byte> {
    if answers == [] then [] else Encode(answers[0]) + EncodeAll(answers[1..])
  }

  datatype Parse<T> = Complete(value: T, rest: seq<byte>) | Incomplete

  /** Takes one reply off the stream; words says which command it answers. */
  function ParseOne(words: bool, s: seq<byte>): (p: Parse<Answer>) {
    var d := Uleb128.Get(s, 0);
    var size := if words then 4 * d.value + 1 else d.value;
    var end := d.end + size;
    if end > |s| then Incomplete
    else if words then Complete(Words(s[d.end..end - 1], s[end - 1]), s[end..])
    else Complete(Message(s[d.end..end]), s[end..])
  }

  function ParseAll(queries: seq<bool>, s: seq<byte>): Parse<seq<Answer>> {
    if queries == [] then Complete([], s)
    else
      match ParseOne(queries[0], s)
      case Incomplete => Incomplete
      case Complete(a, rest) =>
        match ParseAll(queries[1..], rest)
        case Incomplete => Incomplete
        case Complete(more, tail) => Complete([a] + more, tail)
  }

  function Queries(answers: seq<Answer>): (q: seq<bool>)
    ensures |q| == |answers|
  {
    if answers == [] then [] else [answers[0].Words?] + Queries(answers[1..])
  }

  lemma ThreeParts(a: seq<byte>, b: seq<byte>, c: seq<byte>)
    ensures (a + b + c)[|a|..|a| + |b|] == b && (a + b + c)[|a| + |b|..] == c
  {
  }

  lemma ParsedWords(n: seq<byte>, data: seq<byte>, status: byte, rest: seq<byte>)
    requires |data| % 4 == 0
    requires Uleb128.Get(n + data + ([status] + rest), 0) == Uleb128.Decoded(|data| / 4, |n|)
    ensures ParseOne(true, n + data + ([status] + rest)) == Complete(Words(data, status), rest)
  {
    hide Uleb128.Get;
    var tail := [status] + rest;
    var s, k := n + data + tail, |n| + |data|;
    ThreeParts(n, data, tail);
    assert s[k] == s[k..][0] == status && s[k + 1..] == s[k..][1..] == rest;
  }

  lemma ParsedMessage(n: seq<byte>, text: seq<byte>, rest: seq<byte>)
    requires Uleb128.Get(n + text + rest, 0) == Uleb128.Decoded(|text|, |n|)
    ensures ParseOne(false, n + text + rest) == Complete(Message(text), rest)
  {
    hide Uleb128.Get;
    ThreeParts(n, text, rest);
  }

  /** A reply is read back as it was written, and nothing of what follows is consumed. */
  lemma OneRoundTrip(a: Answer, rest: seq<byte>)
    requires Fits(a)
    ensures ParseOne(a.Words?, Encode(a) + rest) == Complete(a, rest)
  {
    hide ParseOne, Uleb128.Get, Uleb128.Put;
    match a
    case Words(data, status) =>
      var n := Uleb128.Put(|data| / 4);
      var tail := [status] + rest;
      Uleb128.RoundTrip([], |data| / 4, data + tail);
      assert [] + n + (data + tail) == n + data + tail;
      assert Encode(a) + rest == n + data + tail;
      ParsedWords(n, data, status, rest);
    case Message(text) =>
      var n := Uleb128.Put(|text|);
      Uleb128.RoundTrip([], |text|, text + rest);
      assert [] + n + (text + rest) == n + text + rest;
      ParsedMessage(n, text, rest);
  }

  /** Concatenated replies parse back uniquely, whatever follows them. */
  lemma {:induction false} RepliesParseBack(answers: seq<Answer>, rest: seq<byte>)
    requires forall a :: a in answers ==> Fits(a)
    ensures ParseAll(Queries(answers), EncodeAll(answers) + rest) == Complete(answers, rest)
    decreases |answers|
  {
    hide Encode, ParseOne, Fits;
    if answers == [] {
      assert [] + rest == rest;
    } else {
      assert answers[0] in answers && forall a :: a in answers[1..] ==> a in answers;
      var tail := EncodeAll(answers[1..]) + rest;
      OneRoundTrip(answers[0], tail);
      RepliesParseBack(answers[1..], rest);
      assert Encode(answers[0]) + EncodeAll(answers[1..]) + rest == Encode(answers[0]) + tail;
      assert Queries(answers)[1..] == Queries(answers[1..]);
      assert [answers[0]] + answers[1..] == answers;
    }
  }

  /** Two runs of replies to the same questions that look the same are the same. */
  lemma RepliesUnique(a: seq<Answer>, b: seq<Answer>)
    requires forall x :: x in a ==> Fits(x)
    requires forall x :: x in b ==> Fits(x)
    requires Queries(a) == Queries(b) && EncodeAll(a) == EncodeAll(b)
    ensures a == b
  {
    RepliesParseBack(a, []);
    RepliesParseBack(b, []);
  }

  /** What the server answers to edpc: and error:, as an answer. */
  function AnswerOf<D>(h: Handlers<D>, s: Session<D>, cmd: Command): Answer
    requires cmd.Edpc? || cmd.GetError?
  {
    if cmd.GetError? then Message(ErrorText(s.client))
    else
      var a := Try(h, s, cmd);
      Words(DataReply(a, a.number * 4 % TWO64), StatusByte(a.session.client))
  }

  function Answers<D>(h: Handlers<D>, s: Session<D>, cmds: seq<Command>): seq<Answer>
    requires forall c :: c in cmds ==> c.Edpc? || c.GetError?
    decreases |cmds|
  {
    if cmds == [] then []
    else
      assert cmds[0] in cmds;
      [AnswerOf(h, s, cmds[0])] + Answers(h, Execute(h, s, cmds[0]).session, cmds[1..])
  }

  /** No handler returns more words than the 32-bit count of the reply can say. */
  ghost predicate CountsFit<D(!new)>(h: Handlers<D>) {
    forall d: D, cmd: Command :: h.respond(d, cmd).number < TWO32
  }

  lemma AnswerEncodes<D(!new)>(h: Handlers<D>, s: Session<D>, cmd: Command)
    requires cmd.Edpc? || cmd.GetError?
    requires CountsFit(h)
    ensures Fits(AnswerOf(h, s, cmd)) && Execute(h, s, cmd).reply == Encode(AnswerOf(h, s, cmd))
  {
    hide Uleb128.Put, Uleb128.Get, ErrorText;
    if cmd.Edpc? {
      var a := Try(h, s, cmd);
      assert a.number < TWO32 by {
        assert h.respond(s.dev, cmd).number < TWO32;
      }
      assert a.number * 4 % TWO64 == a.number * 4;
    }
  }

  /** What the server answers to a run of edpc: and error: packets is those answers, encoded. */
  lemma {:induction false} AnswersEncode<D(!new)>(h: Handlers<D>, p: Progress<D>, cmds: seq<Command>)
    requires forall c :: c in cmds ==> c.Edpc? || c.GetError?
    requires CountsFit(h)
    ensures var answers := Answers(h, p.session, cmds);
            && ExecuteAll(h, p, cmds).reply == p.reply + EncodeAll(answers)
            && (forall a :: a in answers ==> Fits(a))
    decreases |cmds|
  {
    hide Execute, AnswerOf, CountsFit, Encode, Fits, Advance;
    if cmds == [] {
      assert p.reply + [] == p.reply;
    } else {
      var cmd := cmds[0];
      assert cmd in cmds && forall c :: c in cmds[1..] ==> c in cmds;
      AnswerEncodes(h, p.session, cmd);
      AdvanceParts(h, p, cmd);
      var next := Advance(h, p, cmd);
      AnswersEncode(h, next, cmds[1..]);
      var answer, more := AnswerOf(h, p.session, cmd), Answers(h, next.session, cmds[1..]);
      assert Answers(h, p.session, cmds) == [answer] + more && ([answer] + more)[1..] == more;
      assert p.reply + Encode(answer) + EncodeAll(more) == p.reply + (Encode(answer) + EncodeAll(more));
    }
  }

  /** What a client receives for any run of edpc: and error: packets, whatever the handlers do, takes
      apart into exactly the answers that were given. */
  lemma ServerRepliesParse<D(!new)>(h: Handlers<D>, p: Progress<D>, cmds: seq<Command>, rest: seq<byte>)
    requires forall c :: c in cmds ==> c.Edpc? || c.GetError?
    requires CountsFit(h)
    ensures var answers := Answers(h, p.session, cmds);
            var sent := ExecuteAll(h, p, cmds).reply;
            |p.reply| <= |sent| && ParseAll(Queries(answers), sent[|p.reply|..] + rest) == Complete(answers, rest)
  {
    hide Answers, CountsFit, EncodeAll, ParseAll;
    AnswersEncode(h, p, cmds);
    var answers := Answers(h, p.session, cmds);
    assert (p.reply + EncodeAll(answers))[|p.reply|..] == EncodeAll(answers);
    RepliesParseBack(answers, rest);
  }
}
