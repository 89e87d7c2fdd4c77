/** What the text of configure: does, said in the characters a client writes. */
module Settings {
  import opened Bytes
  import opened Framing
  import opened Configure

  datatype Key = Locking | Status

  /** A key switched on or off. */
  datatype Choice = Choice(key: Key, on: bool)

  function ChoiceText(c: Choice): string {
    match c.key
    case Locking => if c.on then "locking+" else "locking-"
    case Status => if c.on then "status+" else "status-"
  }

  function TextsOf(choices: seq<Choice>): seq<seq<byte>> {
    if choices == [] then [] else [Ascii(ChoiceText(choices[0]))] + TextsOf(choices[1..])
  }

  /** Fields with commas between them. */
  function Listed(fields: seq<seq<byte>>): seq<byte> {
    if fields == [] then []
    else if |fields| == 1 then fields[0]
    else fields[0] + Ascii(",") + Listed(fields[1..])
  }

  /** What the last choice of a key says, or what was there before. */
  function Last(choices: seq<Choice>, key: Key, before: bool): bool {
    if choices == [] then before
    else
      var c := choices[|choices| - 1];
      if c.key == key then c.on else Last(choices[..|choices| - 1], key, before)
  }

  /** Locking can be chosen only if both handlers exist. */
  predicate Possible(f: Features, choices: seq<Choice>) {
    forall c :: c in choices ==> c.key == Status || (f.lock && f.unlock)
  }

  function Chosen(c: Client, choices: seq<Choice>): Client {
    c.(enableLocking := Last(choices, Locking, c.enableLocking),
       enableStatus := Last(choices, Status, c.enableStatus))
  }

  // ---------------------------------------------------------------- one field

  /** The forms a field can have: a key and a last character, a key and a value, or less. */
  datatype Field =
    | Switched(key: seq<byte>, last: byte)
    | Assigned(key: seq<byte>, value: seq<byte>)
    | Letter(last: byte)
    | Empty

  function FieldText(field: Field): seq<byte> {
    match field
    case Switched(key, last) => key + [last]
    case Assigned(key, value) => key + Ascii("=") + value
    case Letter(last) => [last]
    case Empty => []
  }

  /** The first equals sign is the one the form says. */
  predicate Formed(field: Field) {
    match field
    case Switched(key, last) => key != [] && Ascii("=")[0] !in key && last != Ascii("=")[0]
    case Assigned(key, _) => Ascii("=")[0] !in key
    case Letter(last) => last != Ascii("=")[0]
    case Empty => true
  }

  datatype Verdict = Sets(choice: Choice) | Complains(text: seq<byte>)

  function KeyVerdict(f: Features, key: seq<byte>, last: string): Verdict {
    if key == Ascii("status") then
      if last == "+" then Sets(Choice(Status, true))
      else if last == "-" then Sets(Choice(Status, false))
      else Complains(Ascii("configuration ") + Ascii("\"status\" requires boolean + or -"))
    else if key == Ascii("locking") && f.lock && f.unlock then
      if last == "+" then Sets(Choice(Locking, true))
      else if last == "-" then Sets(Choice(Locking, false))
      else Complains(Ascii("configuration ") + Ascii("\"locking\" requires boolean + or -"))
    else Complains(Ascii("unexpected configuration: ") + key)
  }

  /** What the server makes of a field. */
  function VerdictOn(f: Features, field: Field): Verdict {
    match field
    case Switched(key, last) => KeyVerdict(f, key, [last as char])
    case Assigned(key, _) => KeyVerdict(f, key, "")
    case Letter(last) => Complains(Ascii("unexpected configuration: ") + [last])
    case Empty => Complains(Ascii("unexpected configuration: "))
  }

  /** An error text as the server keeps it: up to a zero byte, and at most 1023 bytes of it. */
  lemma ClipKeeps(text: seq<byte>, rest: seq<byte>)
    requires 0 !in text
    ensures Clip(text) == if |text| <= 1023 then text else text[..1023]
    ensures Clip(text + [0] + rest) == Clip(text)
  {
    IndexOfUnique(text, 0, |text|);
    var all := text + [0] + rest;
    assert all[|text|] == 0 && forall k :: 0 <= k < |text| ==> all[k] == text[k];
    IndexOfUnique(all, 0, |text|);
    assert all[..|text|] == text && text[..|text|] == text;
  }

  lemma SignBytes()
    ensures Ascii("+") == [PLUS] && Ascii("-") == [MINUS] && Ascii("=") == [ASSIGN] && Ascii(",") == [COMMA]
    ensures PLUS as char == '+' && MINUS as char == '-'
  {
  }

  lemma Parsed(field: Field)
    requires Formed(field)
    ensures var s := ParseSetting(FieldText(field));
            match field
            case Switched(key, last) =>
              s == Setting(key, if last as char == '+' then On else if last as char == '-' then Off else Neither)
            case Assigned(key, _) => s == Setting(key, Neither)
            case Letter(last) => s == Setting([last], Neither)
            case Empty => s == Setting([], Neither)
  {
    SignBytes();
    hide Ascii;
    var text := FieldText(field);
    match field
    case Switched(key, last) =>
      IndexOfUnique(text, ASSIGN, |text|);
      assert text[..|text| - 1] == key;
    case Assigned(key, value) =>
      IndexOfUnique(text, ASSIGN, |key|);
      assert text[..|key|] == key;
    case Letter(last) => IndexOfUnique(text, ASSIGN, 1);
    case Empty =>
  }

  lemma Messages()
    ensures Text(StatusNeedsSwitch) == Ascii("configuration ") + Ascii("\"status\" requires boolean + or -")
    ensures Text(LockingNeedsSwitch) == Ascii("configuration ") + Ascii("\"locking\" requires boolean + or -")
    ensures Text(Unexpected) == Ascii("unexpected configuration: ")
  {
  }

  /** One field sets the flag it names, or leaves the error it deserves and every flag as it was. */
  lemma FieldApplied(f: Features, c: Client, field: Field)
    requires Formed(field)
    ensures ApplySetting(f, c, ParseSetting(FieldText(field)))
         == match VerdictOn(f, field)
            case Sets(choice) =>
              if choice.key == Status then c.(enableStatus := choice.on) else c.(enableLocking := choice.on)
            case Complains(text) => c.(pendingError := Clip(text))
  {
    Parsed(field);
    Messages();
    assert Ascii("status") != Ascii("locking");
    hide Ascii, ParseSetting, FieldText, Text, Clip;
    if field.Empty? {
      NoKey();
    } else if field.Letter? {
      ShortKey(field.last);
    }
  }

  lemma NoKey()
    ensures Ascii("status") != [] && Ascii("locking") != []
    ensures forall t: seq<byte> :: t + [] == t
  {
  }

  lemma ShortKey(x: byte)
    ensures Ascii("status") != [x] && Ascii("locking") != [x]
  {
  }

  // ---------------------------------------------------------------- whole texts

  lemma SplitFirst(field: seq<byte>, rest: seq<byte>)
    requires COMMA !in field
    ensures SplitFields(field + [COMMA] + rest) == [field] + SplitFields(rest)
    ensures field != [] ==> SplitFields(field) == [field]
  {
    var text := field + [COMMA] + rest;
    assert text[|field|] == COMMA && forall k :: 0 <= k < |field| ==> text[k] == field[k];
    IndexOfUnique(text, COMMA, |field|);
    IndexOfUnique(field, COMMA, |field|);
    assert text[..|field|] == field && text[|field| + 1..] == rest && field[..|field|] == field;
    assert SplitFields([]) == [] && [field] + [] == [field];
  }

  lemma UntilNulAppend(a: seq<byte>, tail: seq<byte>)
    requires 0 !in a
    ensures UntilNul(a + tail) == a + UntilNul(tail)
  {
    var i, all := IndexOf(tail, 0), a + tail;
    assert forall k :: 0 <= k < |a| + i ==> all[k] == if k < |a| then a[k] else tail[k - |a|];
    IndexOfUnique(all, 0, |a| + i);
    assert all[..|a| + i] == a + tail[..i];
  }

  lemma ChoiceFields(c: Choice)
    ensures var t := Ascii(ChoiceText(c)); t != [] && 0 !in t && COMMA !in t
    ensures FieldText(Switched(KeyText(c.key), if c.on then PLUS else MINUS)) == Ascii(ChoiceText(c))
    ensures Formed(Switched(KeyText(c.key), if c.on then PLUS else MINUS))
  {
    PlainText(ChoiceText(c));
    KeyAndSign(c);
  }

  lemma PlainText(t: string)
    requires forall i :: 0 <= i < |t| ==> 0 as char < t[i] < 128 as char && t[i] != ','
    ensures 0 !in Ascii(t) && COMMA !in Ascii(t)
  {
  }

  lemma KeyAndSign(c: Choice)
    ensures FieldText(Switched(KeyText(c.key), if c.on then PLUS else MINUS)) == Ascii(ChoiceText(c))
  {
  }

  function KeyText(key: Key): seq<byte> {
    if key == Status then Ascii("status") else Ascii("locking")
  }

  lemma ChoiceApplied(f: Features, c: Client, choice: Choice)
    requires Possible(f, [choice])
    ensures ApplySetting(f, c, ParseSetting(Ascii(ChoiceText(choice))))
         == if choice.key == Status then c.(enableStatus := choice.on) else c.(enableLocking := choice.on)
  {
    var field := Switched(KeyText(choice.key), if choice.on then PLUS else MINUS);
    ChoiceFields(choice);
    FieldApplied(f, c, field);
    SignBytes();
    assert choice in [choice] && Ascii("status") != Ascii("locking");
    hide Ascii, ChoiceText, ApplySetting, ParseSetting, FieldText, Formed;
    assert VerdictOn(f, field) == Sets(choice);
  }

  lemma {:induction false} LastCons(choice: Choice, choices: seq<Choice>, key: Key, before: bool)
    ensures Last([choice] + choices, key, before)
         == Last(choices, key, if choice.key == key then choice.on else before)
  {
    var all := [choice] + choices;
    if choices == [] {
      assert all == [choice] && all[..0] == [];
    } else {
      assert all[..|all| - 1] == [choice] + choices[..|choices| - 1];
      LastCons(choice, choices[..|choices| - 1], key, before);
    }
  }

  lemma {:induction false} FoldChoices(f: Features, c: Client, choices: seq<Choice>, more: seq<seq<byte>>)
    requires c.pendingError == [] && Possible(f, choices)
    ensures FoldFields(f, c, TextsOf(choices) + more) == FoldFields(f, Chosen(c, choices), more)
    decreases |choices|
  {
    hide ParseSetting, ApplySetting, Chosen, Ascii, ChoiceText;
    if choices == [] {
      assert [] + more == more;
      NoneChosen(c);
    } else {
      var choice, rest := choices[0], choices[1..];
      assert choice in choices && forall x :: x in rest ==> x in choices;
      assert [choice] + rest == choices;
      ChosenCons(f, c, choice, rest);
      FoldChoices(f, ApplySetting(f, c, ParseSetting(Ascii(ChoiceText(choice)))), rest, more);
      var all := TextsOf(choices) + more;
      assert all[0] == Ascii(ChoiceText(choice)) && all[1..] == TextsOf(rest) + more;
    }
  }

  lemma NoneChosen(c: Client)
    ensures Chosen(c, []) == c
  {
  }

  lemma ChosenCons(f: Features, c: Client, choice: Choice, rest: seq<Choice>)
    requires Possible(f, [choice] + rest) && c.pendingError == []
    ensures var next := ApplySetting(f, c, ParseSetting(Ascii(ChoiceText(choice))));
            next.pendingError == [] && Chosen(next, rest) == Chosen(c, [choice] + rest)
  {
    assert ([choice] + rest)[0] == choice;
    hide ParseSetting, ApplySetting, Last, Ascii, ChoiceText;
    ChoiceApplied(f, c, choice);
    LastCons(choice, rest, Locking, c.enableLocking);
    LastCons(choice, rest, Status, c.enableStatus);
  }

  lemma Regrouped<T>(a: seq<T>, b: seq<T>, c: seq<T>, d: seq<T>)
    ensures a + b + c + d == a + b + (c + d) && a + [] == a
  {
  }

  /** Choices, each with a comma behind it. */
  function Ended(choices: seq<Choice>): seq<byte> {
    if choices == [] then [] else Ascii(ChoiceText(choices[0])) + Ascii(",") + Ended(choices[1..])
  }

  lemma {:induction false} EndedSplit(choices: seq<Choice>, rest: seq<byte>)
    ensures SplitFields(Ended(choices) + rest) == TextsOf(choices) + SplitFields(rest)
    ensures 0 !in Ended(choices)
    decreases |choices|
  {
    hide SplitFields, Ascii, ChoiceText;
    if choices == [] {
      assert [] + rest == rest && [] + SplitFields(rest) == SplitFields(rest);
    } else {
      var t, more := Ascii(ChoiceText(choices[0])), Ended(choices[1..]);
      ChoiceFields(choices[0]);
      SignBytes();
      EndedSplit(choices[1..], rest);
      SplitFirst(t, more + rest);
      Regrouped(t, [COMMA], more, rest);
      Regrouped([t], [], TextsOf(choices[1..]), SplitFields(rest));
    }
  }

  lemma Conses(c: Choice, rest: seq<Choice>)
    ensures var t := Ascii(ChoiceText(c));
            && TextsOf([c] + rest) == [t] + TextsOf(rest) && Ended([c] + rest) == t + Ascii(",") + Ended(rest)
            && Listed([t] + TextsOf(rest)) == (if rest == [] then t else t + Ascii(",") + Listed(TextsOf(rest)))
  {
    hide Ascii, ChoiceText;
    var t := Ascii(ChoiceText(c));
    assert ([c] + rest)[1..] == rest && ([t] + TextsOf(rest))[1..] == TextsOf(rest);
    assert rest != [] ==> |TextsOf(rest)| > 0;
    assert rest == [] ==> TextsOf(rest) == [];
  }

  lemma {:induction false} ListedIsEnded(choices: seq<Choice>, last: Choice)
    ensures Listed(TextsOf(choices + [last])) == Ended(choices) + Ascii(ChoiceText(last))
    ensures TextsOf(choices + [last]) == TextsOf(choices) + [Ascii(ChoiceText(last))]
    decreases |choices|
  {
    hide Ascii, ChoiceText, TextsOf, Listed, Ended;
    var t := Ascii(ChoiceText(last));
    NoTexts();
    if choices == [] {
      Conses(last, []);
      assert choices + [last] == [last] + [] == [last];
      assert [] + t == t && [] + [t] == [t] + [];
    } else {
      var c, rest := choices[0], choices[1..];
      var u := Ascii(ChoiceText(c));
      ListedIsEnded(rest, last);
      Conses(c, rest + [last]);
      Conses(c, rest);
      assert choices + [last] == [c] + (rest + [last]) && choices == [c] + rest;
      assert u + Ascii(",") + (Ended(rest) + t) == u + Ascii(",") + Ended(rest) + t;
      assert [u] + (TextsOf(rest) + [t]) == [u] + TextsOf(rest) + [t];
    }
  }

  lemma NoTexts()
    ensures TextsOf([]) == [] && Ended([]) == []
  {
  }

  /** Text behind which nothing more is looked at. */
  predicate Ends(tail: seq<byte>) {
    tail == [] || tail[0] == 0
  }

  lemma NothingBehind(tail: seq<byte>)
    requires Ends(tail)
    ensures UntilNul(tail) == []
  {
  }

  /** With no error pending, a text of choices leaves each flag as the last choice of it says, and
      everything else as it was; a comma at its end and whatever follows a zero byte do not matter. */
  lemma Configured(f: Features, c: Client, choices: seq<Choice>, tail: seq<byte>)
    requires c.pendingError == [] && Possible(f, choices) && Ends(tail)
    ensures ApplyConfig(f, c, Listed(TextsOf(choices)) + tail) == Chosen(c, choices)
    ensures ApplyConfig(f, c, Ended(choices) + tail) == Chosen(c, choices)
  {
    hide Ascii, UntilNul, SplitFields, Last, ChoiceText;
    NothingBehind(tail);
    SplitNothing();
    EndedSplit(choices, []);
    UntilNulAppend(Ended(choices), tail);
    FoldChoices(f, c, choices, []);
    assert Ended(choices) + [] == Ended(choices) && TextsOf(choices) + [] == TextsOf(choices);
    if choices == [] {
      assert Listed(TextsOf(choices)) == [];
    } else {
      var n := |choices| - 1;
      var t := Ascii(ChoiceText(choices[n]));
      ListedIsEnded(choices[..n], choices[n]);
      assert choices[..n] + [choices[n]] == choices;
      ChoiceFields(choices[n]);
      EndedSplit(choices[..n], t);
      SplitFirst(t, []);
      UntilNulAppend(Listed(TextsOf(choices)), tail);
      assert Listed(TextsOf(choices)) + [] == Listed(TextsOf(choices));
    }
  }

  lemma SplitNothing()
    ensures SplitFields([]) == []
  {
  }

  /** A field the server complains about ends the configuration: the choices before it hold, the error
      is the one it deserves, and nothing behind it is looked at. */
  lemma Misconfigured(f: Features, c: Client, choices: seq<Choice>, field: Field, tail: seq<byte>)
    requires c.pendingError == [] && Possible(f, choices) && Formed(field) && VerdictOn(f, field).Complains?
    requires 0 !in FieldText(field) && COMMA !in FieldText(field)
    requires (Ends(tail) && field != Empty) || (tail != [] && tail[0] as char == ',')
    ensures ApplyConfig(f, c, Ended(choices) + FieldText(field) + tail)
         == Chosen(c, choices).(pendingError := Clip(VerdictOn(f, field).text))
  {
    hide Ascii, UntilNul, SplitFields, Last, ChoiceText, FieldText, ParseSetting, ApplySetting, Clip, VerdictOn;
    hide Possible, Formed;
    var t, rest := FieldText(field), UntilNul(tail);
    EndedSplit(choices, t + rest);
    BodyCut(Ended(choices), t, tail);
    TailCut(tail);
    FieldThere(field);
    var more := SplitBad(t, rest);
    FoldChoices(f, c, choices, [t] + more);
    StopsAt(f, Chosen(c, choices), field, more);
  }

  lemma BodyCut(before: seq<byte>, t: seq<byte>, tail: seq<byte>)
    requires 0 !in before && 0 !in t
    ensures UntilNul(before + t + tail) == before + (t + UntilNul(tail))
  {
    hide UntilNul;
    UntilNulAppend(t, tail);
    UntilNulAppend(before, t + tail);
    assert before + (t + tail) == before + t + tail;
  }

  lemma SplitBad(t: seq<byte>, rest: seq<byte>) returns (more: seq<seq<byte>>)
    requires COMMA !in t && (if rest == [] then t != [] else rest[0] == COMMA)
    ensures SplitFields(t + rest) == [t] + more
  {
    hide SplitFields;
    if rest == [] {
      more := [];
      SplitFirst(t, []);
      assert t + rest == t && [t] + [] == [t];
    } else {
      more := SplitFields(rest[1..]);
      SplitFirst(t, rest[1..]);
      assert t + rest == t + [COMMA] + rest[1..];
    }
  }

  lemma StopsAt(f: Features, c: Client, field: Field, more: seq<seq<byte>>)
    requires c.pendingError == [] && Formed(field) && VerdictOn(f, field).Complains?
    ensures FoldFields(f, c, [FieldText(field)] + more) == c.(pendingError := Clip(VerdictOn(f, field).text))
  {
    hide FieldText, ParseSetting, ApplySetting, Clip, VerdictOn, Formed;
    FieldApplied(f, c, field);
    ComplaintStays(f, field);
    assert ([FieldText(field)] + more)[1..] == more;
  }

  lemma FieldThere(field: Field)
    requires Formed(field)
    ensures FieldText(field) == [] ==> field == Empty
  {
  }

  lemma TailCut(tail: seq<byte>)
    requires Ends(tail) || tail[0] as char == ','
    ensures var rest := UntilNul(tail); if Ends(tail) then rest == [] else rest != [] && rest[0] == COMMA
  {
  }

  lemma ComplaintStays(f: Features, field: Field)
    requires VerdictOn(f, field).Complains?
    ensures Clip(VerdictOn(f, field).text) != []
  {
    Messages();
    hide Ascii, Clip;
    ClipNonEmpty(VerdictOn(f, field).text);
  }
}
