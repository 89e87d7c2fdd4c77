/** The state a connection keeps, and the configuration text that changes it. */
module Configure {
  import opened Bytes
  import opened Framing

  const COMMA: byte := 44
  const ASSIGN: byte := 61
  const PLUS: byte := 43
  const MINUS: byte := 45
  // pending_error holds 1024 bytes, the last one a terminator.
  const ERROR_MAX: nat := 1023

  datatype Client = Client(locked: bool, enableLocking: bool, enableStatus: bool, pendingError: seq<byte>)

  /** The first position of c in s, or the length of s. */
  function IndexOf(s: seq<byte>, c: byte): (i: nat)
    ensures i <= |s|
    ensures i < |s| ==> s[i] == c
    ensures forall k :: 0 <= k < i ==> s[k] != c
  {
    if s == [] || s[0] == c then 0 else 1 + IndexOf(s[1..], c)
  }

  lemma IndexOfUnique(s: seq<byte>, c: byte, i: nat)
    requires i <= |s| && (i < |s| ==> s[i] == c)
    requires forall k :: 0 <= k < i ==> s[k] != c
    ensures IndexOf(s, c) == i
  {
  }

  /** What a C string function sees of s: everything before the first zero byte. */
  function UntilNul(s: seq<byte>): (r: seq<byte>)
    ensures 0 !in r
  {
    s[..IndexOf(s, 0)]
  }

  /** The error text that stays after formatting into the fixed-size buffer. */
  function Clip(text: seq<byte>): (r: seq<byte>)
    ensures |r| <= ERROR_MAX && 0 !in r
  {
    var t := UntilNul(text);
    if |t| <= ERROR_MAX then t else t[..ERROR_MAX]
  }

  function SetError(c: Client, text: seq<byte>): Client {
    c.(pendingError := Clip(text))
  }

  datatype Switch = On | Off | Neither
  datatype Setting = Setting(key: seq<byte>, switch: Switch)

  /** A field is a key followed by + or -. The last character of a field longer than one is cut
      off whatever it is; an assignment keeps what stands before the equals sign. */
  function ParseSetting(field: seq<byte>): Setting {
    var eq := IndexOf(field, ASSIGN);
    if eq < |field| then Setting(field[..eq], Neither)
    else if |field| <= 1 then Setting(field, Neither)
    else
      var last := field[|field| - 1];
      Setting(field[..|field| - 1], if last == PLUS then On else if last == MINUS then Off else Neither)
  }

  datatype Message =
    | LockingNeedsSwitch | StatusNeedsSwitch | Unexpected
    | LockingDisabled | AlreadyLocked | AlreadyUnlocked

  function Text(m: Message): (t: seq<byte>)
    ensures t != [] && t[0] != 0
  {
    match m
    case LockingNeedsSwitch => Ascii("configuration ") + Ascii("\"locking\" requires boolean + or -")
    case StatusNeedsSwitch => Ascii("configuration ") + Ascii("\"status\" requires boolean + or -")
    case Unexpected => Ascii("unexpected configuration: ")
    case LockingDisabled => Ascii("locking is disabled")
    case AlreadyLocked => Ascii("already locked")
    case AlreadyUnlocked => Ascii("already unlocked")
  }

  function ApplySetting(f: Features, c: Client, s: Setting): Client {
    if s.key == Ascii("locking") && f.lock && f.unlock then
      if s.switch == Neither then SetError(c, Text(LockingNeedsSwitch))
      else c.(enableLocking := s.switch == On)
    else if s.key == Ascii("status") then
      if s.switch == Neither then SetError(c, Text(StatusNeedsSwitch))
      else c.(enableStatus := s.switch == On)
    else SetError(c, Text(Unexpected) + s.key)
  }

  /** The comma-separated fields of a text; a comma at the very end starts no further field. */
  function SplitFields(text: seq<byte>): (fields: seq<seq<byte>>)
    decreases |text|
  {
    if text == [] then []
    else
      var i := IndexOf(text, COMMA);
      [text[..i]] + SplitFields(if i < |text| then text[i + 1..] else [])
  }

  /** Fields are applied from left to right until one is invalid. */
  function FoldFields(f: Features, c: Client, fields: seq<seq<byte>>): Client
    decreases |fields|
  {
    if fields == [] || c.pendingError != [] then c
    else FoldFields(f, ApplySetting(f, c, ParseSetting(fields[0])), fields[1..])
  }

  function ApplyConfig(f: Features, c: Client, body: seq<byte>): Client {
    FoldFields(f, c, SplitFields(UntilNul(body)))
  }

  function JoinFields(fields: seq<seq<byte>>): seq<byte> {
    if fields == [] then [] else fields[0] + [COMMA] + JoinFields(fields[1..])
  }

  /** A text with the final comma that the split does not care about. */
  function Closed(text: seq<byte>): seq<byte> {
    if text == [] || text[|text| - 1] == COMMA then text else text + [COMMA]
  }

  /** The split is the only one there is: no field holds a comma, and putting a comma after each
      field gives the text back, with a final comma added where it had none. */
  lemma {:induction false} SplitJoin(text: seq<byte>)
    ensures forall field :: field in SplitFields(text) ==> COMMA !in field
    ensures JoinFields(SplitFields(text)) == Closed(text)
    decreases |text|
  {
    if text != [] {
      var i := IndexOf(text, COMMA);
      var rest := if i < |text| then text[i + 1..] else [];
      SplitJoin(rest);
      JoinCons(text[..i], SplitFields(rest));
      ClosedSplit(text, i);
      assert COMMA !in text[..i];
    }
  }

  lemma JoinCons(field: seq<byte>, fields: seq<seq<byte>>)
    ensures JoinFields([field] + fields) == field + [COMMA] + JoinFields(fields)
  {
    assert ([field] + fields)[1..] == fields;
  }

  lemma ClosedSplit(text: seq<byte>, i: nat)
    requires text != [] && i == IndexOf(text, COMMA)
    ensures Closed(text) == text[..i] + [COMMA] + Closed(if i < |text| then text[i + 1..] else [])
  {
    if i < |text| {
      var rest := text[i + 1..];
      assert text == text[..i] + [COMMA] + rest;
      if rest != [] {
        assert text[|text| - 1] == rest[|rest| - 1];
      }
    } else {
      assert text[..i] == text;
    }
  }

  /** A configuration never touches the lock, nor enables locking without both handlers. */
  lemma {:induction false} ConfigKeeps(f: Features, c: Client, fields: seq<seq<byte>>)
    requires c.enableLocking ==> f.lock && f.unlock
    ensures var r := FoldFields(f, c, fields);
            r.locked == c.locked && (r.enableLocking ==> f.lock && f.unlock)
    decreases |fields|
  {
    hide Text;
    if fields != [] && c.pendingError == [] {
      ConfigKeeps(f, ApplySetting(f, c, ParseSetting(fields[0])), fields[1..]);
    }
  }

  /** An invalid field leaves a nonempty error, so the fold stops there. */
  lemma InvalidStops(f: Features, c: Client, s: Setting)
    ensures ApplySetting(f, c, s).pendingError == [] <==>
              c.pendingError == [] && s.switch != Neither &&
              (s.key == Ascii("status") || (s.key == Ascii("locking") && f.lock && f.unlock))
  {
    hide Text;
    ClipNonEmpty(Text(Unexpected) + s.key);
    ClipNonEmpty(Text(LockingNeedsSwitch));
    ClipNonEmpty(Text(StatusNeedsSwitch));
  }

  lemma ClipNonEmpty(text: seq<byte>)
    requires text != [] && text[0] != 0
    ensures Clip(text) != []
  {
  }
}
