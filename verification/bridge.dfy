/** The debug bridge registers and the three programs that drive them: the kernel driver's ioctl
    loop and the byte-driven loops of the two user-space servers. */
module Bridge {
  import opened Bytes
  import opened Jtag

  const OPCODE_SHIFT: int := 1
  const OPCODE_BYPASS: int := 2
  const ETIMEDOUT: int := 110
  // Number of times the driver polls the control register.
  const MAX_POLLS: nat := 100

  /** The register block of the bridge in front of a device. Writing a control word with bit 0 set
      shifts LENGTH bits; the bit then reads as set for as many reads as the next delay says. The
      bits of TDO above LENGTH are arbitrary. */
  class DebugBridge<!S> {
    const step: Device<S>
    var dev: S
    var length: nat
    var tms: nat
    var tdi: nat
    var tdo: nat
    var mode: nat               // the control register without bit 0
    var busy: nat               // reads left until bit 0 clears
    var delays: seq<nat>
    var junk: seq<nat>
    var log: seq<Transaction>

    constructor (step: Device<S>, dev: S, delays: seq<nat>, junk: seq<nat>)
      ensures this.step == step && this.dev == dev && this.delays == delays && this.junk == junk
      ensures busy == 0 && log == [] && mode == 0
    {
      this.step, this.dev, this.delays, this.junk := step, dev, delays, junk;
      length, tms, tdi, tdo, mode, busy := 0, 0, 0, 0, 0, 0;
      log := [];
    }

    /** How long the next shift will read as busy. */
    function Delay(): nat
      reads this
    {
      if delays == [] then 0 else delays[0]
    }

    method WriteControl(v: nat)
      modifies this
      ensures mode == v - v % 2 && length == old(length)
      ensures v % 2 == 0 ==> dev == old(dev) && log == old(log) && busy == old(busy) && delays == old(delays)
      ensures v % 2 == 1 ==>
                var t := Transaction(length, old(tms), old(tdi), v);
                var r := RunTransaction(step, old(dev), t);
                && dev == r.0 && Bits(tdo, length) == r.1 && log == old(log) + [t]
                && busy == old(Delay()) && delays == if old(delays) == [] then [] else old(delays)[1..]
    {
      mode := v - v % 2;
      if v % 2 == 1 {
        var t := Transaction(length, tms, tdi, v);
        var r := RunTransaction(step, dev, t);
        var above := if junk == [] then 0 else junk[0];
        BitsOfValue(r.1, above);
        dev, tdo, log := r.0, ValueOf(r.1) + Pow2(length) * above, log + [t];
        busy := Delay();
        delays := if delays == [] then [] else delays[1..];
        junk := if junk == [] then [] else junk[1..];
      }
    }

    method ReadControl() returns (v: nat)
      modifies this`busy
      ensures v == mode + if old(busy) > 0 then 1 else 0
      ensures busy == if old(busy) > 0 then old(busy) - 1 else 0
    {
      v := mode + if busy > 0 then 1 else 0;
      busy := if busy > 0 then busy - 1 else 0;
    }
  }

  // ---------------------------------------------------------------- proofs about plans

  /** One more word behind at bytes that were shifted as full words. */
  lemma {:induction false} PlanExtend(tms: seq<byte>, tdi: seq<byte>, at: nat, m: nat, control: nat)
    requires at % 4 == 0 && 0 < m <= 32
    requires at + BytesFor(m) <= |tms| && at + BytesFor(m) <= |tdi|
    ensures BytesFor(8 * at) == at && BytesFor(8 * at + m) == at + BytesFor(m)
    ensures Plan(tms, tdi, 8 * at + m, control)
         == Plan(tms, tdi, 8 * at, control) + [Word(tms[at..], tdi[at..], m, control)]
    decreases at
  {
    hide Plan, Word, BytesFor;
    WholeBytes(at, 0);
    WholeBytes(at, m);
    if at == 0 {
      PlanOneWord(tms, tdi, m, control);
    } else {
      PlanExtend(tms[4..], tdi[4..], at - 4, m, control);
      PlanStep(tms, tdi, at - 4, m, control);
    }
  }

  lemma PlanStep(tms: seq<byte>, tdi: seq<byte>, at: nat, m: nat, control: nat)
    requires 0 < m <= 32 && at + 4 + BytesFor(m) <= |tms| && at + 4 + BytesFor(m) <= |tdi|
    requires BytesFor(8 * at) == at && BytesFor(8 * at + m) == at + BytesFor(m)
    requires BytesFor(8 * (at + 4)) == at + 4 && BytesFor(8 * (at + 4) + m) == at + 4 + BytesFor(m)
    requires Plan(tms[4..], tdi[4..], 8 * at + m, control)
          == Plan(tms[4..], tdi[4..], 8 * at, control) + [Word(tms[4..][at..], tdi[4..][at..], m, control)]
    ensures Plan(tms, tdi, 8 * (at + 4) + m, control)
         == Plan(tms, tdi, 8 * (at + 4), control) + [Word(tms[at + 4..], tdi[at + 4..], m, control)]
  {
    hide Plan, Word, BytesFor;
    var n := 8 * at;
    DropFour(tms, at + 4);
    DropFour(tdi, at + 4);
    PlanHead(tms, tdi, n, control);
    PlanHead(tms, tdi, n + m, control);
    assert 8 * (at + 4) == n + 32 && 8 * (at + 4) + m == n + m + 32;
    ConsSnoc(Word(tms, tdi, 32, control), Plan(tms[4..], tdi[4..], n, control),
             Word(tms[at + 4..], tdi[at + 4..], m, control));
  }

  /** Whole bytes and a rest. */
  lemma WholeBytes(at: nat, m: nat)
    ensures BytesFor(8 * at + m) == at + BytesFor(m) && BytesFor(0) == 0
  {
    ModUnique(8 * at + m + 7, 8, at + (m + 7) / 8, (m + 7) % 8);
  }

  lemma ConsSnoc(x: Transaction, p: seq<Transaction>, y: Transaction)
    ensures ([x] + p) + [y] == [x] + (p + [y])
  {
  }

  lemma DropFour(v: seq<byte>, at: nat)
    requires 4 <= at <= |v|
    ensures v[4..][at - 4..] == v[at..]
  {
  }

  lemma PlanOneWord(tms: seq<byte>, tdi: seq<byte>, m: nat, control: nat)
    requires 0 < m <= 32 && BytesFor(m) <= |tms| && BytesFor(m) <= |tdi|
    ensures Plan(tms, tdi, m, control) == Plan(tms, tdi, 0, control) + [Word(tms[0..], tdi[0..], m, control)]
  {
    assert tms[0..] == tms && tdi[0..] == tdi;
    assert Plan(tms, tdi, 0, control) == [];
    assert Plan(tms[BytesFor(m)..], tdi[BytesFor(m)..], 0, control) == [];
  }

  lemma PlanHead(tms: seq<byte>, tdi: seq<byte>, n: nat, control: nat)
    requires BytesFor(n + 32) <= |tms| && BytesFor(n + 32) <= |tdi|
    ensures BytesFor(32) == 4 <= BytesFor(n + 32) == BytesFor(n) + 4
    ensures Plan(tms, tdi, n + 32, control) == [Word(tms, tdi, 32, control)] + Plan(tms[4..], tdi[4..], n, control)
  {
    assert n + 32 - 32 == n;
  }

  /** The device state s and the TDO vector out are those of the first n bits shifted one by one. */
  ghost predicate Shifted<S>(step: Device<S>, s0: S, s: S, tms: seq<byte>, tdi: seq<byte>, n: nat, out: seq<byte>)
    requires BytesFor(n) <= |tms| && BytesFor(n) <= |tdi| && BytesFor(n) <= |out|
  {
    (s, VectorBits(out)[..n]) == Reference(step, s0, tms, tdi, n)
  }

  /** Bytes stored behind others; only the m low bits of the word have a meaning. */
  lemma StoreWord(before: seq<byte>, w: nat, m: nat)
    requires m <= 32
    ensures 8 * |before| + m <= |VectorBits(before + ToLe(BytesFor(m), w))|
    ensures VectorBits(before + ToLe(BytesFor(m), w))[..8 * |before| + m] == VectorBits(before) + Bits(w, m)
  {
    var k := BytesFor(m);
    assert m <= 8 * k;
    hide BytesFor, VectorBits, Bits, ToLe;
    VectorBitsAppend(before, ToLe(k, w));
    StoredBits(k, w);
    BitsPrefix(w, 8 * k, m);
    TakeMore(VectorBits(before), Bits(w, 8 * k), m);
  }

  lemma TakeMore(a: seq<bool>, b: seq<bool>, m: nat)
    requires m <= |b|
    ensures (a + b)[..|a| + m] == a + b[..m]
  {
  }

  /** One more word: from the state after the first at bytes to the state after m more bits. */
  lemma WordStep<S>(
    step: Device<S>, s0: S, s: S, tms: seq<byte>, tdi: seq<byte>, at: nat, m: nat, out: seq<byte>, w: nat,
    control: nat)
    requires at % 4 == 0 && 0 < m <= 32 && |out| == at
    requires at + BytesFor(m) <= |tms| && at + BytesFor(m) <= |tdi|
    requires BytesFor(8 * at) == at && Shifted(step, s0, s, tms, tdi, 8 * at, out)
    requires Bits(w, m) == RunTransaction(step, s, Word(tms[at..], tdi[at..], m, control)).1
    ensures BytesFor(8 * at + m) == at + BytesFor(m)
    ensures Shifted(step, s0, RunTransaction(step, s, Word(tms[at..], tdi[at..], m, control)).0,
                    tms, tdi, 8 * at + m, out + ToLe(BytesFor(m), w))
  {
    hide VectorBits, Reference, Bits, ToLe, Word, RunTransaction, Serial, FromLe, Pow2, BytesFor;
    WholeBytes(at, m);
    assert VectorBits(out)[..8 * at] == VectorBits(out);
    SerialNext(step, s0, s, VectorBits(out), tms, tdi, at, m, control);
    StoreWord(out, w, m);
  }

  lemma SerialNext<S>(
    step: Device<S>, s0: S, s: S, bits: seq<bool>, tms: seq<byte>, tdi: seq<byte>, at: nat, m: nat, control: nat)
    requires at % 4 == 0 && 0 < m <= 32
    requires at + BytesFor(m) <= |tms| && at + BytesFor(m) <= |tdi|
    requires BytesFor(8 * at) == at && (s, bits) == Reference(step, s0, tms, tdi, 8 * at)
    ensures BytesFor(8 * at + m) == at + BytesFor(m)
    ensures var r := RunTransaction(step, s, Word(tms[at..], tdi[at..], m, control));
            Reference(step, s0, tms, tdi, 8 * at + m) == (r.0, bits + r.1)
  {
    hide Reference, Plan, RunPlan, Word, RunTransaction, BytesFor;
    PlanExtend(tms, tdi, at, m, control);
    PlanRefinesSerial(step, s0, tms, tdi, 8 * at, control);
    PlanRefinesSerial(step, s0, tms, tdi, 8 * at + m, control);
    RunPlanSnoc(step, s0, Plan(tms, tdi, 8 * at, control), Word(tms[at..], tdi[at..], m, control));
  }

  // ---------------------------------------------------------------- the kernel driver

  /** Shifts one word. It fails exactly when the bridge stays busy for all polls; the word has been
      shifted all the same. */
  method XvcShiftBits<S>(db: DebugBridge<S>, tmsBits: nat, tdiBits: nat) returns (status: int, tdoBits: nat)
    requires db.busy == 0 && db.mode % 2 == 0
    modifies db
    ensures var t := Transaction(db.length, tmsBits, tdiBits, db.mode + 1);
            var r := RunTransaction(db.step, old(db.dev), t);
            && db.log == old(db.log) + [t] && db.dev == r.0
            && (status == 0 ==> Bits(tdoBits, db.length) == r.1 && db.busy == 0)
    ensures status == if old(db.Delay()) < 100 then 0 else -110
    ensures db.length == old(db.length) && db.mode == old(db.mode)
    ensures db.delays == if old(db.delays) == [] then [] else old(db.delays)[1..]
  {
    db.tms := tmsBits;
    db.tdi := tdiBits;
    var control := db.ReadControl();
    db.WriteControl(control - control % 2 + 1);
    tdoBits := 0;
    var count: nat := MAX_POLLS;
    ghost var delay := db.busy;
    assert db.mode == old(db.mode) && db.mode % 2 == 0;
    while count > 0
      invariant count <= MAX_POLLS && db.busy == delay - (MAX_POLLS - count) >= 0
      invariant db.mode % 2 == 0
      modifies db`busy
    {
      control := db.ReadControl();
      if control % 2 == 0 {
        break;
      }
      count := count - 1;
    }
    if count == 0 {
      return -ETIMEDOUT, 0;
    }
    tdoBits := db.tdo;
    status := 0;
  }

  /** The number of words shifted before the first that times out, or w if none of the first w does. */
  function WordsInTime(delays: seq<nat>, w: nat): (k: nat)
    ensures k <= w
  {
    if w == 0 || delays == [] then w
    else if delays[0] >= MAX_POLLS then 0
    else 1 + WordsInTime(delays[1..], w - 1)
  }

  /** That is the first word whose shift reads as busy a hundred times; where there are no delays left
      the bridge is never busy. */
  lemma {:induction false} FirstTimeOut(delays: seq<nat>, w: nat)
    ensures var k := WordsInTime(delays, w);
            && (forall i :: 0 <= i < k && i < |delays| ==> delays[i] < 100)
            && (k < w ==> k < |delays| && delays[k] >= 100)
    decreases w
  {
    if w > 0 && delays != [] {
      FirstTimeOut(delays[1..], w - 1);
      var k := WordsInTime(delays, w);
      forall i | 0 <= i < k && i < |delays|
        ensures delays[i] < 100
      {
        assert i > 0 ==> delays[1..][i - 1] == delays[i];
      }
    }
  }

  /** The number of bits the driver shifts: all of them, or those up to and including the word that
      timed out. */
  function BitsShifted(n: nat, words: int): (bits: nat)
    requires words >= -1
    ensures bits <= n
  {
    if 32 * (words + 1) < n then 32 * (words + 1) else n
  }

  method XvcIoctl<S>(
    db: DebugBridge<S>, opcode: int, numBits: nat, tms: array<byte>, tdi: array<byte>, tdo: array<byte>)
    returns (status: int)
    requires numBits < 0x8000_0000
    requires tms.Length == tdi.Length == tdo.Length == BytesFor(numBits)
    requires db.busy == 0
    modifies db, tdo
    // An unknown operation does nothing.
    ensures opcode != 1 && opcode != 2 ==>
              status == 0 && tdo[..] == old(tdo[..]) && db.log == old(db.log) && db.dev == old(db.dev)
    ensures opcode == 1 || opcode == 2 ==>
              var words := (numBits + 31) / 32;
              var inTime := WordsInTime(old(db.delays), words);
              var bits := BitsShifted(numBits, inTime);
              && status == (if inTime == words then 0 else -110)
              // Every transaction is issued with its own length and with the bypass bit as asked for.
              && db.log == old(db.log)
                          + Plan(old(tms[..]), old(tdi[..]), bits, if opcode == 2 then 3 else 1)
              && db.dev == Reference(db.step, old(db.dev), old(tms[..]), old(tdi[..]), bits).0
              && (status == 0 ==>
                    Shifted(db.step, old(db.dev), db.dev, old(tms[..]), old(tdi[..]), numBits, tdo[..]))
              && (status != 0 ==> tdo[..] == old(tdo[..]))
  {
    hide Plan, Reference, Shifted, WordsInTime, RunTransaction, Bits, BitsShifted, VectorBits;
    status := 0;
    if opcode != OPCODE_SHIFT && opcode != OPCODE_BYPASS {
      return;
    }
    var numBytes := BytesFor(numBits);
    var tdoTemp := new byte[numBytes](_ => 0);
    db.WriteControl(if opcode == OPCODE_BYPASS then 2 else 0);
    status := ShiftVector(db, numBits, tms, tdi, tdoTemp);
    if status != 0 {
      return;
    }
    CopyBytes(tdo, 0, tdoTemp[..]);
    assert tdo[..] == tdoTemp[..];
  }

  /** The loop of the driver, from the write of LENGTH on. */
  method ShiftVector<S>(
    db: DebugBridge<S>, numBits: nat, tms: array<byte>, tdi: array<byte>, tdoTemp: array<byte>)
    returns (status: int)
    requires tms.Length == tdi.Length == tdoTemp.Length == BytesFor(numBits) && tms != tdoTemp && tdi != tdoTemp
    requires db.busy == 0 && db.mode % 2 == 0
    modifies db, tdoTemp
    ensures var words := (numBits + 31) / 32;
            var inTime := WordsInTime(old(db.delays), words);
            var bits := BitsShifted(numBits, inTime);
            && status == (if inTime == words then 0 else -ETIMEDOUT)
            && db.log == old(db.log) + Plan(tms[..], tdi[..], bits, old(db.mode) + 1)
            && db.dev == Reference(db.step, old(db.dev), tms[..], tdi[..], bits).0
            && (status == 0 ==> Shifted(db.step, old(db.dev), db.dev, tms[..], tdi[..], numBits, tdoTemp[..]))
  {
    hide Plan, Reference, Shifted, WordsInTime, BytesFor, BitsShifted, Chunk;
    status := 0;
    // Written once for all full words.
    if numBits >= 32 {
      db.length := 32;
    }
    ghost var control, words := db.mode + 1, (numBits + 31) / 32;
    ghost var k := 0;
    var currentBit := 0;
    NothingShifted(db.step, db.dev, tms[..], tdi[..], tdoTemp[..0], control);
    NextShifted(numBits, 0);
    assert db.log + [] == db.log;
    while currentBit < numBits
      invariant 0 <= k <= words && currentBit == BitsShifted(numBits, k - 1)
      invariant BytesFor(currentBit) <= BytesFor(numBits)
      invariant db.busy == 0 && db.mode + 1 == control && db.mode % 2 == 0 && status == 0
      invariant numBits - currentBit >= 32 ==> db.length == 32
      invariant WordsInTime(old(db.delays), words) == k + WordsInTime(db.delays, words - k)
      invariant db.log == old(db.log) + Plan(tms[..], tdi[..], currentBit, control)
      invariant Shifted(db.step, old(db.dev), db.dev, tms[..], tdi[..], currentBit, tdoTemp[..BytesFor(currentBit)])
      decreases words - k
    {
      WordsStep(db.delays, words - k);
      NextShifted(numBits, k);
      status, currentBit := ShiftChunk(db, currentBit, numBits, tms, tdi, tdoTemp, old(db.dev), old(db.log));
      if status != 0 {
        return;
      }
      k := k + 1;
    }
    WordsStep(db.delays, 0);
    NextShifted(numBits, k);
    assert tdoTemp[..BytesFor(numBits)] == tdoTemp[..];
    ShiftedState(db.step, old(db.dev), db.dev, tms[..], tdi[..], numBits, tdoTemp[..]);
  }

  /** The driver's position before and after its k-th word. */
  lemma NextShifted(n: nat, k: nat)
    ensures BitsShifted(n, -1) == 0 && BitsShifted(n, (n + 31) / 32) == n && BytesFor(0) == 0
    ensures BytesFor(BitsShifted(n, k)) <= BytesFor(n)
    ensures var cur := BitsShifted(n, k - 1);
            cur < n ==> cur == 32 * k && BitsShifted(n, k) == cur + Chunk(n - cur) && k < (n + 31) / 32
    ensures var cur := BitsShifted(n, k - 1);
            cur == n && k <= (n + 31) / 32 ==> k == (n + 31) / 32
  {
  }

  lemma WordsStep(delays: seq<nat>, w: nat)
    ensures w == 0 ==> WordsInTime(delays, w) == 0
    ensures w > 0 ==>
              var rest := if delays == [] then [] else delays[1..];
              WordsInTime(delays, w)
              == if (if delays == [] then 0 else delays[0]) < MAX_POLLS then 1 + WordsInTime(rest, w - 1) else 0
  {
  }

  lemma NothingShifted<S>(step: Device<S>, s: S, tms: seq<byte>, tdi: seq<byte>, out: seq<byte>, control: nat)
    ensures Shifted(step, s, s, tms, tdi, 0, out)
    ensures Plan(tms, tdi, 0, control) == []
  {
  }

  lemma ShiftedState<S>(step: Device<S>, s0: S, s: S, tms: seq<byte>, tdi: seq<byte>, n: nat, out: seq<byte>)
    requires BytesFor(n) <= |tms| && BytesFor(n) <= |tdi| && BytesFor(n) <= |out|
    requires Shifted(step, s0, s, tms, tdi, n, out)
    ensures s == Reference(step, s0, tms, tdi, n).0
  {
  }

  /** One pass of the driver's loop. On a time-out the word has been shifted, but its TDO is lost. */
  method ShiftChunk<S>(
    db: DebugBridge<S>, currentBit: nat, numBits: nat, tms: array<byte>, tdi: array<byte>, tdoTemp: array<byte>,
    ghost s0: S, ghost log0: seq<Transaction>)
    returns (status: int, nextBit: nat)
    requires currentBit < numBits && currentBit % 32 == 0
    requires tms.Length == tdi.Length == tdoTemp.Length == BytesFor(numBits) && tms != tdoTemp && tdi != tdoTemp
    requires db.busy == 0 && db.mode % 2 == 0 && (numBits - currentBit >= 32 ==> db.length == 32)
    requires db.log == log0 + Plan(tms[..], tdi[..], currentBit, db.mode + 1)
    requires Shifted(db.step, s0, db.dev, tms[..], tdi[..], currentBit, tdoTemp[..BytesFor(currentBit)])
    modifies db, tdoTemp
    ensures nextBit == currentBit + Chunk(numBits - currentBit)
    ensures db.mode == old(db.mode) && (numBits - nextBit >= 32 ==> db.length == 32)
    ensures db.log == log0 + Plan(tms[..], tdi[..], nextBit, db.mode + 1)
    ensures db.dev == Reference(db.step, s0, tms[..], tdi[..], nextBit).0
    ensures status == if old(db.Delay()) < MAX_POLLS then 0 else -ETIMEDOUT
    ensures status == 0 ==>
              db.busy == 0 && Shifted(db.step, s0, db.dev, tms[..], tdi[..], nextBit, tdoTemp[..BytesFor(nextBit)])
    ensures db.delays == if old(db.delays) == [] then [] else old(db.delays)[1..]
  {
    hide Plan, Reference, RunTransaction, ToLe, FromLe, VectorBits, Bits, Shifted, Pow2, BytesFor;
    var shiftNumBits := 32;
    if numBits - currentBit < shiftNumBits {
      shiftNumBits := numBits - currentBit;
      db.length := shiftNumBits;
    }
    nextBit := currentBit + shiftNumBits;
    var shiftNumBytes, at := BytesFor(shiftNumBits), currentBit / 8;
    ChunkBytes(currentBit, at, shiftNumBits, numBits);
    var tmsStore := LoadWord(tms, at, shiftNumBytes);
    var tdiStore := LoadWord(tdi, at, shiftNumBytes);
    ghost var before, out, control := db.dev, tdoTemp[..at], db.mode + 1;
    ghost var t := Word(tms[..][at..], tdi[..][at..], shiftNumBits, control);
    PlanExtend(tms[..], tdi[..], at, shiftNumBits, control);
    StateStep(db.step, s0, before, tms[..], tdi[..], at, shiftNumBits, out, control);
    var tdoStore;
    status, tdoStore := XvcShiftBits(db, tmsStore, tdiStore);
    assert db.log == log0 + (Plan(tms[..], tdi[..], currentBit, control) + [t]);
    if status == 0 {
      WordStep(db.step, s0, before, tms[..], tdi[..], at, shiftNumBits, out, tdoStore, control);
      CopyBytes(tdoTemp, at, ToLe(shiftNumBytes, tdoStore));
    }
  }

  lemma ChunkBytes(cur: nat, at: nat, m: nat, n: nat)
    requires cur % 32 == 0 && at == cur / 8 && cur + m <= n
    ensures cur == 8 * at && at % 4 == 0
    ensures BytesFor(cur) == at && BytesFor(cur + m) == at + BytesFor(m) <= BytesFor(n)
  {
    ModUnique(cur, 8, 4 * (cur / 32), 0);
    WholeBytes(at, 0);
    WholeBytes(at, m);
  }

  /** memcpy of at most four bytes into a cleared word. */
  method LoadWord(a: array<byte>, at: nat, n: nat) returns (w: nat)
    requires at + n <= a.Length
    ensures w == FromLe(a[..][at..][..n])
  {
    assert a[at..at + n] == a[..][at..][..n];
    w := FromLe(a[at..at + n]);
  }

  lemma StateStep<S>(
    step: Device<S>, s0: S, s: S, tms: seq<byte>, tdi: seq<byte>, at: nat, m: nat, out: seq<byte>, control: nat)
    requires at % 4 == 0 && 0 < m <= 32 && |out| == at
    requires at + BytesFor(m) <= |tms| && at + BytesFor(m) <= |tdi|
    requires BytesFor(8 * at) == at && Shifted(step, s0, s, tms, tdi, 8 * at, out)
    ensures BytesFor(8 * at + m) == at + BytesFor(m)
    ensures RunTransaction(step, s, Word(tms[at..], tdi[at..], m, control)).0
         == Reference(step, s0, tms, tdi, 8 * at + m).0
  {
    hide VectorBits, Reference, Bits, ToLe, Word, RunTransaction, Serial, FromLe, Pow2, BytesFor;
    assert VectorBits(out)[..8 * at] == VectorBits(out);
    SerialNext(step, s0, s, VectorBits(out), tms, tdi, at, m, control);
  }

  /** memcpy into an array. */
  method CopyBytes(target: array<byte>, at: nat, data: seq<byte>)
    requires at + |data| <= target.Length
    modifies target
    ensures target[..] == old(target[..at]) + data + old(target[at + |data|..])
    ensures target[..at + |data|] == old(target[..at]) + data
  {
    var i := 0;
    while i < |data|
      invariant i <= |data|
      invariant target[..at] == old(target[..at]) && target[at..at + i] == data[..i]
      invariant target[at + i..] == old(target[at + i..])
    {
      target[at + i] := data[i];
      i := i + 1;
    }
    assert target[..] == target[..at] + target[at..at + |data|] + target[at + |data|..];
  }
}
