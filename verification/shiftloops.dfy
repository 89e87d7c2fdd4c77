/** The shift loops of the two user-space servers, which count bytes instead of bits. */
module ShiftLoops {
  import opened Bytes
  import opened Jtag
  import opened Bridge

  /** The number of clocks a byte-driven loop issues. A last group of exactly four bytes is shifted
      as a full word, so lengths of 25 to 31 bits beyond a multiple of 32 are rounded up. */
  function Clocks(len: nat): (n: nat)
    ensures n >= len && BytesFor(n) == BytesFor(len)
    ensures n == len <==> len % 32 < 25
  {
    var words, rest := len / 32, len % 32;
    WordsAndRest(words, rest);
    WordsAndRest(words, 32);
    if rest >= 25 then 32 * (words + 1) else len
  }

  lemma WordsAndRest(words: nat, rest: nat)
    ensures BytesFor(32 * words + rest) == 4 * words + BytesFor(rest)
  {
    ModUnique(32 * words + rest + 7, 8, 4 * words + (rest + 7) / 8, (rest + 7) % 8);
  }

  /** One shift through the register block, waiting for the control register to read as zero. */
  method ShiftOnce<S>(db: DebugBridge<S>, length: nat, tms: nat, tdi: nat) returns (tdo: nat)
    requires db.busy == 0
    modifies db
    ensures var t := Transaction(length, tms, tdi, 1);
            var r := RunTransaction(db.step, old(db.dev), t);
            db.log == old(db.log) + [t] && db.dev == r.0 && Bits(tdo, length) == r.1 && db.busy == 0
  {
    hide RunTransaction, Bits;
    db.length := length;
    db.tms := tms;
    db.tdi := tdi;
    db.WriteControl(1);
    var control := db.ReadControl();
    while control != 0
      invariant db.mode == 0 && control == (if control != 0 then 1 else 0) && (control == 0 ==> db.busy == 0)
      decreases db.busy, control
      modifies db`busy
    {
      control := db.ReadControl();
    }
    tdo := db.tdo;
  }

  /** One word of the vectors in buffer, at byteIndex: the TMS vector comes first, the TDI vector
      nrBytes behind it. */
  method ShiftWord<S>(
    db: DebugBridge<S>, buffer: array<byte>, result: array<byte>, nrBytes: nat, byteIndex: nat,
    bits: nat, bytes: nat, ghost s0: S, ghost log0: seq<Transaction>)
    requires byteIndex % 4 == 0 && 0 < bits <= 32 && bytes == BytesFor(bits) && byteIndex + bytes <= nrBytes
    requires 2 * nrBytes <= buffer.Length && nrBytes <= result.Length && buffer != result
    requires db.busy == 0
    requires db.log == log0 + Plan(buffer[..nrBytes], buffer[nrBytes..2 * nrBytes], 8 * byteIndex, 1)
    requires Shifted(db.step, s0, db.dev, buffer[..nrBytes], buffer[nrBytes..2 * nrBytes], 8 * byteIndex,
                     result[..byteIndex])
    modifies db, result
    ensures db.busy == 0
    ensures db.log == log0 + Plan(buffer[..nrBytes], buffer[nrBytes..2 * nrBytes], 8 * byteIndex + bits, 1)
    ensures Shifted(db.step, s0, db.dev, buffer[..nrBytes], buffer[nrBytes..2 * nrBytes], 8 * byteIndex + bits,
                    result[..byteIndex + bytes])
  {
    hide Plan, Reference, RunTransaction, ToLe, FromLe, VectorBits, Bits, Shifted;
    ghost var tmsVector, tdiVector := buffer[..nrBytes], buffer[nrBytes..2 * nrBytes];
    assert buffer[byteIndex..byteIndex + bytes] == tmsVector[byteIndex..][..bytes];
    assert buffer[byteIndex + nrBytes..byteIndex + nrBytes + bytes] == tdiVector[byteIndex..][..bytes];
    var tms := FromLe(buffer[byteIndex..byteIndex + bytes]);
    var tdi := FromLe(buffer[byteIndex + nrBytes..byteIndex + nrBytes + bytes]);
    ghost var cur, before, out := 8 * byteIndex, db.dev, result[..byteIndex];
    ghost var t := Word(tmsVector[byteIndex..], tdiVector[byteIndex..], bits, 1);
    PlanExtend(tmsVector, tdiVector, byteIndex, bits, 1);
    var tdo := ShiftOnce(db, bits, tms, tdi);
    assert db.log == log0 + (Plan(tmsVector, tdiVector, cur, 1) + [t]);
    WordStep(db.step, s0, before, tmsVector, tdiVector, byteIndex, bits, out, tdo, 1);
    CopyBytes(result, byteIndex, ToLe(bytes, tdo));
  }

  /** The loop of the Zynq-7000 server. */
  method ShiftByBytes<S>(db: DebugBridge<S>, len: nat, buffer: array<byte>, result: array<byte>)
    requires 2 * BytesFor(len) <= buffer.Length && BytesFor(len) <= result.Length && buffer != result
    requires db.busy == 0
    modifies db, result
    ensures db.busy == 0
    ensures var nr := BytesFor(len);
            && db.log == old(db.log) + Plan(buffer[..nr], buffer[nr..2 * nr], Clocks(len), 1)
            && Shifted(db.step, old(db.dev), db.dev, buffer[..nr], buffer[nr..2 * nr], Clocks(len), result[..nr])
  {
    hide Plan, Reference, Shifted, Clocks, BytesFor;
    var nrBytes := BytesFor(len);
    var bytesLeft: int, bitsLeft: int, byteIndex := nrBytes, len, 0;
    ghost var clocks: nat := 0;
    NothingShifted(db.step, db.dev, buffer[..nrBytes], buffer[nrBytes..2 * nrBytes], result[..0], 1);
    FourBytes(0);
    assert db.log + [] == db.log;
    while bytesLeft > 0
      invariant bytesLeft >= 0 && byteIndex == nrBytes - bytesLeft >= 0 && byteIndex % 4 == 0
      invariant clocks == 8 * byteIndex && bitsLeft == len - clocks && BytesFor(clocks) == byteIndex
      invariant db.busy == 0
      invariant db.log == old(db.log) + Plan(buffer[..nrBytes], buffer[nrBytes..2 * nrBytes], clocks, 1)
      invariant Shifted(db.step, old(db.dev), db.dev, buffer[..nrBytes], buffer[nrBytes..2 * nrBytes],
                        clocks, result[..byteIndex])
    {
      if bytesLeft >= 4 {
        FourBytes(byteIndex + 4);
        FourBytes(4);
        ShiftWord(db, buffer, result, nrBytes, byteIndex, 32, 4, old(db.dev), old(db.log));
        bytesLeft := bytesLeft - 4;
        bitsLeft := bitsLeft - 32;
        byteIndex := byteIndex + 4;
        clocks := clocks + 32;
      } else {
        TailBits(len, byteIndex);
        ShiftWord(db, buffer, result, nrBytes, byteIndex, bitsLeft, bytesLeft, old(db.dev), old(db.log));
        return;
      }
    }
    WholeWords(len);
  }

  lemma FourBytes(bytes: nat)
    ensures BytesFor(8 * bytes) == bytes
  {
    ModUnique(8 * bytes + 7, 8, bytes, 7);
  }

  /** The loop of the ZynqMP server without the driver: it counts the bytes of each transaction, and
      the count comes out at exactly zero. */
  method ShiftMapped<S>(db: DebugBridge<S>, len: nat, buffer: array<byte>, result: array<byte>)
    returns (bytesLeft: int)
    requires 2 * BytesFor(len) <= buffer.Length && BytesFor(len) <= result.Length && buffer != result
    requires db.busy == 0
    modifies db, result
    ensures bytesLeft == 0 && db.busy == 0
    ensures var nr := BytesFor(len);
            && db.log == old(db.log) + Plan(buffer[..nr], buffer[nr..2 * nr], Clocks(len), 1)
            && Shifted(db.step, old(db.dev), db.dev, buffer[..nr], buffer[nr..2 * nr], Clocks(len), result[..nr])
  {
    hide Plan, Reference, Shifted, Clocks, BytesFor;
    var nrBytes := BytesFor(len);
    var bitsLeft: int, byteIndex := len, 0;
    bytesLeft := nrBytes;
    ghost var clocks: nat := 0;
    NothingShifted(db.step, db.dev, buffer[..nrBytes], buffer[nrBytes..2 * nrBytes], result[..0], 1);
    FourBytes(0);
    assert db.log + [] == db.log;
    if nrBytes == 0 {
      WholeWords(len);
    }
    while bytesLeft > 0
      invariant bytesLeft >= 0 && byteIndex == nrBytes - bytesLeft >= 0 && BytesFor(clocks) == byteIndex
      invariant bytesLeft > 0 ==> byteIndex % 4 == 0 && clocks == 8 * byteIndex && bitsLeft == len - clocks
      invariant bytesLeft == 0 ==> clocks == Clocks(len)
      invariant db.busy == 0
      invariant db.log == old(db.log) + Plan(buffer[..nrBytes], buffer[nrBytes..2 * nrBytes], clocks, 1)
      invariant Shifted(db.step, old(db.dev), db.dev, buffer[..nrBytes], buffer[nrBytes..2 * nrBytes],
                        clocks, result[..byteIndex])
    {
      var shiftNumBits := 32;
      if bytesLeft < 4 {
        shiftNumBits := bitsLeft;
      }
      MappedStep(len, byteIndex, shiftNumBits);
      var shiftNumBytes := BytesFor(shiftNumBits);
      ShiftWord(db, buffer, result, nrBytes, byteIndex, shiftNumBits, shiftNumBytes, old(db.dev), old(db.log));
      bytesLeft := bytesLeft - shiftNumBytes;
      bitsLeft := bitsLeft - shiftNumBits;
      byteIndex := byteIndex + shiftNumBytes;
      clocks := clocks + shiftNumBits;
    }
  }

  /** The counts of one pass: full words of four bytes, then the bits of up to three bytes. */
  lemma MappedStep(len: nat, byteIndex: nat, bits: int)
    requires byteIndex % 4 == 0 && byteIndex < BytesFor(len)
    requires bits == if BytesFor(len) - byteIndex < 4 then len - 8 * byteIndex else 32
    ensures 0 < bits <= 32 && byteIndex + BytesFor(bits) <= BytesFor(len)
    ensures BytesFor(8 * byteIndex + bits) == byteIndex + BytesFor(bits)
    ensures byteIndex + BytesFor(bits) < BytesFor(len) ==> BytesFor(bits) == 4 && bits == 32
    ensures byteIndex + BytesFor(bits) == BytesFor(len) ==> 8 * byteIndex + bits == Clocks(len)
  {
    if BytesFor(len) < byteIndex + 4 {
      TailBits(len, byteIndex);
    } else {
      FourBytes(4);
      FourBytes(byteIndex + 4);
      if BytesFor(len) == byteIndex + 4 {
        LastWholeWord(len, byteIndex);
      }
    }
  }

  lemma TailBits(len: nat, byteIndex: nat)
    requires byteIndex % 4 == 0 && byteIndex < BytesFor(len) < byteIndex + 4
    ensures 0 < len - 8 * byteIndex <= 24 && BytesFor(len - 8 * byteIndex) == BytesFor(len) - byteIndex
    ensures Clocks(len) == len
  {
    ModUnique(len, 32, byteIndex / 4, len - 8 * byteIndex);
  }

  lemma LastWholeWord(len: nat, byteIndex: nat)
    requires byteIndex % 4 == 0 && BytesFor(len) == byteIndex + 4
    ensures Clocks(len) == 8 * byteIndex + 32
  {
    WholeWords(len);
  }

  lemma WholeWords(len: nat)
    requires BytesFor(len) % 4 == 0
    ensures Clocks(len) == 8 * BytesFor(len)
  {
    var words, rest := len / 32, len % 32;
    WordsAndRest(words, rest);
    var k := BytesFor(len) / 4;
    assert BytesFor(rest) == 4 * (k - words) && BytesFor(rest) <= 4;
    assert BytesFor(rest) == 0 || BytesFor(rest) == 4;
    assert rest == 0 || rest >= 25;
  }

  // ---------------------------------------------------------------- how the designs compare

  /** A device that counts its clocks. */
  function Count(s: nat, tms: bool, tdi: bool): (nat, bool) {
    (s + 1, tms)
  }

  lemma {:induction false} CountsClocks(s: nat, tms: seq<bool>, tdi: seq<bool>)
    requires |tms| == |tdi|
    ensures Serial(Count, s, tms, tdi).0 == s + |tms|
    decreases |tms|
  {
    if tms != [] {
      CountsClocks(s + 1, tms[1..], tdi[1..]);
    }
  }

  lemma CountedClocks(len: nat, tms: seq<byte>, tdi: seq<byte>)
    requires BytesFor(len) <= |tms| && BytesFor(len) <= |tdi|
    ensures Reference<nat>(Count, 0, tms, tdi, Clocks(len)).0 == Clocks(len)
    ensures Reference<nat>(Count, 0, tms, tdi, len).0 == len
  {
    var n := Clocks(len);
    CountsClocks(0, VectorBits(tms)[..n], VectorBits(tdi)[..n]);
    CountsClocks(0, VectorBits(tms)[..len], VectorBits(tdi)[..len]);
  }

  /** The byte-driven loops leave every device where the bit-serial shift leaves it exactly for
      lengths whose remainder modulo 32 is not in 25..31; for the others a device that counts its
      clocks tells the difference. */
  lemma ExactClocks(len: nat, tms: seq<byte>, tdi: seq<byte>)
    requires BytesFor(len) <= |tms| && BytesFor(len) <= |tdi|
    ensures (forall step: Device<nat>, s: nat ::
               Reference(step, s, tms, tdi, Clocks(len)).0 == Reference(step, s, tms, tdi, len).0)
       <==> len % 32 < 25
  {
    if len % 32 >= 25 {
      CountedClocks(len, tms, tdi);
      assert Reference<nat>(Count, 0, tms, tdi, Clocks(len)).0 != Reference<nat>(Count, 0, tms, tdi, len).0;
    }
  }

  /** The driver issues the transactions of the byte-driven loops exactly for those lengths. */
  lemma LoopsAgree(len: nat, tms: seq<byte>, tdi: seq<byte>)
    requires BytesFor(len) <= |tms| && BytesFor(len) <= |tdi|
    ensures Plan(tms, tdi, len, 1) == Plan(tms, tdi, Clocks(len), 1) <==> len % 32 < 25
  {
    if Plan(tms, tdi, len, 1) == Plan(tms, tdi, Clocks(len), 1) {
      PlanRefinesSerial(Count, 0, tms, tdi, len, 1);
      PlanRefinesSerial(Count, 0, tms, tdi, Clocks(len), 1);
      CountedClocks(len, tms, tdi);
    }
  }

  /** The extra clocks come last: the first len TDO bits are right for every length and device. */
  lemma FirstBitsAgree<S>(step: Device<S>, s: S, tms: seq<byte>, tdi: seq<byte>, len: nat)
    requires BytesFor(len) <= |tms| && BytesFor(len) <= |tdi|
    ensures Reference(step, s, tms, tdi, Clocks(len)).1[..len] == Reference(step, s, tms, tdi, len).1
  {
    var n := Clocks(len);
    var a, b := VectorBits(tms), VectorBits(tdi);
    assert a[..n] == a[..len] + a[len..n] && b[..n] == b[..len] + b[len..n];
    SerialAppend(step, s, a[..len], b[..len], a[len..n], b[len..n]);
  }
}
