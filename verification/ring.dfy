/** Circular descriptor lists: positions, and the status words the CPU and the DMA engine share. */
module Ring {
  type word = x: int | 0 <= x < 0x1_0000_0000

  // A packet slot holds 0x410 bytes.
  const PACKET_WORDS: nat := 0x410 / 4
  const DONE: nat := 0x8000_0000
  const FRAME: nat := 0x0C00_0000

  /** A descriptor: the slot its BUFF register points to, its control and its status word. */
  datatype Desc = Desc(buff: nat, cntl: nat, sts: nat)

  /** Bit 31 of a status word. */
  predicate Done(sts: nat) {
    sts / 0x8000_0000 % 2 == 1
  }

  /** Any of bits 28 to 30 of a status word. */
  predicate Failed(sts: nat) {
    sts / 0x1000_0000 % 8 != 0
  }

  /** The engine has handed the descriptor back. */
  predicate Retired(sts: nat) {
    Done(sts) || Failed(sts)
  }

  /** Bits 0 to 25 of a control or status word: a size in bytes. */
  function SizeOf(w: nat): nat {
    w % 0x400_0000
  }

  lemma StatusFacts(words: nat)
    requires words <= PACKET_WORDS
    ensures Done(DONE) && !Failed(DONE) && Retired(DONE) && !Retired(0)
    ensures SizeOf(FRAME + 4 * words) == 4 * words
    ensures Done(DONE + 4 * words) && !Failed(DONE + 4 * words) && SizeOf(DONE + 4 * words) / 4 == words
  {
  }

  /** The bits of a status word: a size in bits 0 to 25, two frame bits, three error bits, and done. */
  lemma StatusBits(size: nat, frame: nat, errors: nat, done: nat)
    requires size < 0x400_0000 && frame < 4 && errors < 8 && done < 2
    ensures var sts := size + 0x400_0000 * frame + 0x1000_0000 * errors + 0x8000_0000 * done;
            && SizeOf(sts) == size && (Done(sts) <==> done == 1) && (Failed(sts) <==> errors != 0)
            && (Retired(sts) <==> done == 1 || errors != 0)
  {
  }

  /** The control word of a packet: its size in bytes, and both frame bits, 26 and 27. */
  lemma ControlBits(words: nat)
    requires words <= PACKET_WORDS
    ensures 4 * PACKET_WORDS == 0x410
    ensures FRAME + 4 * words == 4 * words + 0x400_0000 * 1 + 0x400_0000 * 2
    ensures DONE == 0x8000_0000 * 1
  {
  }

  /** The index j places after i in a ring of count entries. */
  function Ahead(count: nat, i: nat, j: nat): (k: nat)
    requires i < count && j <= count
    ensures k < count
  {
    if i + j < count then i + j else i + j - count
  }

  /** How far t lies ahead of i. */
  function Distance(count: nat, i: nat, t: nat): (j: nat)
    requires i < count && t < count
    ensures j < count && Ahead(count, i, j) == t
  {
    if t >= i then t - i else t + count - i
  }

  /** The entry after last; last is -1 before the first use. */
  function Next(count: nat, last: int): (n: nat)
    requires -1 <= last < count && count > 0
    ensures n < count && n == (last + 1) % count
  {
    if last + 1 < count then last + 1 else 0
  }

  /** No two places of one turn are the same entry. */
  lemma AheadInjective(count: nat, i: nat, j: nat, k: nat)
    requires i < count && j < count && k < count
    ensures Ahead(count, i, j) == Ahead(count, i, k) <==> j == k
    ensures Distance(count, i, Ahead(count, i, j)) == j
  {
  }

  /** Places counted from the next entry. */
  lemma AheadShift(count: nat, i: nat, j: nat)
    requires i < count && j < count
    ensures Ahead(count, Ahead(count, i, 1), j) == Ahead(count, i, j + 1)
    ensures Ahead(count, Ahead(count, i, 1), count - 1) == i
  {
  }

  lemma NextIsAhead(count: nat, i: nat, j: nat)
    requires i < count && j < count
    ensures Next(count, Ahead(count, i, j)) == Ahead(count, i, j + 1)
  {
  }

  /** Copying data to the start of a slot. */
  function Copied(slot: seq<word>, data: seq<word>): (s: seq<word>)
    requires |data| <= |slot|
    ensures |s| == |slot| && s[..|data|] == data
  {
    data + slot[|data|..]
  }
}
