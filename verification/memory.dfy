/** mrd: and mwr: on the memory of the debug hub, copied word by word. */
module Memory {
  import opened Bytes

  /** memory with data written at an offset. */
  function Splice(mem: seq<byte>, at: nat, data: seq<byte>): (m: seq<byte>)
    requires at + |data| <= |mem|
    ensures |m| == |mem|
  {
    mem[..at] + data + mem[at + |data|..]
  }

  /** The bytes a loop over whole words touches. */
  function WholeWords(n: nat): (m: nat)
    ensures n <= m < n + 4 && m % 4 == 0
    ensures m == n <==> n % 4 == 0
  {
    (n + 3) / 4 * 4
  }

  /** The hub refuses what does not lie inside it. */
  predicate InHub(hubAddr: nat, hubSize: nat, addr: nat, numBytes: nat) {
    hubAddr <= addr && addr + numBytes <= hubAddr + hubSize
  }

  predicate HubAddress(hubAddr: nat, hubSize: nat, a: nat) {
    hubAddr <= a < hubAddr + hubSize
  }

  /** A request lies inside the hub if all its addresses do, or, if it has none, if it starts in the hub
      or right behind it. */
  lemma InHubExactly(hubAddr: nat, hubSize: nat, addr: nat, numBytes: nat)
    ensures InHub(hubAddr, hubSize, addr, numBytes) <==>
              if numBytes == 0 then hubAddr <= addr <= hubAddr + hubSize
              else forall a: nat :: addr <= a < addr + numBytes ==> HubAddress(hubAddr, hubSize, a)
  {
    if numBytes > 0 && !InHub(hubAddr, hubSize, addr, numBytes) {
      assert !HubAddress(hubAddr, hubSize, if addr < hubAddr then addr else addr + numBytes - 1);
    }
  }

  /** A word read from memory and written elsewhere carries its four bytes. */
  lemma {:induction false} WordCarriesBytes(n: nat, s: seq<byte>)
    requires |s| == n
    ensures ToLe(n, FromLe(s)) == s
  {
    if n > 0 {
      WordCarriesBytes(n - 1, s[1..]);
      var w, high := FromLe(s), FromLe(s[1..]);
      ModUnique(w, 256, high, s[0]);
      assert ToLe(n, w) == [s[0]] + ToLe(n - 1, high);
      hide FromLe, ToLe;
      assert [s[0]] + s[1..] == s;
    }
  }

  /** Splices that meet join. */
  lemma SpliceExtend(mem: seq<byte>, at: nat, a: seq<byte>, b: seq<byte>)
    requires at + |a| + |b| <= |mem|
    ensures Splice(Splice(mem, at, a), at + |a|, b) == Splice(mem, at, a + b)
  {
  }

  lemma JoinWord(data: seq<byte>, i: nat)
    requires i + 4 <= |data|
    ensures data[..i] + data[i..i + 4] == data[..i + 4]
  {
  }

  lemma CopyNothing(mem: seq<byte>, at: nat, all: seq<byte>, from: nat, m: nat)
    requires at <= |mem| && from + m <= |all|
    ensures Splice(mem, at, all[from..from + m][..0]) == mem
  {
  }

  lemma SpliceAt(before: seq<byte>, at: nat, data: seq<byte>, now: seq<byte>)
    requires at + |data| <= |before| == |now|
    requires forall i :: 0 <= i < |before| ==> now[i] == if at <= i < at + |data| then data[i - at] else before[i]
    ensures now == Splice(before, at, data)
  {
  }

  /** One more word copied makes the copied prefix one word longer. */
  lemma CopyStep(before: seq<byte>, to: nat, all: seq<byte>, from: nat, m: nat, i: nat, was: seq<byte>, now: seq<byte>)
    requires from + m <= |all| && to + m <= |before| && i + 4 <= m
    requires was == Splice(before, to, all[from..from + m][..i])
    requires now == Splice(was, to + i, all[from + i..from + i + 4])
    ensures now == Splice(before, to, all[from..from + m][..i + 4])
  {
    var data := all[from..from + m];
    JoinWord(data, i);
    var word := all[from + i..from + i + 4];
    assert forall k :: 0 <= k < 4 ==> word[k] == all[from + i + k] == data[i + k];
    assert word == data[i..i + 4];
    SpliceExtend(before, to, data[..i], data[i..i + 4]);
  }

  class Hub {
    const addr: nat
    const size: nat
    const mem: array<byte>
    var failed: bool          // an error was reported

    ghost predicate Valid()
      reads this
    {
      mem.Length == size && addr + size < TWO64
    }

    constructor (addr: nat, size: nat)
      requires addr + size < TWO64
      ensures Valid() && fresh(mem) && !failed && this.addr == addr && this.size == size
    {
      this.addr, this.size := addr, size;
      mem := new byte[size](_ => 0);
      failed := false;
    }

    /** Copies one word inside a loop. */
    static method CopyWord(target: array<byte>, to: nat, source: array<byte>, from: nat)
      requires to + 4 <= target.Length && from + 4 <= source.Length && target != source
      modifies target
      ensures target[..] == Splice(old(target[..]), to, source[..][from..from + 4])
    {
      ghost var before, word := target[..], source[..][from..from + 4];
      assert source[from..from + 4] == word;
      var w := FromLe(source[from..from + 4]);
      WordCarriesBytes(4, word);
      var s := ToLe(4, w);
      hide FromLe, ToLe;
      assert s == word;
      forall i | 0 <= i < 4 {
        target[to + i] := s[i];
      }
      SpliceAt(before, to, s, target[..]);
    }

    static method CopyWords(target: array<byte>, to: nat, source: array<byte>, from: nat, numBytes: nat)
      requires to + WholeWords(numBytes) <= target.Length && from + WholeWords(numBytes) <= source.Length
      requires target != source
      modifies target
      ensures target[..] == Splice(old(target[..]), to, source[..][from..from + WholeWords(numBytes)])
    {
      hide WholeWords, Splice;
      ghost var before, all := target[..], source[..];
      ghost var m: nat := WholeWords(numBytes);
      CopyNothing(before, to, all, from, m);
      var i: nat := 0;
      while i < numBytes
        invariant i <= m && i % 4 == 0
        invariant target[..] == Splice(before, to, all[from..from + m][..i])
      {
        ghost var was := target[..];
        CopyWord(target, to + i, source, from + i);
        CopyStep(before, to, all, from, m, i, was, target[..]);
        i := i + 4;
      }
      assert all[from..from + m][..i] == all[from..from + m];
    }

    /** mrd: reads whole words; a request outside the hub is an error and changes nothing. */
    method Mrd(at: nat, numBytes: nat, buf: array<byte>, from: nat)
      requires Valid() && at + numBytes < TWO64 && buf != mem
      requires InHub(addr, size, at, numBytes) ==>
                 from + WholeWords(numBytes) <= buf.Length && InHub(addr, size, at, WholeWords(numBytes))
      modifies this`failed, buf
      ensures Valid()
      ensures !InHub(addr, size, at, numBytes) ==> failed && buf[..] == old(buf[..])
      ensures InHub(addr, size, at, numBytes) ==>
                failed == old(failed)
                && buf[..] == Splice(old(buf[..]), from, mem[..][at - addr..at - addr + WholeWords(numBytes)])
    {
      if at < addr || (at + numBytes) % TWO64 > (addr + size) % TWO64 {
        failed := true;
        return;
      }
      CopyWords(buf, from, mem, at - addr, numBytes);
    }

    /** mwr: writes whole words. */
    method Mwr(at: nat, numBytes: nat, buf: array<byte>, from: nat)
      requires Valid() && at + numBytes < TWO64 && buf != mem
      requires InHub(addr, size, at, numBytes) ==>
                 from + WholeWords(numBytes) <= buf.Length && InHub(addr, size, at, WholeWords(numBytes))
      modifies this`failed, mem
      ensures Valid()
      ensures !InHub(addr, size, at, numBytes) ==> failed && mem[..] == old(mem[..])
      ensures InHub(addr, size, at, numBytes) ==>
                failed == old(failed)
                && mem[..] == Splice(old(mem[..]), at - addr, buf[..][from..from + WholeWords(numBytes)])
    {
      if at < addr || (at + numBytes) % TWO64 > (addr + size) % TWO64 {
        failed := true;
        return;
      }
      CopyWords(mem, at - addr, buf, from, numBytes);
    }
  }

  /** The word loop is memcpy of the requested bytes exactly when what it writes beyond them is what
      was there; for a multiple of four it writes nothing beyond them. */
  lemma WordCopyIsMemcpy(mem: seq<byte>, at: nat, buf: seq<byte>, n: nat)
    requires at + WholeWords(n) <= |mem| && WholeWords(n) <= |buf|
    ensures Splice(mem, at, buf[..WholeWords(n)]) == Splice(mem, at, buf[..n])
       <==> buf[n..WholeWords(n)] == mem[at + n..at + WholeWords(n)]
    ensures n % 4 == 0 ==> Splice(mem, at, buf[..WholeWords(n)]) == Splice(mem, at, buf[..n])
  {
    var m := WholeWords(n);
    var a, b := Splice(mem, at, buf[..m]), Splice(mem, at, buf[..n]);
    assert a[at + n..at + m] == buf[n..m];
    assert b[at + n..at + m] == mem[at + n..at + m];
    if buf[n..m] == mem[at + n..at + m] {
      forall i | 0 <= i < |mem|
        ensures a[i] == b[i]
      {
        if at + n <= i < at + m {
          assert a[i] == buf[n..m][i - at - n] && b[i] == mem[at + n..at + m][i - at - n];
        }
      }
      assert a == b;
    }
  }

  /** The two copies agree on all memories and buffers exactly for sizes that are multiples of four. */
  lemma CopiesAgree(n: nat)
    ensures (forall mem: seq<byte>, at: nat, buf: seq<byte> ::
               at + WholeWords(n) <= |mem| && WholeWords(n) <= |buf| ==>
                 Splice(mem, at, buf[..WholeWords(n)]) == Splice(mem, at, buf[..n]))
       <==> n % 4 == 0
  {
    var m := WholeWords(n);
    if n % 4 == 0 {
      forall mem: seq<byte>, at: nat, buf: seq<byte> | at + m <= |mem| && m <= |buf|
        ensures Splice(mem, at, buf[..m]) == Splice(mem, at, buf[..n])
      {
        WordCopyIsMemcpy(mem, at, buf, n);
      }
    } else {
      var mem: seq<byte>, buf: seq<byte> := seq(m, i => 0), seq(m, i => 1);
      WordCopyIsMemcpy(mem, 0, buf, n);
      assert buf[n..m][0] == 1 && mem[0 + n..0 + m][0] == 0;
      assert Splice(mem, 0, buf[..m]) != Splice(mem, 0, buf[..n]);
    }
  }

  // ---------------------------------------------------------------- sequences of accesses

  /** A write that was carried out. */
  datatype Write = Write(at: nat, data: seq<byte>)

  predicate Inside(size: nat, writes: seq<Write>) {
    forall w :: w in writes ==> w.at + |w.data| <= size
  }

  /** Memory after some writes, each a splice as mwr: makes it. */
  function After(mem: seq<byte>, writes: seq<Write>): (m: seq<byte>)
    requires Inside(|mem|, writes)
    ensures |m| == |mem|
    decreases |writes|
  {
    if writes == [] then mem
    else
      var last := writes[|writes| - 1];
      Splice(After(mem, writes[..|writes| - 1]), last.at, last.data)
  }

  /** The byte written last at an address, or the first contents. */
  function LastWritten(mem: seq<byte>, writes: seq<Write>, a: nat): byte
    requires a < |mem|
    decreases |writes|
  {
    if writes == [] then mem[a]
    else
      var last := writes[|writes| - 1];
      if last.at <= a < last.at + |last.data| then last.data[a - last.at]
      else LastWritten(mem, writes[..|writes| - 1], a)
  }

  lemma {:induction false} AfterAt(mem: seq<byte>, writes: seq<Write>, a: nat)
    requires Inside(|mem|, writes) && a < |mem|
    ensures After(mem, writes)[a] == LastWritten(mem, writes, a)
    decreases |writes|
  {
    if writes != [] {
      AfterAt(mem, writes[..|writes| - 1], a);
    }
  }

  /** The bytes written last at n addresses. */
  function LastBytes(mem: seq<byte>, writes: seq<Write>, at: nat, n: nat): (b: seq<byte>)
    requires at + n <= |mem|
    ensures |b| == n && forall i :: 0 <= i < n ==> b[i] == LastWritten(mem, writes, at + i)
  {
    if n == 0 then [] else LastBytes(mem, writes, at, n - 1) + [LastWritten(mem, writes, at + n - 1)]
  }

  /** Whatever the sequence of writes, a read returns at every address the byte written there last. */
  lemma ReadAfterWrite(mem: seq<byte>, writes: seq<Write>, at: nat, n: nat)
    requires Inside(|mem|, writes) && at + n <= |mem|
    ensures After(mem, writes)[at..at + n] == LastBytes(mem, writes, at, n)
  {
    var read := After(mem, writes)[at..at + n];
    forall i | 0 <= i < n
      ensures read[i] == LastWritten(mem, writes, at + i)
    {
      AfterAt(mem, writes, at + i);
    }
  }
}
