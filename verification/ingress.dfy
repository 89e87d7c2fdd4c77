/** The ingress ring: the CPU fills packet slots and moves the tail, the DMA engine transmits. */
module Ingress {
  import opened Ring

  const MAX_POLLS: nat := 1000

  type Packet = p: seq<word> | |p| <= PACKET_WORDS witness []

  /** A packet the engine is done with, and whether it was transmitted without error. */
  datatype Sent = Sent(packet: Packet, ok: bool)

  function Packets(sent: seq<Sent>): (p: seq<Packet>)
    ensures |p| == |sent| && forall i :: 0 <= i < |p| ==> p[i] == sent[i].packet
  {
    if sent == [] then [] else [sent[0].packet] + Packets(sent[1..])
  }

  lemma PacketsSnoc(sent: seq<Sent>, s: Sent)
    ensures Packets(sent + [s]) == Packets(sent) + [s.packet]
  {
  }

  function Transmitted(sent: seq<Sent>): seq<Packet> {
    if sent == [] then []
    else (if sent[0].ok then [sent[0].packet] else []) + Transmitted(sent[1..])
  }

  /** In a run without errors everything retired was transmitted. */
  lemma {:induction false} ErrorFree(sent: seq<Sent>)
    requires forall s :: s in sent ==> s.ok
    ensures Transmitted(sent) == Packets(sent)
  {
    if sent != [] {
      assert sent[0] in sent;
      assert forall s :: s in sent[1..] ==> s in sent;
      ErrorFree(sent[1..]);
    }
  }

  /** A descriptor the engine owns: not retired, pointing at its own slot, which holds the packet. */
  ghost predicate InFlight(desc: seq<Desc>, slots: seq<seq<word>>, i: nat, p: Packet)
    requires i < |desc| == |slots| && |slots[i]| == PACKET_WORDS
  {
    && desc[i].sts == 0 && desc[i].buff == i
    && SizeOf(desc[i].cntl) == 4 * |p| && slots[i][..|p|] == p
  }

  ghost predicate Shaped(count: nat, desc: seq<Desc>, slots: seq<seq<word>>) {
    && count > 0 && |desc| == count && |slots| == count
    && forall i :: 0 <= i < count ==> |slots[i]| == PACKET_WORDS
  }

  /** The descriptors from cur on hold these packets, in order, and belong to the engine. */
  ghost predicate Owned(count: nat, cur: nat, desc: seq<Desc>, slots: seq<seq<word>>, pending: seq<Packet>)
    requires Shaped(count, desc, slots) && cur < count
  {
    |pending| <= count && forall j :: 0 <= j < |pending| ==> InFlight(desc, slots, Ahead(count, cur, j), pending[j])
  }

  /** The descriptors from place from on, counted from cur, are handed back to the CPU. */
  ghost predicate Free(count: nat, cur: nat, desc: seq<Desc>, from: nat)
    requires |desc| == count && cur < count
  {
    forall j :: from <= j < count ==> Retired(desc[Ahead(count, cur, j)].sts)
  }

  lemma OwnedStep(count: nat, cur: nat, desc: seq<Desc>, slots: seq<seq<word>>, pending: seq<Packet>, d: Desc)
    requires Shaped(count, desc, slots) && cur < count && pending != []
    requires Owned(count, cur, desc, slots, pending)
    ensures Owned(count, Ahead(count, cur, 1), desc[cur := d], slots, pending[1..])
  {
    var next, rest := Ahead(count, cur, 1), pending[1..];
    forall j | 0 <= j < |rest|
      ensures InFlight(desc[cur := d], slots, Ahead(count, next, j), rest[j])
    {
      AheadShift(count, cur, j);
      AheadInjective(count, cur, j + 1, 0);
      assert InFlight(desc, slots, Ahead(count, cur, j + 1), pending[j + 1]);
    }
  }

  lemma OwnedNotRetired(count: nat, cur: nat, desc: seq<Desc>, slots: seq<seq<word>>, pending: seq<Packet>)
    requires Shaped(count, desc, slots) && cur < count && pending != []
    requires Owned(count, cur, desc, slots, pending)
    ensures !Retired(desc[cur].sts)
  {
    assert InFlight(desc, slots, Ahead(count, cur, 0), pending[0]);
  }

  lemma FreeStep(count: nat, cur: nat, desc: seq<Desc>, d: Desc, from: nat)
    requires |desc| == count && cur < count && 0 < from <= count && Free(count, cur, desc, from) && Retired(d.sts)
    ensures Free(count, Ahead(count, cur, 1), desc[cur := d], from - 1)
  {
    var next := Ahead(count, cur, 1);
    forall j | from - 1 <= j < count
      ensures Retired(desc[cur := d][Ahead(count, next, j)].sts)
    {
      AheadShift(count, cur, j);
      if j < count - 1 {
        assert Retired(desc[Ahead(count, cur, j + 1)].sts);
      }
    }
  }

  /** The descriptor behind the segment takes a packet and joins it. */
  lemma OwnedGrow(count: nat, cur: nat, desc: seq<Desc>, slots: seq<seq<word>>, pending: seq<Packet>, p: Packet)
    requires Shaped(count, desc, slots) && cur < count && |pending| < count
    requires Owned(count, cur, desc, slots, pending)
    requires InFlight(desc, slots, Ahead(count, cur, |pending|), p)
    ensures Owned(count, cur, desc, slots, pending + [p])
  {
  }

  /** Writing behind the segment, to a descriptor and its slot, leaves the packets in flight alone. */
  lemma OwnedFrame(count: nat, cur: nat, desc: seq<Desc>, slots: seq<seq<word>>, pending: seq<Packet>,
                   d: Desc, slot: seq<word>)
    requires Shaped(count, desc, slots) && cur < count && |pending| < count && |slot| == PACKET_WORDS
    requires Owned(count, cur, desc, slots, pending)
    ensures var i := Ahead(count, cur, |pending|);
            Shaped(count, desc[i := d], slots[i := slot])
            && Owned(count, cur, desc[i := d], slots[i := slot], pending)
  {
    var i := Ahead(count, cur, |pending|);
    forall j | 0 <= j < |pending|
      ensures InFlight(desc[i := d], slots[i := slot], Ahead(count, cur, j), pending[j])
    {
      AheadInjective(count, cur, j, |pending|);
      assert InFlight(desc, slots, Ahead(count, cur, j), pending[j]);
    }
  }

  lemma FreeFrame(count: nat, cur: nat, desc: seq<Desc>, armed: nat, d: Desc)
    requires |desc| == count && cur < count && armed < count && Free(count, cur, desc, armed + 1)
    ensures Free(count, cur, desc[Ahead(count, cur, armed) := d], armed + 1)
  {
    forall j | armed + 1 <= j < count
      ensures Retired(desc[Ahead(count, cur, armed) := d][Ahead(count, cur, j)].sts)
    {
      AheadInjective(count, cur, j, armed);
      assert Retired(desc[Ahead(count, cur, j)].sts);
    }
  }

  /** The engine writes status words only, and only to retire a descriptor. */
  ghost predicate EngineOnly(a: seq<Desc>, b: seq<Desc>) {
    && |a| == |b|
    && forall i :: 0 <= i < |a| ==>
         b[i].buff == a[i].buff && b[i].cntl == a[i].cntl && (b[i].sts == a[i].sts || Retired(b[i].sts))
  }

  /** The state the CPU and the engine share, and its history. */
  datatype State = State(
    count: nat, desc: seq<Desc>, slots: seq<seq<word>>, cur: nat, armed: nat,
    accepted: seq<Packet>, sent: seq<Sent>, preparing: bool)

  /** The invariant, with next the entry the CPU uses next: the engine's descriptors are one circular
      segment that ends just before it and hold, in order, the accepted packets that are not sent;
      every other descriptor is retired, except for one the CPU may be writing. */
  ghost predicate Invariant(s: State, next: nat)
    ensures Invariant(s, next) ==>
              && Shaped(s.count, s.desc, s.slots) && s.cur < s.count && next < s.count && s.armed <= s.count
              && (s.preparing ==> s.armed < s.count)
  {
    && Shaped(s.count, s.desc, s.slots) && s.cur < s.count && s.armed <= s.count
    && next == Ahead(s.count, s.cur, s.armed)
    && |s.accepted| == |s.sent| + s.armed
    && Packets(s.sent) == s.accepted[..|s.sent|]
    && Owned(s.count, s.cur, s.desc, s.slots, s.accepted[|s.sent|..])
    && (s.preparing ==> s.armed < s.count)
    && Free(s.count, s.cur, s.desc, if s.preparing then s.armed + 1 else s.armed)
  }

  /** The engine completes its descriptor with a status word. */
  ghost function Completed(s: State, status: nat): State
    requires |s.desc| == s.count && s.cur < s.count && 0 < s.armed && |s.sent| < |s.accepted|
  {
    s.(desc := s.desc[s.cur := s.desc[s.cur].(sts := status)], cur := Ahead(s.count, s.cur, 1),
       armed := s.armed - 1, sent := s.sent + [Sent(s.accepted[|s.sent|], !Failed(status))])
  }

  /** The packet the engine reads through its descriptor is the oldest accepted one that was not
      sent, and the CPU is not writing that descriptor. */
  lemma EngineReads(s: State, next: nat)
    requires Invariant(s, next) && s.armed > 0
    ensures |s.sent| < |s.accepted| && s.desc[s.cur].buff == s.cur
    ensures SizeOf(s.desc[s.cur].cntl) / 4 == |s.accepted[|s.sent|]|
    ensures s.slots[s.cur][..|s.accepted[|s.sent|]|] == s.accepted[|s.sent|]
    ensures s.preparing ==> next != s.cur
  {
    var pending := s.accepted[|s.sent|..];
    assert InFlight(s.desc, s.slots, Ahead(s.count, s.cur, 0), pending[0]);
    hide Owned, Free, Packets;
    AheadInjective(s.count, s.cur, 0, if s.armed < s.count then s.armed else 0);
  }

  /** Completing a descriptor keeps the invariant. */
  lemma EngineKeeps(s: State, status: nat, next: nat)
    requires Invariant(s, next) && s.armed > 0 && Retired(status)
    ensures |s.sent| < |s.accepted| && Invariant(Completed(s, status), next)
  {
    hide Owned, Free, Packets, Ahead, Failed, SizeOf, Retired;
    var pending, from := s.accepted[|s.sent|..], if s.preparing then s.armed + 1 else s.armed;
    var d := s.desc[s.cur].(sts := status);
    OwnedStep(s.count, s.cur, s.desc, s.slots, pending, d);
    FreeStep(s.count, s.cur, s.desc, d, from);
    AheadShift(s.count, s.cur, s.armed - 1);
    PacketsSnoc(s.sent, Sent(s.accepted[|s.sent|], !Failed(status)));
    assert pending[1..] == s.accepted[|s.sent| + 1..];
    assert s.accepted[..|s.sent|] + [s.accepted[|s.sent|]] == s.accepted[..|s.sent| + 1];
  }

  class IngressRing {
    const count: nat
    var desc: seq<Desc>
    var slots: seq<seq<word>>
    var last: int
    // The engine works on descriptor cur; armed of them, from cur up to the tail, are its own.
    var cur: nat
    var armed: nat
    ghost var accepted: seq<Packet>
    ghost var sent: seq<Sent>
    // The descriptor after the armed ones is being written and may be in any state.
    ghost var preparing: bool
    ghost var polls: nat                   // reads of a status by the polling loop

    ghost function Now(): State
      reads this
    {
      State(count, desc, slots, cur, armed, accepted, sent, preparing)
    }

    ghost predicate InvAt(next: nat)
      reads this
    {
      Invariant(Now(), next)
    }

    ghost predicate Inv()
      reads this
    {
      -1 <= last < count && count > 0 && !preparing && InvAt(Next(count, last))
    }

    constructor (count: nat)
      requires count > 0
      ensures this.count == count && Inv() && accepted == [] && sent == [] && armed == 0 && last == -1
    {
      this.count := count;
      last := -1;
      desc := [];
      slots := seq(count, i => seq(PACKET_WORDS, j => 0));
      cur, armed := 0, 0;
      accepted, sent, preparing, polls := [], [], false, 0;
      new;
      var i := 0;
      StatusFacts(0);
      while i < count
        invariant i <= count && |desc| == i
        invariant forall k :: 0 <= k < i ==> desc[k] == Desc(k, 0, DONE)
        invariant |slots| == count && (forall k :: 0 <= k < count ==> |slots[k]| == PACKET_WORDS)
        invariant cur == 0 && armed == 0 && last == -1 && !preparing && accepted == [] && sent == []
        modifies this`desc
      {
        desc := desc + [Desc(i, 0, DONE)];
        i := i + 1;
      }
    }

    /** The engine completes the descriptor it works on with any retired status. It reads the packet
        through the descriptor. */
    method EngineStep(status: nat, ghost next: nat)
      requires InvAt(next) && armed > 0 && Retired(status)
      modifies this`desc, this`cur, this`armed, this`sent
      ensures InvAt(next) && armed == old(armed) - 1
      ensures sent == old(sent) + [Sent(old(accepted)[|old(sent)|], !Failed(status))]
      ensures EngineOnly(old(desc), desc) && (preparing ==> desc[next] == old(desc)[next])
    {
      hide Invariant, Retired, Failed, SizeOf;
      EngineReads(Now(), next);
      EngineKeeps(Now(), status, next);
      var d := desc[cur];
      var packet := slots[d.buff][..SizeOf(d.cntl) / 4];
      desc := desc[cur := d.(sts := status)];
      sent := sent + [Sent(packet, !Failed(status))];
      cur, armed := Ahead(count, cur, 1), armed - 1;
      assert Now() == Completed(old(Now()), status);
    }

    /** Between any two accesses of the CPU the engine may run any number of steps. */
    method Interference(ghost next: nat)
      requires InvAt(next)
      modifies this`desc, this`cur, this`armed, this`sent
      ensures InvAt(next) && armed <= old(armed) && old(sent) <= sent
      ensures EngineOnly(old(desc), desc) && (preparing ==> desc[next] == old(desc)[next])
    {
      var steps: nat :| steps <= armed;
      while steps > 0
        invariant InvAt(next) && steps <= armed <= old(armed) && old(sent) <= sent
        invariant EngineOnly(old(desc), desc) && (preparing ==> desc[next] == old(desc)[next])
      {
        StatusFacts(0);
        var status: nat :| Retired(status);
        EngineStep(status, next);
        steps := steps - 1;
      }
    }

    /** Writing the tail register hands the engine everything from its current descriptor to t. */
    method WriteTail(t: nat)
      requires cur < count && t < count
      modifies this`armed
      ensures armed == Distance(count, cur, t) + 1
    {
      armed := Distance(count, cur, t) + 1;
    }

    /** A retired descriptor behind the segment is the CPU's to write. */
    ghost method Prepare(ii: nat)
      requires InvAt(ii) && ii < count && !preparing && Retired(desc[ii].sts)
      modifies this`preparing
      ensures InvAt(ii) && preparing
    {
      if armed > 0 {
        OwnedNotRetired(count, cur, desc, slots, accepted[|sent|..]);
      }
      preparing := true;
    }

    /** memcpy into the packet slot of the descriptor being written. */
    method WriteSlot(ii: nat, buf: Packet)
      requires InvAt(ii) && preparing
      modifies this`slots
      ensures InvAt(ii) && slots == old(slots)[ii := Copied(old(slots)[ii], buf)]
    {
      OwnedFrame(count, cur, desc, slots, accepted[|sent|..], desc[ii], Copied(slots[ii], buf));
      assert desc[ii := desc[ii]] == desc;
      slots := slots[ii := Copied(slots[ii], buf)];
    }

    /** A write to a register of the descriptor being written. */
    method WriteDesc(ii: nat, d: Desc)
      requires InvAt(ii) && preparing
      modifies this`desc
      ensures InvAt(ii) && desc == old(desc)[ii := d]
    {
      OwnedFrame(count, cur, desc, slots, accepted[|sent|..], d, slots[ii]);
      assert slots[ii := slots[ii]] == slots;
      FreeFrame(count, cur, desc, armed, d);
      desc := desc[ii := d];
    }

    /** The write of the tail register that gives the packet to the engine. */
    method HandOver(ii: nat, ghost buf: Packet)
      requires InvAt(ii) && preparing && InFlight(desc, slots, ii, buf)
      modifies this`armed, this`accepted, this`preparing
      ensures InvAt(Next(count, ii)) && !preparing && accepted == old(accepted) + [buf]
    {
      hide InFlight;
      OwnedGrow(count, cur, desc, slots, accepted[|sent|..], buf);
      NextIsAhead(count, cur, armed);
      AheadInjective(count, cur, armed, armed);
      WriteTail(ii);
      assert (accepted + [buf])[|sent|..] == accepted[|sent|..] + [buf];
      assert (accepted + [buf])[..|sent|] == accepted[..|sent|];
      accepted := accepted + [buf];
      preparing := false;
    }

    /** One read of the polling loop. */
    method ReadStatus(ii: nat) returns (status: nat)
      requires InvAt(ii) && !preparing
      modifies this`desc, this`cur, this`armed, this`sent, this`polls
      ensures InvAt(ii) && old(sent) <= sent && EngineOnly(old(desc), desc) && ii < |desc|
      ensures status == desc[ii].sts && polls == old(polls) + 1
    {
      hide Invariant, EngineOnly;
      Interference(ii);
      status := desc[ii].sts;
      polls := polls + 1;
    }

    /** Polls the status of the next descriptor until it is retired. Giving up takes a thousand polls,
        and means that every descriptor was in flight. */
    method WaitForFree(ii: nat) returns (found: bool)
      requires InvAt(ii) && !preparing
      modifies this`desc, this`cur, this`armed, this`sent, this`polls
      ensures InvAt(ii) && old(sent) <= sent && EngineOnly(old(desc), desc)
      ensures found ==> Retired(desc[ii].sts) && old(polls) < polls <= old(polls) + 1000
      ensures !found ==> old(armed) == count && polls == old(polls) + 1000
    {
      assert armed < count ==> Retired(desc[Ahead(count, cur, armed)].sts);
      var i := 0;
      while i < MAX_POLLS
        invariant 0 <= i <= MAX_POLLS && InvAt(ii)
        invariant old(sent) <= sent && EngineOnly(old(desc), desc)
        invariant i > 0 ==> !Retired(old(desc)[ii].sts)
        invariant polls == old(polls) + i
      {
        var status := ReadStatus(ii);
        if Failed(status) || Done(status) {
          return true;
        }
        i := i + 1;
      }
      found := false;
    }

    /** Sends a packet, or gives up. The engine runs between any two accesses. A send that fails
        changes no packet slot, no cursor and no descriptor (the engine may), and only fails when
        every descriptor was in flight; a packet it accepts is handed to the engine behind all
        others. */
    method SendPacket(buf: Packet) returns (rv: int)
      requires Inv()
      modifies this
      ensures Inv() && old(sent) <= sent
      ensures rv == 0 || rv == -1
      ensures rv == 0 ==> accepted == old(accepted) + [buf] && last == Next(count, old(last))
      ensures rv == -1 ==>
                && accepted == old(accepted) && slots == old(slots) && last == old(last)
                && EngineOnly(old(desc), desc) && old(armed) == count && polls == old(polls) + 1000
    {
      var ii := Next(count, last);
      var found := WaitForFree(ii);
      if !found {
        return -1;
      }
      // The descriptor is retired, so it is not one of the engine's; from here on it is the CPU's.
      Prepare(ii);
      Fill(ii, buf);
      last := ii;
      rv := 0;
    }

    /** Fills the slot and the descriptor and moves the tail. */
    method Fill(ii: nat, buf: Packet)
      requires InvAt(ii) && preparing && ii < count
      modifies this`desc, this`slots, this`cur, this`armed, this`accepted, this`sent, this`preparing
      ensures InvAt(Next(count, ii)) && !preparing && old(sent) <= sent && accepted == old(accepted) + [buf]
    {
      hide EngineOnly, Invariant, Retired;
      Interference(ii);
      WriteSlot(ii, buf);
      Interference(ii);
      WriteDesc(ii, desc[ii].(buff := ii));
      Interference(ii);
      WriteDesc(ii, desc[ii].(cntl := FRAME + 4 * |buf|));
      Interference(ii);
      WriteDesc(ii, desc[ii].(sts := 0));
      Interference(ii);
      StatusFacts(|buf|);
      HandOver(ii, buf);
      Interference(Next(count, ii));
    }

    /** Any sequence of sends, with the engine running in between as it likes: what is accepted are
        exactly the packets whose send returned 0, in order. A send returns -1 only if the packets
        accepted by then fill the ring, so as many sends as there are free descriptors succeed. */
    method SendAll(script: seq<Packet>) returns (results: seq<int>)
      requires Inv()
      modifies this
      ensures Inv()
      ensures |results| == |script| && accepted == old(accepted) + Taken(script, results)
      ensures forall r :: r in results ==> r == 0 || r == -1
      ensures Refusals(count, |old(accepted)|, |old(sent)|, script, results)
      ensures forall i :: 0 <= i < count - old(armed) && i < |script| ==> results[i] == 0
      ensures Packets(sent) == accepted[..|sent|] && old(sent) <= sent
      ensures (forall s :: s in sent ==> s.ok) ==> Transmitted(sent) == accepted[..|sent|]
    {
      hide EngineOnly, Invariant, Taken, Packets, Transmitted, Refusals;
      results := [];
      var i := 0;
      NothingTaken(count, |accepted|, |sent|);
      InFlightCount(Now(), Next(count, last));
      assert accepted + [] == accepted;
      while i < |script|
        invariant i == |results| <= |script| && Inv() && old(sent) <= sent
        invariant accepted == old(accepted) + Taken(script[..i], results)
        invariant forall r :: r in results ==> r == 0 || r == -1
        invariant Refusals(count, |old(accepted)|, |old(sent)|, script[..i], results)
      {
        InFlightCount(Now(), Next(count, last));
        var rv := SendPacket(script[i]);
        RefusalsSnoc(count, |old(accepted)|, |old(sent)|, script[..i], results, script[i], rv);
        TakenSnoc(script[..i], results, script[i], rv);
        assert script[..i] + [script[i]] == script[..i + 1];
        results := results + [rv];
        i := i + 1;
      }
      assert script[..i] == script;
      RoomFirst(count, |old(accepted)|, |old(sent)|, script, results);
      SentPrefix(Now(), Next(count, last));
      if forall s :: s in sent ==> s.ok {
        ErrorFree(sent);
      }
    }
  }

  /** The packets whose send succeeded. */
  function Taken(script: seq<Packet>, results: seq<int>): seq<Packet>
    requires |script| == |results|
  {
    if script == [] then []
    else
      var n := |script| - 1;
      Taken(script[..n], results[..n]) + if results[n] == 0 then [script[n]] else []
  }

  /** A send fails only when every descriptor is in flight: the packets accepted by then, less those
      sent at the start, fill the ring. */
  ghost predicate Refusals(count: nat, accepted: nat, sent: nat, script: seq<Packet>, results: seq<int>)
    requires |script| == |results|
  {
    forall i :: 0 <= i < |script| && results[i] == -1 ==>
      accepted + |Taken(script[..i], results[..i])| >= sent + count
  }

  lemma NothingTaken(count: nat, accepted: nat, sent: nat)
    ensures Taken([], []) == [] && Refusals(count, accepted, sent, [], [])
  {
  }

  lemma RefusalsSnoc(
    count: nat, accepted: nat, sent: nat, script: seq<Packet>, results: seq<int>, p: Packet, rv: int)
    requires |script| == |results| && Refusals(count, accepted, sent, script, results)
    requires rv == -1 ==> accepted + |Taken(script, results)| >= sent + count
    ensures Refusals(count, accepted, sent, script + [p], results + [rv])
  {
    hide Taken;
    forall i | 0 <= i <= |script|
      ensures (script + [p])[..i] == script[..i] && (results + [rv])[..i] == results[..i]
    {
    }
    assert script[..|script|] == script && results[..|results|] == results;
  }

  lemma {:induction false} TakenAtMost(script: seq<Packet>, results: seq<int>)
    requires |script| == |results|
    ensures |Taken(script, results)| <= |script|
  {
    if script != [] {
      TakenAtMost(script[..|script| - 1], results[..|script| - 1]);
    }
  }

  lemma RoomFirst(count: nat, accepted: nat, sent: nat, script: seq<Packet>, results: seq<int>)
    requires |script| == |results| && Refusals(count, accepted, sent, script, results)
    requires forall r :: r in results ==> r == 0 || r == -1
    ensures forall i :: 0 <= i < count + sent - accepted && i < |script| ==> results[i] == 0
  {
    hide Taken;
    forall i | 0 <= i < count + sent - accepted && i < |script|
      ensures results[i] == 0
    {
      TakenAtMost(script[..i], results[..i]);
      assert results[i] in results;
    }
  }

  lemma InFlightCount(s: State, next: nat)
    requires Invariant(s, next)
    ensures |s.accepted| == |s.sent| + s.armed
  {
  }

  lemma SentPrefix(s: State, next: nat)
    requires Invariant(s, next)
    ensures |s.sent| <= |s.accepted| && Packets(s.sent) == s.accepted[..|s.sent|]
  {
    hide Owned, Free;
  }

  lemma TakenSnoc(script: seq<Packet>, results: seq<int>, p: Packet, rv: int)
    requires |script| == |results|
    ensures Taken(script + [p], results + [rv]) == Taken(script, results) + if rv == 0 then [p] else []
  {
    assert (script + [p])[..|script|] == script && (results + [rv])[..|results|] == results;
  }
}
