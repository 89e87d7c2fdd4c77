/** The egress ring: the DMA engine fills packet slots, the CPU polls for them and hands them back. */
module Egress {
  import opened Ring

  /** A packet as the engine completes it: the status word and the words it stored. */
  datatype Frame = Frame(status: nat, data: seq<word>)

  /** The engine stores what the status word counts, unless it reports an error. */
  predicate Good(f: Frame) {
    && Retired(f.status) && |f.data| <= PACKET_WORDS
    && (!Failed(f.status) ==> |f.data| == SizeOf(f.status) / 4)
  }

  /** The engine may complete any packet that fits a slot: without an error only with a status that
      counts its bytes, with an error whatever it stored. */
  lemma GoodFrames(data: seq<word>, size: nat, frame: nat, errors: nat, done: nat)
    requires size < 0x400_0000 && frame < 4 && errors < 8 && done < 2
    ensures Good(Frame(size + 0x400_0000 * frame + 0x1000_0000 * errors + 0x8000_0000 * done, data)) <==>
              |data| <= 260 && if errors == 0 then done == 1 && 4 * |data| <= size < 4 * |data| + 4 else true
  {
    StatusBits(size, frame, errors, done);
    hide Done, Failed, Retired, SizeOf;
  }

  /** What the CPU is to be given: the packets without error that hold at least one word. */
  function Delivered(frames: seq<Frame>): seq<seq<word>> {
    if frames == [] then []
    else
      var f := frames[|frames| - 1];
      Delivered(frames[..|frames| - 1]) + if !Failed(f.status) && f.data != [] then [f.data] else []
  }

  lemma DeliveredSnoc(frames: seq<Frame>, f: Frame)
    ensures Delivered(frames + [f]) == Delivered(frames) + if !Failed(f.status) && f.data != [] then [f.data] else []
  {
    assert (frames + [f])[..|frames|] == frames;
  }

  lemma {:induction false} DeliveredAppend(a: seq<Frame>, b: seq<Frame>)
    ensures Delivered(a + b) == Delivered(a) + Delivered(b)
    decreases |b|
  {
    if b == [] {
      assert a + b == a;
    } else {
      var init := b[..|b| - 1];
      assert (a + b)[..|a + b| - 1] == a + init;
      DeliveredAppend(a, init);
    }
  }

  ghost predicate Shaped(count: nat, desc: seq<Desc>, slots: seq<seq<word>>) {
    && count > 0 && |desc| == count && |slots| == count
    && (forall i :: 0 <= i < count ==> |slots[i]| == PACKET_WORDS)
    && (forall i :: 0 <= i < count ==> desc[i].buff == i)
  }

  /** The first armed descriptors from cur on wait for packets. */
  ghost predicate Armed(count: nat, cur: nat, armed: nat, desc: seq<Desc>)
    requires |desc| == count && cur < count && armed <= count
  {
    forall j :: 0 <= j < armed ==> desc[Ahead(count, cur, j)].sts == 0
  }

  ghost predicate Holds(desc: seq<Desc>, slots: seq<seq<word>>, i: nat, f: Frame)
    requires i < |desc| == |slots|
  {
    && Good(f) && desc[i].sts == f.status
    && |f.data| <= |slots[i]| && (!Failed(f.status) ==> slots[i][..|f.data|] == f.data)
  }

  /** The descriptors from place from on hold these frames, oldest first. */
  ghost predicate Unread(count: nat, cur: nat, from: nat, desc: seq<Desc>, slots: seq<seq<word>>, frames: seq<Frame>)
    requires Shaped(count, desc, slots) && cur < count && from <= count
  {
    && |frames| == count - from
    && forall j :: from <= j < count ==> Holds(desc, slots, Ahead(count, cur, j), frames[j - from])
  }

  lemma ArmedStep(count: nat, cur: nat, armed: nat, desc: seq<Desc>, d: Desc)
    requires |desc| == count && cur < count && 0 < armed <= count && Armed(count, cur, armed, desc)
    ensures Armed(count, Ahead(count, cur, 1), armed - 1, desc[cur := d])
  {
    var next := Ahead(count, cur, 1);
    forall j | 0 <= j < armed - 1
      ensures desc[cur := d][Ahead(count, next, j)].sts == 0
    {
      AheadShift(count, cur, j);
      AheadInjective(count, cur, j + 1, 0);
      assert desc[Ahead(count, cur, j + 1)].sts == 0;
    }
  }

  lemma UnreadStep(count: nat, cur: nat, from: nat, desc: seq<Desc>, slots: seq<seq<word>>, frames: seq<Frame>,
                   d: Desc, slot: seq<word>, f: Frame)
    requires Shaped(count, desc, slots) && cur < count && 0 < from <= count
    requires Unread(count, cur, from, desc, slots, frames)
    requires Shaped(count, desc[cur := d], slots[cur := slot]) && Holds(desc[cur := d], slots[cur := slot], cur, f)
    ensures Unread(count, Ahead(count, cur, 1), from - 1, desc[cur := d], slots[cur := slot], frames + [f])
  {
    var next := Ahead(count, cur, 1);
    forall j | from - 1 <= j < count
      ensures Holds(desc[cur := d], slots[cur := slot], Ahead(count, next, j), (frames + [f])[j - (from - 1)])
    {
      AheadShift(count, cur, j);
      if j < count - 1 {
        AheadInjective(count, cur, j + 1, 0);
        assert Holds(desc, slots, Ahead(count, cur, j + 1), frames[j + 1 - from]);
      }
    }
  }

  /** The two parts of the ring: armed descriptors from cur on, completed ones from place from on; one
      between them may be in the hands of the CPU. */
  ghost predicate Segments(count: nat, cur: nat, armed: nat, from: nat, desc: seq<Desc>, slots: seq<seq<word>>,
                           frames: seq<Frame>)
    ensures Segments(count, cur, armed, from, desc, slots, frames) ==>
              Shaped(count, desc, slots) && cur < count && armed <= from <= count
  {
    && Shaped(count, desc, slots) && cur < count && armed <= from <= count
    && Armed(count, cur, armed, desc) && Unread(count, cur, from, desc, slots, frames)
  }

  lemma SegmentsStep(count: nat, cur: nat, armed: nat, from: nat, desc: seq<Desc>, slots: seq<seq<word>>,
                     frames: seq<Frame>, f: Frame)
    requires Segments(count, cur, armed, from, desc, slots, frames) && armed > 0 && Good(f)
    ensures |desc| == |slots| == count && |f.data| <= |slots[cur]| && desc[cur].buff == cur
    ensures Segments(count, Ahead(count, cur, 1), armed - 1, from - 1, desc[cur := desc[cur].(sts := f.status)],
                     slots[cur := Copied(slots[cur], f.data)], frames + [f])
  {
    var d, slot := desc[cur].(sts := f.status), Copied(slots[cur], f.data);
    hide Good, Copied;
    ArmedStep(count, cur, armed, desc, d);
    assert Holds(desc[cur := d], slots[cur := slot], cur, f);
    hide Holds, Unread, Armed;
    UnreadStep(count, cur, from, desc, slots, frames, d, slot, f);
  }

  /** Writing to the descriptor in front of the unread ones. */
  lemma FrameWrite(count: nat, cur: nat, armed: nat, desc: seq<Desc>, slots: seq<seq<word>>, frames: seq<Frame>,
                   d: Desc)
    requires Shaped(count, desc, slots) && cur < count && armed < count && d.buff == Ahead(count, cur, armed)
    requires Armed(count, cur, armed, desc) && Unread(count, cur, armed + 1, desc, slots, frames)
    ensures var e := desc[Ahead(count, cur, armed) := d];
            Shaped(count, e, slots) && Armed(count, cur, armed, e) && Unread(count, cur, armed + 1, e, slots, frames)
  {
    var i := Ahead(count, cur, armed);
    forall j | 0 <= j < count && j != armed
      ensures Ahead(count, cur, j) != i
    {
      AheadInjective(count, cur, j, armed);
    }
    forall j | armed + 1 <= j < count
      ensures Holds(desc[i := d], slots, Ahead(count, cur, j), frames[j - (armed + 1)])
    {
      assert Holds(desc, slots, Ahead(count, cur, j), frames[j - (armed + 1)]);
    }
  }

  /** A buffer the CPU was given: its slot, what it held, and the number of completed packets up to
      which it is safe. */
  datatype Held = Nothing | Held(slot: nat, data: seq<word>, until: nat)

  /** As long as no more than until packets are completed the slot is still ahead of the engine, at
      a distance of one place for each packet that may still come, and its contents stand. */
  ghost predicate Stable(h: Held, count: nat, cur: nat, armed: nat, slots: seq<seq<word>>, completed: nat)
    requires cur < count && |slots| == count && armed <= count
  {
    h.Held? && completed <= h.until ==>
      && h.until - completed < armed
      && h.slot == Ahead(count, cur, h.until - completed)
      && |h.data| <= |slots[h.slot]| && slots[h.slot][..|h.data|] == h.data
  }

  lemma StableStep(h: Held, count: nat, cur: nat, armed: nat, slots: seq<seq<word>>, completed: nat, slot: seq<word>)
    requires cur < count && |slots| == count && 0 < armed <= count && Stable(h, count, cur, armed, slots, completed)
    ensures Stable(h, count, Ahead(count, cur, 1), armed - 1, slots[cur := slot], completed + 1)
  {
    if h.Held? && completed + 1 <= h.until {
      var j := h.until - completed;
      AheadShift(count, cur, j - 1);
      AheadInjective(count, cur, j, 0);
    }
  }

  lemma ArmedGrow(count: nat, cur: nat, armed: nat, desc: seq<Desc>)
    requires |desc| == count && cur < count && armed < count && Armed(count, cur, armed, desc)
    requires desc[Ahead(count, cur, armed)].sts == 0
    ensures Armed(count, cur, armed + 1, desc)
  {
  }

  lemma StableGrow(h: Held, count: nat, cur: nat, armed: nat, slots: seq<seq<word>>, completed: nat)
    requires cur < count && |slots| == count && armed < count && Stable(h, count, cur, armed, slots, completed)
    ensures Stable(h, count, cur, armed + 1, slots, completed)
  {
  }

  /** The state the CPU and the engine share, and its history. */
  datatype State = State(
    count: nat, desc: seq<Desc>, slots: seq<seq<word>>, cur: nat, armed: nat,
    received: seq<Frame>, polled: nat, delivered: seq<seq<word>>, held: Held, preparing: bool)

  /** The invariant, with next the entry the CPU polls next. Armed descriptors and completed ones the
      CPU has not looked at make up the whole ring, except for one that is being handed back. */
  ghost predicate Invariant(s: State, next: nat)
    ensures Invariant(s, next) ==>
              && Shaped(s.count, s.desc, s.slots) && s.cur < s.count && next < s.count && s.armed <= s.count
              && (s.preparing ==> s.armed < s.count) && s.polled <= |s.received|
  {
    && s.polled <= |s.received|
    && Segments(s.count, s.cur, s.armed, if s.preparing then s.armed + 1 else s.armed, s.desc, s.slots,
                s.received[s.polled..])
    && next == Ahead(s.count, s.cur, s.armed)
    && s.delivered == Delivered(s.received[..s.polled])
    && Stable(s.held, s.count, s.cur, s.armed, s.slots, |s.received|)
  }

  /** The engine completes its descriptor with f. */
  ghost function Completed(s: State, f: Frame): State
    requires |s.desc| == |s.slots| == s.count && s.cur < s.count && s.armed > 0 && |f.data| <= |s.slots[s.cur]|
  {
    s.(desc := s.desc[s.cur := s.desc[s.cur].(sts := f.status)],
       slots := s.slots[s.cur := Copied(s.slots[s.cur], f.data)],
       received := s.received + [f], cur := Ahead(s.count, s.cur, 1), armed := s.armed - 1)
  }

  lemma EngineKeeps(s: State, f: Frame, next: nat)
    requires Invariant(s, next) && s.armed > 0 && Good(f)
    ensures |s.desc| == |s.slots| == s.count && |f.data| <= |s.slots[s.cur]|
    ensures s.desc[s.cur].buff == s.cur && (s.preparing ==> next != s.cur)
    ensures Invariant(Completed(s, f), next)
  {
    hide Segments, Stable, Copied, Delivered, Good, Shaped;
    var frames := s.received[s.polled..];
    SegmentsStep(s.count, s.cur, s.armed, if s.preparing then s.armed + 1 else s.armed, s.desc, s.slots, frames, f);
    StableStep(s.held, s.count, s.cur, s.armed, s.slots, |s.received|, Copied(s.slots[s.cur], f.data));
    AheadShift(s.count, s.cur, s.armed - 1);
    AheadInjective(s.count, s.cur, 0, if s.armed < s.count then s.armed else 0);
    hide Ahead;
    assert (s.received + [f])[s.polled..] == frames + [f];
    assert (s.received + [f])[..s.polled] == s.received[..s.polled];
  }

  /** Whether the descriptor to be polled is retired says whether a packet is waiting; armed and
      waiting descriptors number the ring. */
  lemma SomethingUnread(s: State, ie: nat)
    requires Invariant(s, ie) && !s.preparing
    ensures ie < s.count == |s.desc| == |s.slots| && |s.slots[ie]| == PACKET_WORDS
    ensures s.armed == s.count - (|s.received| - s.polled)
    ensures Retired(s.desc[ie].sts) <==> |s.received| > s.polled
    ensures |s.received| > s.polled ==> Holds(s.desc, s.slots, ie, s.received[s.polled])
  {
    var frames := s.received[s.polled..];
    if s.armed < s.count {
      OldestUnread(s.count, s.cur, s.armed, s.desc, s.slots, frames);
      assert frames[0] == s.received[s.polled];
    } else {
      assert s.desc[Ahead(s.count, s.cur, 0)].sts == 0;
    }
  }

  /** The CPU looks at the oldest waiting packet. */
  ghost function Looked(s: State): State
    requires s.polled < |s.received|
  {
    s.(polled := s.polled + 1, preparing := true, delivered := Delivered(s.received[..s.polled + 1]))
  }

  lemma LookKeeps(s: State, ie: nat)
    requires Invariant(s, ie) && !s.preparing && s.polled < |s.received|
    ensures Invariant(Looked(s), ie)
    ensures var f := s.received[s.polled];
            Looked(s).delivered == s.delivered + if !Failed(f.status) && f.data != [] then [f.data] else []
  {
    hide Unread, Armed, Stable, Delivered, Holds, Failed, Retired, Ahead;
    SomethingUnread(s, ie);
    var frames, f := s.received[s.polled..], s.received[s.polled];
    OldestUnread(s.count, s.cur, s.armed, s.desc, s.slots, frames);
    assert frames[1..] == s.received[s.polled + 1..];
    assert s.received[..s.polled + 1] == s.received[..s.polled] + [f];
    DeliveredSnoc(s.received[..s.polled], f);
  }

  /** The CPU moves the tail behind the descriptor it looked at; words counts what it returned. */
  ghost function HandedBack(s: State, ie: nat, words: nat): State
    requires ie < |s.slots| && words <= |s.slots[ie]| && s.count > 0
  {
    s.(armed := s.armed + 1, preparing := false,
       held := if words == 0 then s.held else Held(ie, s.slots[ie][..words], s.polled + s.count - 1))
  }

  lemma HandBackKeeps(s: State, ie: nat, words: nat)
    requires Invariant(s, ie) && s.preparing && words <= PACKET_WORDS
    requires ie < |s.desc| && s.desc[ie].sts == 0
    ensures ie < s.count == |s.slots| && |s.slots[ie]| == PACKET_WORDS && s.cur < s.count
    ensures Distance(s.count, s.cur, ie) + 1 == s.armed + 1 <= s.count
    ensures Invariant(HandedBack(s, ie, words), Next(s.count, ie))
  {
    hide Unread, Armed, Delivered, Holds, Ahead, Distance;
    NextIsAhead(s.count, s.cur, s.armed);
    AheadInjective(s.count, s.cur, s.armed, s.armed);
    ArmedGrow(s.count, s.cur, s.armed, s.desc);
    StableGrow(s.held, s.count, s.cur, s.armed, s.slots, |s.received|);
    CountUnread(s.count, s.cur, s.armed + 1, s.desc, s.slots, s.received[s.polled..]);
  }

  /** A copy that was made: how many packets the engine had completed by then, and how many the CPU
      had looked at. */
  datatype Copy = Copy(completed: nat, polled: nat)

  /** The engine had not come round to the buffer before it was copied. */
  predicate InTime(count: nat, c: Copy) {
    c.completed < c.polled + count
  }

  /** The copy of packet i of those to be delivered since start: it was made when the CPU had looked
      at that packet last, has its length, and equals it if made in time. */
  ghost predicate CopyOf(count: nat, received: seq<Frame>, start: nat, packets: seq<seq<word>>, i: nat, c: Copy,
                         data: seq<word>)
    requires i < |packets|
  {
    && start < c.polled <= c.completed <= |received| && c.completed <= c.polled + count
    && Delivered(received[start..c.polled - 1]) == packets[..i]
    && Delivered(received[start..c.polled]) == packets[..i + 1]
    && |data| == |packets[i]| && (InTime(count, c) ==> data == packets[i])
  }

  /** What the caller copied while the CPU went from start packets looked at to polled: a copy for
      each packet to be delivered, in order. */
  ghost predicate CopiesOf(count: nat, received: seq<Frame>, start: nat, polled: nat, copies: seq<Copy>,
                           got: seq<seq<word>>)
    requires start <= polled <= |received|
  {
    var packets := Delivered(received[start..polled]);
    && |got| == |copies| == |packets|
    && forall i :: 0 <= i < |copies| ==>
         copies[i].polled <= polled && CopyOf(count, received, start, packets, i, copies[i], got[i])
  }

  class EgressRing {
    const count: nat
    var desc: seq<Desc>
    var slots: seq<seq<word>>
    var last: int
    var cur: nat
    var armed: nat
    ghost var received: seq<Frame>         // everything the engine completed
    ghost var polled: nat                  // how many of them the CPU has looked at
    ghost var delivered: seq<seq<word>>    // what it was given
    ghost var held: Held
    ghost var preparing: bool
    ghost var copies: seq<Copy>            // the copies callers made of the buffers they were given

    ghost function Now(): State
      reads this
    {
      State(count, desc, slots, cur, armed, received, polled, delivered, held, preparing)
    }

    ghost predicate InvAt(next: nat)
      reads this
    {
      Invariant(Now(), next)
    }

    ghost predicate Inv()
      reads this
    {
      -1 <= last < count && count > 0 && !preparing && InvAt(Next(count, last))
    }

    constructor (count: nat)
      requires count > 0
      ensures this.count == count && Inv() && received == [] && delivered == [] && armed == count && held == Nothing
      ensures polled == 0 && copies == []
    {
      this.count := count;
      last := -1;
      desc := [];
      slots := seq(count, i => seq(PACKET_WORDS, j => 0));
      cur, armed := 0, 0;
      received, polled, delivered, held, preparing, copies := [], 0, [], Nothing, false, [];
      new;
      var i := 0;
      while i < count
        invariant i <= count && |desc| == i && last == i - 1
        invariant forall k :: 0 <= k < i ==> desc[k] == Desc(k, FRAME + 4 * PACKET_WORDS, 0)
        invariant |slots| == count && (forall k :: 0 <= k < count ==> |slots[k]| == PACKET_WORDS)
        invariant cur == 0 && !preparing && received == [] && delivered == [] && polled == 0 && held == Nothing
        modifies this`desc, this`last
      {
        desc := desc + [Desc(i, FRAME + 4 * PACKET_WORDS, 0)];
        last := last + 1;
        i := i + 1;
      }
      WriteTail(count - 1);
    }

    method WriteTail(t: nat)
      requires cur < count && t < count
      modifies this`armed
      ensures armed == Distance(count, cur, t) + 1
    {
      armed := Distance(count, cur, t) + 1;
    }

    /** The engine completes the descriptor it works on with a packet, possibly an empty or a failed
        one. It stores the packet where the descriptor points. */
    method EngineStep(f: Frame, ghost next: nat)
      requires InvAt(next) && armed > 0 && Good(f)
      modifies this`desc, this`slots, this`cur, this`armed, this`received
      ensures InvAt(next) && armed == old(armed) - 1 && received == old(received) + [f]
      ensures preparing ==> desc[next] == old(desc)[next] && slots[next] == old(slots)[next]
      ensures old(cur) < |slots| && |f.data| <= |slots[old(cur)]| && slots[old(cur)][..|f.data|] == f.data
    {
      hide Invariant, Good;
      EngineKeeps(Now(), f, next);
      var at := desc[cur].buff;
      desc, slots := desc[cur := desc[cur].(sts := f.status)], slots[at := Copied(slots[at], f.data)];
      received := received + [f];
      cur, armed := Ahead(count, cur, 1), armed - 1;
      assert Now() == Completed(old(Now()), f);
    }

    /** Between any two accesses of the CPU the engine may complete any number of packets. */
    method Interference(ghost next: nat)
      requires InvAt(next)
      modifies this`desc, this`slots, this`cur, this`armed, this`received
      ensures InvAt(next) && armed <= old(armed) && old(received) <= received
      ensures |received| - |old(received)| == old(armed) - armed
      ensures preparing ==> desc[next] == old(desc)[next] && slots[next] == old(slots)[next]
    {
      hide Invariant;
      var steps: nat :| steps <= armed;
      while steps > 0
        invariant InvAt(next) && steps <= armed <= old(armed) && old(received) <= received
        invariant |received| - |old(received)| == old(armed) - armed
        invariant preparing ==> desc[next] == old(desc)[next] && slots[next] == old(slots)[next]
      {
        StatusFacts(0);
        assert Good(Frame(DONE, []));
        var f: Frame :| Good(f);
        EngineStep(f, next);
        steps := steps - 1;
      }
    }

    /** The CPU has seen that the next descriptor is retired: it is the oldest packet not looked at
        yet. */
    ghost method Prepare(ie: nat)
      requires InvAt(ie) && !preparing && ie < count && Retired(desc[ie].sts)
      modifies this`preparing, this`polled, this`delivered
      ensures InvAt(ie) && preparing && polled == old(polled) + 1 <= |received|
      ensures var words := SizeOf(desc[ie].sts) / 4;
              && (!Failed(desc[ie].sts) ==> words <= PACKET_WORDS)
              && delivered == old(delivered)
                            + if Failed(desc[ie].sts) || words == 0 then [] else [slots[ie][..words]]
    {
      SomethingUnread(Now(), ie);
      LookKeeps(Now(), ie);
      hide Invariant, Delivered;
      polled := polled + 1;
      delivered := Delivered(received[..polled]);
      preparing := true;
    }

    /** A write to a register of the descriptor being handed back; BUFF always names its own slot. */
    method WriteDesc(ie: nat, d: Desc)
      requires InvAt(ie) && preparing && d.buff == ie
      modifies this`desc
      ensures InvAt(ie) && desc == old(desc)[ie := d]
    {
      FrameWrite(count, cur, armed, desc, slots, received[polled..], d);
      desc := desc[ie := d];
    }

    /** The write of the tail register that gives the descriptor back to the engine, behind all armed
        ones. If its slot is the buffer returned to the caller, that buffer stands until the engine
        has completed count - 1 packets more than the CPU has looked at. */
    method HandBack(ie: nat, ghost words: nat)
      requires InvAt(ie) && preparing && ie < count && desc[ie].sts == 0 && words <= PACKET_WORDS
      modifies this`armed, this`preparing, this`held
      ensures InvAt(Next(count, ie)) && !preparing && armed == old(armed) + 1
      ensures held == if words == 0 then old(held) else Held(ie, slots[ie][..words], polled + count - 1)
    {
      hide Invariant;
      HandBackKeeps(Now(), ie, words);
      WriteTail(ie);
      preparing := false;
      if words > 0 {
        held := Held(ie, slots[ie][..words], polled + count - 1);
      }
      assert Now() == HandedBack(old(Now()), ie, words);
    }

    /** Looks at the next descriptor. A completed packet is never passed over, an error or an empty
        packet is handed back without being delivered, and the buffer that is returned holds the
        delivered packet until the engine has completed count - 1 packets more than were polled: with
        k other packets already completed it is safe for count - 1 - k further ones. */
    method PollFastPacket() returns (buf: int, wordCount: nat)
      requires Inv()
      modifies this
      ensures Inv() && old(received) <= received && copies == old(copies)
      ensures old(polled) <= polled <= old(polled) + 1 && polled <= |received| && wordCount <= PACKET_WORDS
      ensures |old(received)| > old(polled) ==> polled == old(polled) + 1
      ensures polled == old(polled) ==> buf == -1 && held == old(held)
      ensures wordCount == 0 ==> delivered == old(delivered) && held == old(held)
      ensures wordCount > 0 ==>
                && 0 <= buf < count && buf == Next(count, old(last)) && old(delivered) < delivered
                && |delivered| == |old(delivered)| + 1 && |delivered[|old(delivered)|]| == wordCount
                && held == Held(buf, delivered[|old(delivered)|], polled + count - 1)
    {
      hide Invariant, Holds, Failed, Done, SizeOf, Delivered;
      buf, wordCount := -1, 0;
      var ie := Next(count, last);
      var status := ReadStatus(ie);
      if Failed(status) {
        Prepare(ie);
        RearmFailed(ie);
        last := ie;
      } else if Done(status) {
        var words := SizeOf(status) / 4;
        Prepare(ie);
        buf := Rearm(ie, words);
        wordCount := words;
        last := ie;
      }
    }

    /** Reads the status of the next descriptor: it is retired if a packet is waiting. */
    method ReadStatus(ie: nat) returns (status: nat)
      requires InvAt(ie) && !preparing
      modifies this`desc, this`slots, this`cur, this`armed, this`received
      ensures InvAt(ie) && old(received) <= received && ie < |desc| && desc[ie].sts == status
      ensures Retired(status) <==> |received| > polled
    {
      hide Invariant, Holds, Retired;
      Interference(ie);
      SomethingUnread(Now(), ie);
      status := desc[ie].sts;
    }

    /** The error path: the status is cleared, the tail moved, and BUFF written last, when the engine
        may already be at work on the descriptor; it has held the same value all along. */
    method RearmFailed(ie: nat)
      requires InvAt(ie) && preparing && ie < count
      modifies this`desc, this`slots, this`cur, this`armed, this`received, this`preparing, this`held
      ensures InvAt(Next(count, ie)) && !preparing && old(received) <= received && held == old(held)
    {
      hide Segments, Stable, Ahead, Delivered;
      Interference(ie);
      WriteDesc(ie, desc[ie].(sts := 0));
      Interference(ie);
      HandBack(ie, 0);
      Interference(Next(count, ie));
      assert desc[ie].buff == ie;
      label rewrite:
      desc := desc[ie := desc[ie].(buff := ie)];
      assert desc == old@rewrite(desc);
      Interference(Next(count, ie));
    }

    /** The success path: BUFF is read for the caller and written, the status cleared, the tail
        moved. */
    method Rearm(ie: nat, words: nat) returns (buf: nat)
      requires InvAt(ie) && preparing && ie < count && words <= PACKET_WORDS
      modifies this`desc, this`slots, this`cur, this`armed, this`received, this`preparing, this`held
      ensures InvAt(Next(count, ie)) && !preparing && old(received) <= received && buf == ie
      ensures held == if words == 0 then old(held) else Held(ie, old(slots)[ie][..words], polled + count - 1)
    {
      hide Segments, Stable, Ahead, Delivered;
      Interference(ie);
      buf := desc[ie].buff;
      Interference(ie);
      WriteDesc(ie, desc[ie].(buff := ie));
      Interference(ie);
      WriteDesc(ie, desc[ie].(sts := 0));
      Interference(ie);
      HandBack(ie, words);
      Interference(Next(count, ie));
    }

    /** One poll in the shipped build; zero words mean no packet. */
    method ReceiveFastPacket() returns (rv: int, buf: int, wordCount: nat)
      requires Inv()
      modifies this
      ensures Inv() && old(received) <= received && copies == old(copies) && rv == 0
      ensures |old(received)| > old(polled) ==> polled > old(polled)
      ensures old(polled) <= polled <= |received| && wordCount <= PACKET_WORDS
      ensures wordCount == 0 ==> delivered == old(delivered) && held == old(held)
      ensures wordCount > 0 ==>
                && polled == old(polled) + 1 && 0 <= buf < count
                && |delivered| > 0 && delivered[..|delivered| - 1] == old(delivered)
                && |delivered[|delivered| - 1]| == wordCount
                && held == Held(buf, delivered[|delivered| - 1], polled + count - 1)
    {
      var maxPolls := 1;
      buf, wordCount := PollFastPacket();
      maxPolls := maxPolls - 1;
      rv := if maxPolls != 0 then 1 else 0;
    }

    /** Reads a buffer that a poll returned. */
    method CopyOut(buf: nat, words: nat) returns (data: seq<word>)
      requires Inv() && buf < count && words <= PACKET_WORDS
      modifies this`copies
      ensures Inv() && copies == old(copies) + [Copy(|received|, polled)]
      ensures buf < |slots| && words <= |slots[buf]| && data == slots[buf][..words]
    {
      hide Invariant;
      BufferStands(Now(), Next(count, last));
      copies := copies + [Copy(|received|, polled)];
      data := slots[buf][..words];
    }

    /** What the caller of a poll does: it receives a buffer and copies it, and the engine goes on
        running in between. The copy is the packet if it is in time. */
    method PollAndRead() returns (data: seq<word>)
      requires Inv()
      modifies this
      ensures Inv() && old(received) <= received
      ensures old(polled) <= polled <= |received| <= polled + count && |data| <= PACKET_WORDS
      ensures data == [] ==> delivered == old(delivered) && copies == old(copies)
      ensures data != [] ==>
                && polled == old(polled) + 1 && copies == old(copies) + [Copy(|received|, polled)]
                && |delivered| > 0 && delivered[..|delivered| - 1] == old(delivered)
                && |delivered[|delivered| - 1]| == |data|
                && (InTime(count, Copy(|received|, polled)) ==> data == delivered[|delivered| - 1])
    {
      hide Invariant;
      data := [];
      var rv, buf, words := ReceiveFastPacket();
      if words > 0 {
        Interference(Next(count, last));
        BufferStands(Now(), Next(count, last));
        data := CopyOut(buf, words);
      }
      SomethingUnread(Now(), Next(count, last));
    }

    /** Any number of polls, each followed by a copy, with the engine running in between as it likes.
        The copies are as many and as long as the engine's packets without error that hold at least
        one word, up to the packets not looked at yet; each one made in time is its packet. */
    method PollMany(n: nat) returns (got: seq<seq<word>>)
      requires Inv()
      modifies this
      ensures Inv() && old(received) <= received && old(copies) <= copies
      ensures old(polled) <= polled <= |received| <= polled + count
      ensures CopiesOf(count, received, old(polled), polled, copies[|old(copies)|..], got)
    {
      hide Invariant, Delivered, CopiesOf;
      got := [];
      ghost var start := polled;
      NoCopies(count, received, polled);
      assert copies[|copies|..] == [];
      var i := 0;
      while i < n
        invariant i <= n && Inv() && old(received) <= received && old(copies) <= copies
        invariant start <= polled <= |received|
        invariant CopiesOf(count, received, start, polled, copies[|old(copies)|..], got)
      {
        var data := PollCopied(start, |old(copies)|, got);
        got := if data == [] then got else got + [data];
        i := i + 1;
      }
      SomethingUnread(Now(), Next(count, last));
    }

    /** One more poll and copy. */
    method PollCopied(ghost start: nat, ghost mark: nat, ghost got: seq<seq<word>>) returns (data: seq<word>)
      requires Inv() && start <= polled <= |received| && mark <= |copies|
      requires CopiesOf(count, received, start, polled, copies[mark..], got)
      modifies this
      ensures Inv() && old(received) <= received && old(copies) <= copies
      ensures old(polled) <= polled <= |received| && |data| <= PACKET_WORDS
      ensures CopiesOf(count, received, start, polled, copies[mark..], if data == [] then got else got + [data])
    {
      hide Invariant, Delivered, CopiesOf, InTime;
      DeliveredSoFar(Now(), Next(count, last));
      data := PollAndRead();
      DeliveredSoFar(Now(), Next(count, last));
      Since(old(received), received, old(polled), polled);
      if data == [] {
        ghost var more := Delivered(received[old(polled)..polled]);
        assert old(delivered) + more == old(delivered) + [];
        SameTail(old(delivered), more, []);
        CopiesKeep(count, old(received), received, start, old(polled), polled, copies[mark..], got);
      } else {
        ghost var more := Delivered(received[old(polled)..polled]);
        ghost var packet := delivered[|delivered| - 1];
        assert delivered == old(delivered) + [packet];
        SameTail(old(delivered), more, [packet]);
        assert copies[mark..] == old(copies)[mark..] + [Copy(|received|, polled)];
        CopiesSnoc(count, old(received), received, start, old(polled), polled, old(copies)[mark..], got, packet, data);
      }
    }

    /** The engine completes one packet after the other, all alike, until it has reached the buffer
        the caller was given. It always can: the bound of PollAndRead is tight. */
    method Outrun(f: Frame, times: nat)
      requires Inv() && held.Held? && Good(f) && |received| + times == held.until + 1 && times > 0
      modifies this`desc, this`slots, this`cur, this`armed, this`received
      ensures Inv() && |received| == held.until + 1
      ensures held.slot < |slots| && |f.data| <= |slots[held.slot]| && slots[held.slot][..|f.data|] == f.data
    {
      hide Invariant, Good;
      ghost var next := Next(count, last);
      var i := 0;
      while i < times - 1
        invariant i <= times - 1 && Inv() && |received| == |old(received)| + i
      {
        BufferStands(Now(), next);
        EngineStep(f, next);
        i := i + 1;
      }
      BufferStands(Now(), next);
      EngineStep(f, next);
    }

    /** A copy made too late: whatever the packet was, the caller can be given another one of its
        size. */
    method LateRead(f: Frame, times: nat, slot: nat) returns (data: seq<word>)
      requires Inv() && held.Held? && held.slot == slot && Good(f) && |f.data| == |held.data|
      requires |received| + times == held.until + 1 && times > 0
      modifies this`desc, this`slots, this`cur, this`armed, this`received
      ensures Inv() && |received| == held.until + 1 && data == f.data
    {
      Outrun(f, times);
      data := slots[slot][..|f.data|];
    }
  }

  /** As long as a buffer is safe it holds the packet that was delivered in it; when nothing more may
      be completed, it is next. */
  lemma BufferStands(s: State, next: nat)
    requires Invariant(s, next)
    ensures |s.slots| == s.count && forall i :: 0 <= i < s.count ==> |s.slots[i]| == PACKET_WORDS
    ensures s.held.Held? && |s.received| <= s.held.until ==>
              && s.armed > 0 && s.held.slot < |s.slots| && |s.held.data| <= |s.slots[s.held.slot]|
              && s.slots[s.held.slot][..|s.held.data|] == s.held.data
              && (|s.received| == s.held.until ==> s.held.slot == s.cur)
  {
    hide Segments, Delivered;
  }

  lemma NoCopies(count: nat, received: seq<Frame>, polled: nat)
    requires polled <= |received|
    ensures CopiesOf(count, received, polled, polled, [], [])
  {
  }

  lemma CopyStays(count: nat, before: seq<Frame>, received: seq<Frame>, start: nat, packets: seq<seq<word>>,
                  more: seq<seq<word>>, i: nat, c: Copy, data: seq<word>)
    requires i < |packets| && before <= received && CopyOf(count, before, start, packets, i, c, data)
    ensures CopyOf(count, received, start, packets + more, i, c, data)
  {
    hide Delivered, InTime;
    assert received[start..c.polled] == before[start..c.polled];
    assert received[start..c.polled - 1] == before[start..c.polled - 1];
    assert (packets + more)[..i + 1] == packets[..i + 1] && (packets + more)[..i] == packets[..i];
  }

  lemma CopiesKeep(count: nat, before: seq<Frame>, received: seq<Frame>, start: nat, from: nat, polled: nat,
                   copies: seq<Copy>, got: seq<seq<word>>)
    requires start <= from <= |before| && before <= received && from <= polled <= |received|
    requires CopiesOf(count, before, start, from, copies, got)
    requires Delivered(received[from..polled]) == []
    ensures CopiesOf(count, received, start, polled, copies, got)
  {
    hide Delivered, CopyOf;
    Stretch(before, received, start, from, polled);
    forall i | 0 <= i < |copies|
      ensures CopyOf(count, received, start, Delivered(received[start..polled]), i, copies[i], got[i])
    {
      CopyStays(count, before, received, start, Delivered(before[start..from]), [], i, copies[i], got[i]);
    }
  }

  lemma CopiesSnoc(count: nat, before: seq<Frame>, received: seq<Frame>, start: nat, from: nat, polled: nat,
                   copies: seq<Copy>, got: seq<seq<word>>, packet: seq<word>, data: seq<word>)
    requires start <= from <= |before| && before <= received && from + 1 == polled <= |received| <= polled + count
    requires CopiesOf(count, before, start, from, copies, got)
    requires Delivered(received[from..polled]) == [packet] && |data| == |packet|
    requires InTime(count, Copy(|received|, polled)) ==> data == packet
    ensures CopiesOf(count, received, start, polled, copies + [Copy(|received|, polled)], got + [data])
  {
    hide Delivered, CopyOf;
    Stretch(before, received, start, from, polled);
    var packets, c := Delivered(before[start..from]), Copy(|received|, polled);
    forall i | 0 <= i <= |copies|
      ensures CopyOf(count, received, start, packets + [packet], i, (copies + [c])[i], (got + [data])[i])
    {
      if i < |copies| {
        CopyStays(count, before, received, start, packets, [packet], i, copies[i], got[i]);
      } else {
        LastCopy(count, before, received, start, from, packet, data);
      }
    }
  }

  lemma LastCopy(count: nat, before: seq<Frame>, received: seq<Frame>, start: nat, from: nat, packet: seq<word>,
                 data: seq<word>)
    requires start <= from <= |before| && before <= received && from < |received| <= from + 1 + count
    requires Delivered(received[start..from + 1]) == Delivered(before[start..from]) + [packet]
    requires |data| == |packet| && (InTime(count, Copy(|received|, from + 1)) ==> data == packet)
    ensures var packets := Delivered(before[start..from]);
            CopyOf(count, received, start, packets + [packet], |packets|, Copy(|received|, from + 1), data)
  {
    hide Delivered, InTime;
    var packets := Delivered(before[start..from]);
    assert received[start..from] == before[start..from];
    assert (packets + [packet])[..|packets| + 1] == packets + [packet] && (packets + [packet])[..|packets|] == packets;
  }

  /** Between start and polled more is delivered than up to from. */
  lemma Stretch(before: seq<Frame>, received: seq<Frame>, start: nat, from: nat, polled: nat)
    requires start <= from <= |before| && before <= received && from <= polled <= |received|
    ensures Delivered(received[start..polled]) == Delivered(before[start..from]) + Delivered(received[from..polled])
  {
    hide Delivered;
    assert received[start..polled] == before[start..from] + received[from..polled];
    DeliveredAppend(before[start..from], received[from..polled]);
  }

  /** If all copies are in time the caller has the packets, in order, with nothing lost or repeated.
      They are if the engine completes at most count packets after those looked at at the start. */
  lemma AllInTime(count: nat, received: seq<Frame>, start: nat, polled: nat, copies: seq<Copy>, got: seq<seq<word>>)
    requires start <= polled <= |received| && CopiesOf(count, received, start, polled, copies, got)
    ensures |received| <= start + count ==> forall c :: c in copies ==> InTime(count, c)
    ensures (forall c :: c in copies ==> InTime(count, c)) ==> got == Delivered(received[start..polled])
  {
    hide Delivered;
    assert forall i :: 0 <= i < |copies| ==> copies[i] in copies;
  }

  lemma SameTail(a: seq<seq<word>>, x: seq<seq<word>>, y: seq<seq<word>>)
    requires a + x == a + y
    ensures x == y
  {
    assert x == (a + x)[|a|..] && y == (a + y)[|a|..];
  }

  /** What was delivered between two points of a history. */
  lemma Since(before: seq<Frame>, now: seq<Frame>, from: nat, to: nat)
    requires from <= |before| && before <= now && from <= to <= |now|
    ensures Delivered(now[..to]) == Delivered(before[..from]) + Delivered(now[from..to])
  {
    assert now[..to] == before[..from] + now[from..to];
    DeliveredAppend(before[..from], now[from..to]);
  }

  lemma DeliveredSoFar(s: State, next: nat)
    requires Invariant(s, next)
    ensures s.polled <= |s.received| && s.delivered == Delivered(s.received[..s.polled])
  {
    hide Segments, Stable, Delivered;
  }

  lemma OldestUnread(count: nat, cur: nat, from: nat, desc: seq<Desc>, slots: seq<seq<word>>, frames: seq<Frame>)
    requires Shaped(count, desc, slots) && cur < count && from < count && Unread(count, cur, from, desc, slots, frames)
    ensures frames != [] && Holds(desc, slots, Ahead(count, cur, from), frames[0])
    ensures Unread(count, cur, from + 1, desc, slots, frames[1..])
  {
    assert Holds(desc, slots, Ahead(count, cur, from), frames[from - from]);
    forall j | from + 1 <= j < count
      ensures Holds(desc, slots, Ahead(count, cur, j), frames[1..][j - (from + 1)])
    {
      assert Holds(desc, slots, Ahead(count, cur, j), frames[j - from]);
    }
  }

  lemma CountUnread(count: nat, cur: nat, from: nat, desc: seq<Desc>, slots: seq<seq<word>>, frames: seq<Frame>)
    requires Shaped(count, desc, slots) && cur < count && from <= count && Unread(count, cur, from, desc, slots, frames)
    ensures |frames| == count - from
  {
  }
}
