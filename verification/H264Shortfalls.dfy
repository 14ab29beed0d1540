/** Two runs of H.264 packets from an empty buffer of four slots: one hands out a keyframe without the packets before a gap in
    it, the other takes one packet for another. */
module H264Shortfalls {
  import opened SequenceNumbers
  import opened RingArithmetic
  import opened MissingPackets
  import opened Options
  import opened PacketRing
  import opened RingSearch
  import opened SearchAgrees
  import opened H264Search
  import Model = PacketBufferModel
  import opened PacketBufferRuns
  import opened PacketBufferShortfalls

  type State = Model.State

  /** A packet of time 7 as it arrives, with one unit. */
  function H264Packet(s: SeqNum, isFirst: bool, isLast: bool, unit: Nalu): Packet {
    Packet(s, 7, isFirst, isLast, false, true, Some([unit]), false, 0, 0, [])
  }

  lemma SlotsOfFour(s: SeqNum)
    ensures Slot(s, 4) == s % 4
  {
    SlotIsModulo(s, 4);
  }

  lemma FourIsPowerOfTwo()
    ensures PowerOfTwo(4)
  {
    assert Pow2(2) == 4;
  }

  ghost predicate OfFour(st: State) {
    Model.Placed(st) && st.size == 4 && !st.cleared && !st.needsParameterSets
  }

  /** A packet that finds its slot free, and does not end a frame, is stored; it is marked if it could begin or continue one.
      Nothing behind it is marked. */
  lemma Waits(st: State, p: Packet)
    requires OfFour(st) && !p.isLast && p.isFirst && p.seqNum !in st.slots && Plus(p.seqNum, 1) !in st.slots
    requires forall e | e in st.slots :: e % 4 != p.seqNum % 4
    ensures var (st', out) := Model.InsertPacket(st, p);
            OfFour(st') && out == Model.NOTHING && st'.slots == st.slots[p.seqNum := p.(continuous := true)]
  {
    hide Spaced, Keyed, PowerOfTwo, Model.InsertPacket, Slot, UpdateMissing, Search, RingOf, StoredIn;
    FreeSlot(st, p);
    StoredKeyed(st, p);
    Model.InsertionSearches(st, p);
    Model.InsertPacketKeepsPlaced(st, p);
    Model.StoredIsPlaced(st, p);
    var m := Model.Stored(st, p).slots;
    MarksOnlyIn(m, UpdateMissing(st.window, p.seqNum).missing, p);
    assert m[p.seqNum := p.(continuous := true)] == st.slots[p.seqNum := p.(continuous := true)];
  }

  lemma MarksOnlyIn(m: Slots, missing: seq<SeqNum>, p: Packet)
    requires Keyed(m) && Spaced(m, 4) && p.seqNum in m && m[p.seqNum] == p.(continuous := false)
    requires p.isFirst && !p.isLast && Plus(p.seqNum, 1) !in m
    ensures var r := Search(RingOf(m, 4), missing, p.seqNum, 4, false);
            && r.frames == [] && !r.broken && r.missing == missing
            && StoredIn(r.ring) == m[p.seqNum := p.(continuous := true)]
  {
    hide Slot, RingOf, Search, StoredIn, Addressed, Spaced;
    RingOfIsRing(m, 4);
    MarksOnly(RingOf(m, 4), missing, p.seqNum);
  }

  lemma StoredKeyed(st: State, p: Packet)
    requires Model.Placed(st) && Model.Stores(st, p.seqNum)
    ensures Model.Stored(st, p).slots == st.slots[p.seqNum := p.(continuous := false)]
  {
  }

  lemma FreeSlot(st: State, p: Packet)
    requires OfFour(st) && p.seqNum !in st.slots && forall e | e in st.slots :: e % 4 != p.seqNum % 4
    ensures Model.Stores(st, p.seqNum) && Model.NewSize(st, p.seqNum) == 4
  {
    SlotsOfFour(p.seqNum);
    forall e | e in st.slots ensures Slot(e, 4) != Slot(p.seqNum, 4) {
      SlotsOfFour(e);
    }
  }

  /** The search at a frame start that ends no frame and has no successor. */
  lemma MarksOnly(ring: Ring, missing: seq<SeqNum>, s: SeqNum)
    requires |ring| == 4 && Addressed(ring) && InPlace(ring, s) && At(ring, s).value.isFirst && !At(ring, s).value.isLast
    requires !InPlace(ring, Plus(s, 1))
    ensures var r := Search(ring, missing, s, 4, false);
            && r.frames == [] && !r.broken && r.missing == missing
            && StoredIn(r.ring) == StoredIn(ring)[s := At(ring, s).value.(continuous := true)]
  {
    hide Slot, StoredIn, Addressed;
    MarkAgrees(ring, s);
    MarkShrinks(ring, s);
    NotInPlaceWhenMarked(ring, s, Plus(s, 1));
    StoredAt(ring, s);
    assert Iterate(ring, missing, s, false) == GoesOn(Marked(ring, s));
    assert Search(Marked(ring, s), missing, Plus(s, 1), 3, false) == Outcome(Marked(ring, s), missing, [], false);
  }

  lemma StoredAt(ring: Ring, s: SeqNum)
    requires InPlace(ring, s)
    ensures s in StoredIn(ring) && StoredIn(ring)[s] == At(ring, s).value
  {
  }

  lemma NotInPlaceWhenMarked(ring: Ring, s: SeqNum, t: SeqNum)
    requires InPlace(ring, s) && !InPlace(ring, t)
    ensures !InPlace(Marked(ring, s), t)
  {
  }

  // ----- the last packet of a frame

  /** An iteration that hands a frame out and leaves no packet behind it. */
  lemma HandsOnce(ring: Ring, missing: seq<SeqNum>, s: SeqNum, n: nat)
    requires |ring| <= 65536 && 0 < n && Potential(ring, s) && Iterate(ring, missing, s, false).Hands?
    requires !Potential(Iterate(ring, missing, s, false).ring, Plus(s, 1))
    ensures var r := Iterate(ring, missing, s, false);
            Search(ring, missing, s, n, false) == Outcome.Outcome(r.ring, EraseCompleted(missing, s), [r.frame], false)
  {
    hide Iterate, Potential, EraseCompleted;
    var r := Iterate(ring, missing, s, false);
    assert Search(r.ring, EraseCompleted(missing, s), Plus(s, 1), n - 1, false) == Outcome.Outcome(r.ring, EraseCompleted(missing, s), [], false);
  }

  /** The first iteration of the search that the insertion starts. */
  ghost function AtLast(st: State, p: Packet): Iteration
    requires Potential(RingOf(st.slots[p.seqNum := p.(continuous := false)], 4), p.seqNum)
  {
    Iterate(RingOf(st.slots[p.seqNum := p.(continuous := false)], 4), UpdateMissing(st.window, p.seqNum).missing, p.seqNum, false)
  }

  /** What an insertion comes to whose search hands one frame out. */
  lemma HandsOut(st: State, p: Packet)
    requires OfFour(st) && p.seqNum !in st.slots && forall e | e in st.slots :: e % 4 != p.seqNum % 4
    requires Potential(RingOf(st.slots[p.seqNum := p.(continuous := false)], 4), p.seqNum)
    requires AtLast(st, p).Hands? && !Potential(AtLast(st, p).ring, Plus(p.seqNum, 1))
    ensures var (st', out) := Model.InsertPacket(st, p);
            out.frames == [AtLast(st, p).frame] && st'.slots == StoredIn(AtLast(st, p).ring)
  {
    hide Spaced, Keyed, PowerOfTwo, Model.InsertPacket, Slot, UpdateMissing, RingOf, StoredIn, Iterate, Potential;
    FreeSlot(st, p);
    StoredKeyed(st, p);
    Model.InsertionSearches(st, p);
    HandsOnce(RingOf(st.slots[p.seqNum := p.(continuous := false)], 4), UpdateMissing(st.window, p.seqNum).missing, p.seqNum, 4);
  }

  /** The walk from `s` over the packet before it to an empty slot. */
  lemma WalkOfTwo(ring: Ring, s: SeqNum)
    requires 2 <= |ring| <= 65536 && At(ring, s).Some? && At(ring, s).value.nalus.Some?
    requires var b := At(ring, Plus(s, -1)); b.Some? && b.value.timestamp == At(ring, s).value.timestamp && b.value.nalus.Some?
    requires At(ring, Plus(Plus(s, -1), -1)).None?
    ensures WalkFrom(ring, s, false).Start? && WalkFrom(ring, s, false).seqNum == Plus(s, -1)
  {
    hide Slot, Absorb, At, Plus;
    var p, b := At(ring, s).value, At(ring, Plus(s, -1)).value;
    var seen := Absorb(NOTHING_SEEN, p, p.nalus.value, false);
    assert WalkBack(ring, Plus(s, -1), p.timestamp, 1, seen, false) == Start(Plus(s, -1), Absorb(seen, b, b.nalus.value, false));
  }

  // ----- a keyframe without the packets before a gap in it

  const GAP_RUN := [Insert(H264Packet(8, true, false, OtherNalu)), Insert(H264Packet(10, true, false, Idr))]

  /** Packet 9 of a frame of packets 8 to 11 is missing. */
  lemma KeyframeStep(ring: Ring, missing: seq<SeqNum>, a: Packet, c: Packet, d: Packet)
    requires ring == [Some(a), None, Some(c), Some(d)] && a.seqNum == 8 && c.seqNum == 10 && d.seqNum == 11
    requires a.timestamp == c.timestamp == d.timestamp && d.h264
    requires c.continuous && !d.isFirst && d.isLast && c.nalus == Some([Idr]) && d.nalus == Some([OtherNalu])
    ensures Potential(ring, 11)
    ensures var r := Iterate(ring, missing, 11, false);
            && r.Hands? && |r.frame| == 2 && r.frame[0].seqNum == 10 && r.frame[0].isKey && r.frame[1].seqNum == 11
            && InPlace(r.ring, 8) && At(r.ring, 8).value.timestamp == r.frame[0].timestamp && !Potential(r.ring, 12)
  {
    SlotsOfFour(8);
    SlotsOfFour(9);
    SlotsOfFour(10);
    SlotsOfFour(11);
    SlotsOfFour(12);
    hide Slot;
    var m := Marked(ring, 11);
    WalkOfTwo(m, 11);
    WalkFromSees(m, 11, false);
    assert Plus(10, 0) == 10 && Plus(10, 1) == 11;
    assert CarriesUnit(m, Plus(10, 0), Idr);
    var judged := Judged(m, 10, WalkFrom(m, 11, false).seen);
    assert Without(judged, 10, 0) == judged;
    assert Without(judged, 10, 1) == judged[2 := None];
    assert Without(judged, 10, 2) == judged[2 := None][3 := None];
  }

  lemma RingOfGap(m: Slots)
    requires Keyed(m) && Spaced(m, 4) && m.Keys == {8, 10, 11}
    ensures RingOf(m, 4) == [Some(m[8]), None, Some(m[10]), Some(m[11])]
  {
    HomesInRing(m, 4);
    SlotsOfFour(8);
    SlotsOfFour(10);
    SlotsOfFour(11);
    hide RingOf, Slot, Spaced;
    var ring := RingOf(m, 4);
    assert ring[0] == At(ring, 8) && ring[2] == At(ring, 10) && ring[3] == At(ring, 11);
  }

  lemma StartsOfFour(st: State)
    requires st == Model.Init(4, 4)
    ensures OfFour(st) && st.slots == map[]
  {
    FourIsPowerOfTwo();
  }

  lemma GapFilled(st: State)
    requires st == Model.Init(4, 4)
    ensures Model.Placed(st)
    ensures var st' := Execute(st, GAP_RUN).state;
            OfFour(st') && st'.slots == map[8 := H264Packet(8, true, false, OtherNalu).(continuous := true),
                                            10 := H264Packet(10, true, false, Idr).(continuous := true)]
  {
    hide Step, Execute, Model.InsertPacket, Accepted, Discarded;
    StartsOfFour(st);
    var a, c := H264Packet(8, true, false, OtherNalu), H264Packet(10, true, false, Idr);
    Waits(st, a);
    var st1 := Step(st, Insert(a)).0;
    StepIsInsertion(st, a);
    Waits(st1, c);
    StepIsInsertion(st1, c);
    RunOfOne(st1, Insert(c));
    RunOf(st, Insert(a), [Insert(c)]);
    assert GAP_RUN == [Insert(a)] + [Insert(c)];
  }

  lemma StepIsInsertion(st: State, p: Packet)
    requires Model.Placed(st)
    ensures Step(st, Insert(p)) == Model.InsertPacket(st, p)
  {
  }

  /** With packets 8 and 10 of a frame stored, packet 10 marked as first as well, its last packet, 11, hands out packets 10 and
      11 as a keyframe and leaves packet 8 behind. */
  lemma IncompleteKeyframe()
    ensures Model.Placed(Model.Init(4, 4)) && Model.Placed(Execute(Model.Init(4, 4), GAP_RUN).state)
    ensures var (st, out) := Model.InsertPacket(Execute(Model.Init(4, 4), GAP_RUN).state, H264Packet(11, false, true, OtherNalu));
            && |out.frames| == 1 && |out.frames[0]| == 2
            && out.frames[0][0].seqNum == 10 && out.frames[0][0].isKey && out.frames[0][1].seqNum == 11
            && 8 in st.slots && st.slots[8].timestamp == out.frames[0][0].timestamp
  {
    hide Execute, Model.InsertPacket, Iterate, Potential, RingOf, StoredIn;
    var d := H264Packet(11, false, true, OtherNalu);
    GapFilled(Model.Init(4, 4));
    var st := Execute(Model.Init(4, 4), GAP_RUN).state;
    FreeSlot(st, d);
    StoredKeyed(st, d);
    var m := st.slots[11 := d];
    assert Plus(11, 1) == 12;
    FourPlaced(st, d);
    RingOfGap(m);
    KeyframeStep(RingOf(m, 4), UpdateMissing(st.window, 11).missing, m[8], m[10], d);
    HandsOut(st, d);
    StoredAt(AtLast(st, d).ring, 8);
  }

  lemma FourPlaced(st: State, p: Packet)
    requires OfFour(st) && Model.Stores(st, p.seqNum) && Model.NewSize(st, p.seqNum) == 4 && !p.continuous
    ensures var m := st.slots[p.seqNum := p]; Keyed(m) && Spaced(m, 4)
  {
    Model.StoredIsPlaced(st, p);
    StoredKeyed(st, p);
  }

  // ----- one packet taken for another

  const ROUND_RUN := [Insert(H264Packet(8, true, false, Idr))]

  /** Packet 8 has the slot of packet 4. */
  lemma RoundStep(ring: Ring, missing: seq<SeqNum>, a: Packet, b: Packet)
    requires ring == [Some(a), Some(b), None, None] && a.seqNum == 8 && b.seqNum == 5 && a.timestamp == b.timestamp && b.h264
    requires b.isFirst && b.isLast && a.nalus == Some([Idr]) && b.nalus == Some([OtherNalu])
    ensures Potential(ring, 5)
    ensures var r := Iterate(ring, missing, 5, false);
            && r.Hands? && |r.frame| == 2 && r.frame[0].seqNum == 8 && r.frame[1].seqNum == 5 && !Potential(r.ring, 6)
  {
    SlotsOfFour(3);
    SlotsOfFour(4);
    SlotsOfFour(5);
    SlotsOfFour(6);
    SlotsOfFour(8);
    hide Slot;
    var m := Marked(ring, 5);
    WalkOfTwo(m, 5);
    WalkFromSees(m, 5, false);
    assert Plus(4, 0) == 4 && Plus(4, 1) == 5;
    assert CarriesUnit(m, Plus(4, 0), Idr);
    var judged := Judged(m, 4, WalkFrom(m, 5, false).seen);
    assert Without(judged, 4, 0) == judged;
    assert Without(judged, 4, 1) == judged[0 := None];
    assert Without(judged, 4, 2) == judged[0 := None][1 := None];
  }

  lemma RingOfRound(m: Slots)
    requires Keyed(m) && Spaced(m, 4) && m.Keys == {8, 5}
    ensures RingOf(m, 4) == [Some(m[8]), Some(m[5]), None, None]
  {
    HomesInRing(m, 4);
    SlotsOfFour(8);
    SlotsOfFour(5);
    hide RingOf, Slot, Spaced;
    var ring := RingOf(m, 4);
    assert ring[0] == At(ring, 8) && ring[1] == At(ring, 5);
  }

  /** With packet 8 stored, packet 5, which is a whole frame of the same time, is handed out behind packet 8, which is taken
      for packet 4. */
  lemma WrongPacketHandedOut()
    ensures Model.Placed(Model.Init(4, 4)) && Model.Placed(Execute(Model.Init(4, 4), ROUND_RUN).state)
    ensures var out := Model.InsertPacket(Execute(Model.Init(4, 4), ROUND_RUN).state, H264Packet(5, true, true, OtherNalu)).1;
            |out.frames| == 1 && |out.frames[0]| == 2 && out.frames[0][0].seqNum == 8 && out.frames[0][1].seqNum == 5
  {
    hide Execute, Step, Model.InsertPacket, Iterate, Potential, RingOf, StoredIn, Accepted, Discarded;
    var a, b := H264Packet(8, true, false, Idr), H264Packet(5, true, true, OtherNalu);
    var st0 := Model.Init(4, 4);
    StartsOfFour(st0);
    Waits(st0, a);
    StepIsInsertion(st0, a);
    RunOfOne(st0, Insert(a));
    var st := Execute(st0, ROUND_RUN).state;
    FreeSlot(st, b);
    var m := st.slots[5 := b];
    assert Plus(5, 1) == 6;
    FourPlaced(st, b);
    RingOfRound(m);
    RoundStep(RingOf(m, 4), UpdateMissing(st.window, 5).missing, m[8], b);
    HandsOut(st, b);
  }
}
