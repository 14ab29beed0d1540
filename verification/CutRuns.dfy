/** Runs of the packet buffer in which `ClearTo` cuts a partly received frame and its last packet arrives later: the search
    reads an empty slot, or takes a packet of another frame for the one that is gone. */
module CutRuns {
  import opened SequenceNumbers
  import opened RingArithmetic
  import opened MissingPackets
  import opened Options
  import opened PacketRing
  import RingSearch
  import opened FrameAssembly
  import opened SearchAgrees
  import opened CutFrames
  import opened PacketBufferModel
  import opened PacketBufferRuns
  import opened PacketBufferShortfalls

  /** The packet that ends the frame that begins with packet `b`. */
  function Last(s: SeqNum, b: SeqNum): Packet {
    PacketOf(s, b, false, true)
  }

  /** The ring in which the search finds the packet: as stored, with its packet marked. */
  ghost function Searched(m: Slots, size: nat, s: SeqNum): Ring
    requires size > 0 && Keyed(m) && Spaced(m, size) && s in m
  {
    RingOfIsRing(m, size);
    RingSearch.Marked(RingOf(m, size), s)
  }

  lemma SearchedHolds(m: Slots, size: nat, s: SeqNum, t: SeqNum)
    requires size > 0 && Keyed(m) && Spaced(m, size) && s in m
    ensures |Searched(m, size, s)| == size
    ensures t in m ==> At(Searched(m, size, s), t) == Some(if t == s then m[t].(continuous := true) else m[t])
    ensures (forall e | e in m :: Slot(e, size) != Slot(t, size)) ==> At(Searched(m, size, s), t).None?
    ensures forall e | e in m && e != s && Slot(e, size) == Slot(t, size) :: At(Searched(m, size, s), t) == Some(m[e])
  {
    RingOfIsRing(m, size);
    var ring := RingOf(m, size);
    if At(ring, t).Some? {
      assert InPlace(ring, At(ring, t).value.seqNum);
    }
    hide RingOf;
    forall e | e in m && e != s && Slot(e, size) == Slot(t, size) ensures At(Searched(m, size, s), t) == Some(m[e]) {
      assert At(ring, e) == Some(m[e]);
    }
  }

  /** The search for a last packet that finds its place begins with the walk back from it. */
  lemma SearchWalks(st: State, p: Packet)
    requires Placed(st) && Stores(st, p.seqNum) && !p.h264 && p.isLast
    requires PotentialNewFrame(Stored(st, p).slots, p.seqNum)
    ensures var m, s, size := Stored(st, p).slots, p.seqNum, NewSize(st, p.seqNum);
            && 0 < size <= 65536 && Keyed(m) && Spaced(m, size)
            && var ring := Searched(m, size, s);
               |ring| == size && At(ring, s).Some? &&
               var w, out := RingSearch.FirstFrom(ring, s), InsertPacket(st, p).1;
               && (w.MeetsEmpty? ==> out.broken)
               && (w.Begins? ==> out.frames != [] && RingSearch.HandOut(ring, w.seqNum, s).frame == out.frames[0])
  {
    hide Plain, Occupied, Grow, UpdateMissing, RingOf, RingSearch.FirstFrom, RingSearch.HandOut, StoredIn, Slot, Spaced;
    InsertionSearches(st, p);
    StoredIsPlaced(st, p);
    var m, s, size := Stored(st, p).slots, p.seqNum, NewSize(st, p.seqNum);
    RingOfIsRing(m, size);
    PotentialAgrees(RingOf(m, size), s);
    SearchedHolds(m, size, s, s);
    FirstIteration(RingOf(m, size), UpdateMissing(st.window, s).missing, s, size, st.needsParameterSets);
  }

  lemma FirstIteration(ring: Ring, missing: seq<SeqNum>, s: SeqNum, n: nat, needsParameterSets: bool)
    requires 0 < n && |ring| <= 65536 && RingSearch.Potential(ring, s) && At(ring, s).value.isLast && !At(ring, s).value.h264
    ensures var marked := RingSearch.Marked(ring, s);
            At(marked, s).Some? &&
            var w, r := RingSearch.FirstFrom(marked, s), RingSearch.Search(ring, missing, s, n, needsParameterSets);
            && (w.MeetsEmpty? ==> r.broken)
            && (w.Begins? ==> r.frames != [] && r.frames[0] == RingSearch.HandOut(marked, w.seqNum, s).frame)
  {
    RingSearch.MarkShrinks(ring, s);
    hide RingSearch.FirstFrom, RingSearch.HandOut, Slot, Shrunk, EraseCompleted;
  }

  lemma BackSteps(s: SeqNum, k: nat)
    requires k < 65536
    ensures ForwardDiff(Back(s, k), s) == k && Plus(Back(s, k), 0) == Back(s, k)
  {
  }

  /** The slot that the walk back comes to after `k` packets is empty. */
  ghost predicate GapBehind(m: Slots, s: SeqNum, size: nat, k: nat)
    requires size > 0
  {
    InnerFor(m, s, k) && forall e | e in m :: Slot(e, size) != Slot(Back(s, k), size)
  }

  /** It holds packet `e`, a frame start, whatever number the slot was for. */
  ghost predicate StartBehind(m: Slots, s: SeqNum, size: nat, k: nat, e: SeqNum)
    requires size > 0
  {
    InnerFor(m, s, k) && e in m && e != s && m[e].isFirst && Slot(e, size) == Slot(Back(s, k), size)
  }

  ghost predicate InnerFor(m: Slots, s: SeqNum, k: nat) {
    forall j: nat | j < k :: Back(s, j) in m && !m[Back(s, j)].isFirst
  }

  lemma ReadsEmptySlot(st: State, p: Packet, k: nat)
    requires Placed(st) && Stores(st, p.seqNum) && !p.h264 && p.isLast && NewSize(st, p.seqNum) > 0
    requires PotentialNewFrame(Stored(st, p).slots, p.seqNum)
    requires k < NewSize(st, p.seqNum) && GapBehind(Stored(st, p).slots, p.seqNum, NewSize(st, p.seqNum), k)
    ensures InsertPacket(st, p).1.broken
  {
    hide Stores, Plain, Grow, UpdateMissing, RingSearch.FirstFrom, Slot, Spaced, Keyed, PotentialNewFrame, InsertPacket, Searched, Back, At;
    SearchWalks(st, p);
    var m, s, size := Stored(st, p).slots, p.seqNum, NewSize(st, p.seqNum);
    var ring := Searched(m, size, s);
    SearchedHolds(m, size, s, Back(s, k));
    forall j: nat | j < k ensures At(ring, Back(s, j)).Some? && !At(ring, Back(s, j)).value.isFirst {
      SearchedHolds(m, size, s, Back(s, j));
    }
    assert EmptyBehind(ring, s, k);
    MeetsEmptyIff(ring, s);
  }

  lemma TakesForeign(st: State, p: Packet, k: nat, e: SeqNum)
    requires Placed(st) && Stores(st, p.seqNum) && !p.h264 && p.isLast && NewSize(st, p.seqNum) > 0
    requires PotentialNewFrame(Stored(st, p).slots, p.seqNum)
    requires k < NewSize(st, p.seqNum) && StartBehind(Stored(st, p).slots, p.seqNum, NewSize(st, p.seqNum), k, e)
    ensures var out := InsertPacket(st, p).1; out.frames != [] && out.frames[0] != [] && out.frames[0][0].seqNum == e
  {
    hide Stores, Plain, Grow, UpdateMissing, RingSearch.FirstFrom, Slot, Spaced, PotentialNewFrame, InsertPacket, Searched, Back, At, Plus, ForwardDiff;
    SearchWalks(st, p);
    var m, s, size := Stored(st, p).slots, p.seqNum, NewSize(st, p.seqNum);
    var ring := Searched(m, size, s);
    SearchedHolds(m, size, s, Back(s, k));
    forall j: nat | j <= k ensures At(ring, Back(s, j)).Some? && (At(ring, Back(s, j)).value.isFirst <==> j == k) {
      SearchedHolds(m, size, s, Back(s, j));
    }
    WalkEndsAt(ring, s, k);
    BackSteps(s, k);
  }

  // ----- the runs

  /** Packets 10 and 11 of a frame, and ClearTo(10). */
  const CUT_RUN := [Insert(Begin(10)), Insert(Middle(11, 10)), ClearUpTo(10)]

  /** And packet 1034, which takes the slot of packet 10. */
  const FOREIGN_RUN := [Insert(Begin(10)), Insert(Middle(11, 10)), ClearUpTo(10), Insert(Begin(1034))]

  lemma RunsInSteps()
    ensures CUT_RUN == [Insert(Begin(10))] + ([Insert(Middle(11, 10))] + [ClearUpTo(10)])
    ensures FOREIGN_RUN == [Insert(Begin(10))] + ([Insert(Middle(11, 10))] + ([ClearUpTo(10)] + [Insert(Begin(1034))]))
  {
  }

  /** Only packet `b` is left, marked, of the frame that began with `a`. */
  ghost predicate CutOff(st: State, a: SeqNum, b: SeqNum) {
    && Valid(st) && st.received && st.cleared && st.first == b && st.size == 1024
    && st.slots == map[b := Middle(b, a).(continuous := true)]
  }

  lemma Cutting(st: State, a: SeqNum, b: SeqNum)
    requires Uncut(st) && st.received && !st.cleared && st.first == a && st.size == 1024 && a == 10 && b == 11
    requires st.slots == map[a := Begin(a).(continuous := true), b := Middle(b, a).(continuous := true)]
    ensures Safe(st, ClearUpTo(a)) && CutOff(Step(st, ClearUpTo(a)).0, a, b)
  {
    hide Spaced, Keyed, Plain, Closed, NoneH264, Sound, PowerOfTwo, Slot;
    SplitStep(st, a, b);
    ClearToKeepsValid(st, a);
    assert ClearTo(st, a).slots == map[b := Middle(b, a).(continuous := true)];
  }

  lemma LastBreaks(st: State, a: SeqNum, b: SeqNum, c: SeqNum)
    requires CutOff(st, a, b) && a == 10 && b == 11 && c == 12
    ensures InsertPacket(st, Last(c, a)).1.broken
  {
    hide Plain, Closed, NoneH264, Spaced, Keyed, InsertPacket, UpdateMissing, NewSize, Slot;
    StoresFree(st, c);
    NothingBehind(Stored(st, Last(c, a)).slots, a, b, c);
    hide PotentialNewFrame, GapBehind, CutOff;
    ReadsEmptySlot(st, Last(c, a), 2);
  }

  lemma NothingBehind(m: Slots, a: SeqNum, b: SeqNum, c: SeqNum)
    requires a == 10 && b == 11 && c == 12
    requires m == map[b := Middle(b, a).(continuous := true), c := Last(c, a)]
    ensures PotentialNewFrame(m, c) && GapBehind(m, c, 1024, 2)
  {
    assert Back(c, 0) == c && Back(c, 1) == b && Back(c, 2) == a;
    SlotIsModulo(a, 1024);
    SlotIsModulo(b, 1024);
    SlotIsModulo(c, 1024);
    hide Slot;
  }

  /** A frame start completes no cut frame. */
  lemma BeginIsNotCut(st: State, p: Packet)
    requires Placed(st) && p.isFirst
    ensures !CompletesCutFrame(st, p)
  {
    if Stores(st, p.seqNum) {
      StartsItsRun(Stored(st, p).slots, p.seqNum);
      RunNeverCut(Stored(st, p).slots, p.seqNum, NewSize(st, p.seqNum));
    }
  }

  lemma SlotTaken(st: State, a: SeqNum, b: SeqNum, d: SeqNum)
    requires CutOff(st, a, b) && a == 10 && b == 11 && d == 1034
    ensures Safe(st, Insert(Begin(d)))
    ensures var st' := Step(st, Insert(Begin(d))).0;
            && Valid(st') && st'.received && st'.cleared && st'.first == b && st'.size == 1024
            && st'.slots == map[b := Middle(b, a).(continuous := true), d := Begin(d).(continuous := true)]
  {
    hide Plain, Closed, NoneH264, Spaced, Keyed, InsertPacket, UpdateMissing, NewSize, Slot, CompletesCut;
    StoresFree(st, d);
    BeginIsNotCut(st, Begin(d));
    InsertionContinues(st, Begin(d));
    InsertPacketKeepsValid(st, Begin(d));
  }

  lemma LastTakesForeign(st: State, a: SeqNum, b: SeqNum, c: SeqNum, d: SeqNum)
    requires Valid(st) && st.received && st.cleared && st.first == b && st.size == 1024 && a == 10 && b == 11 && c == 12 && d == 1034
    requires st.slots == map[b := Middle(b, a).(continuous := true), d := Begin(d).(continuous := true)]
    ensures var out := InsertPacket(st, Last(c, a)).1; out.frames != [] && out.frames[0] != [] && out.frames[0][0].seqNum == d
  {
    hide Plain, Closed, NoneH264, Spaced, Keyed, InsertPacket, UpdateMissing, NewSize, Slot, PowerOfTwo;
    StoresFree(st, c);
    LastBehind(Stored(st, Last(c, a)).slots, a, b, c, d);
    hide PotentialNewFrame, StartBehind;
    TakesForeign(st, Last(c, a), 2, d);
  }

  lemma LastBehind(m: Slots, a: SeqNum, b: SeqNum, c: SeqNum, d: SeqNum)
    requires a == 10 && b == 11 && c == 12 && d == 1034
    requires m == map[b := Middle(b, a).(continuous := true), d := Begin(d).(continuous := true), c := Last(c, a)]
    ensures PotentialNewFrame(m, c) && StartBehind(m, c, 1024, 2, d)
  {
    assert Back(c, 0) == c && Back(c, 1) == b && Back(c, 2) == a;
    SlotIsModulo(d, 1024);
    SlotIsModulo(a, 1024);
    hide Slot;
  }

  lemma CutRunLeads() returns (st: State)
    ensures Placed(Init(1024, 1024)) && SafeRun(Init(1024, 1024), CUT_RUN)
    ensures st == Execute(Init(1024, 1024), CUT_RUN).state && CutOff(st, 10, 11)
    ensures SafeRun(Init(1024, 1024), FOREIGN_RUN) <==> SafeRun(st, [Insert(Begin(1034))])
    ensures Execute(Init(1024, 1024), FOREIGN_RUN).state == Execute(st, [Insert(Begin(1034))]).state
  {
    hide Step, Execute, SafeRun, Safe, InsertPacket, ClearTo, UpdateMissing, Placed, Plain, Closed, NoneH264, Sound, Init, Plus;
    RunsInSteps();
    var st0 := Init(1024, 1024);
    FrameBegun(st0, 10);
    var st1 := Step(st0, Insert(Begin(10))).0;
    FrameContinued(st1, 10, 11);
    var st2 := Step(st1, Insert(Middle(11, 10))).0;
    Cutting(st2, 10, 11);
    st := Step(st2, ClearUpTo(10)).0;
    RunOfOne(st2, ClearUpTo(10));
    RunOf(st2, ClearUpTo(10), [Insert(Begin(1034))]);
    RunOf(st1, Insert(Middle(11, 10)), [ClearUpTo(10)]);
    RunOf(st1, Insert(Middle(11, 10)), [ClearUpTo(10)] + [Insert(Begin(1034))]);
    RunOf(st0, Insert(Begin(10)), [Insert(Middle(11, 10))] + [ClearUpTo(10)]);
    RunOf(st0, Insert(Begin(10)), [Insert(Middle(11, 10))] + ([ClearUpTo(10)] + [Insert(Begin(1034))]));
  }

  /** After packets 10 and 11 of a frame and ClearTo(10), the last packet of the frame, 12, makes the search read the empty
      slot of packet 10. */
  lemma EmptySlotIsRead(ops: seq<Op>)
    requires ops == CUT_RUN
    ensures Placed(Init(1024, 1024)) && SafeRun(Init(1024, 1024), ops)
    ensures var st := Execute(Init(1024, 1024), ops).state;
            Placed(st) && CompletesCutFrame(st, Last(12, 10)) && InsertPacket(st, Last(12, 10)).1.broken
  {
    hide Step, Execute, SafeRun, InsertPacket, Placed, Plain, Closed, NoneH264, CompletesCutFrame;
    var st := CutRunLeads();
    LastBreaks(st, 10, 11, 12);
    InsertPacketKeepsValid(st, Last(12, 10));
  }

  /** The first frame that the insertion hands out begins with packet `d`. */
  ghost predicate HandsOutFirst(st: State, p: Packet, d: SeqNum) {
    Placed(st) && var out := InsertPacket(st, p).1; out.frames != [] && out.frames[0] != [] && out.frames[0][0].seqNum == d
  }

  /** If packet 1034 has taken that slot meanwhile, it is handed out as the first packet of the frame. */
  lemma ForeignPacketIsHandedOut(ops: seq<Op>)
    requires ops == FOREIGN_RUN
    ensures Placed(Init(1024, 1024)) && SafeRun(Init(1024, 1024), ops)
    ensures HandsOutFirst(Execute(Init(1024, 1024), ops).state, Last(12, 10), 1034)
  {
    hide Step, Execute, SafeRun, InsertPacket, Placed, Plain, Closed, NoneH264, Safe;
    var st := CutRunLeads();
    SlotTaken(st, 10, 11, 1034);
    RunOfOne(st, Insert(Begin(1034)));
    LastTakesForeign(Step(st, Insert(Begin(1034))).0, 10, 11, 12, 1034);
  }
}
