/** The packet buffer over runs of H.264 packets: exactly when every frame handed out is whole, what is then decided about
    the frames, and a condition on the numbers inserted under which it is so. */
module H264Runs {
  import opened SequenceNumbers
  import opened RingArithmetic
  import opened MissingPackets
  import opened PacketRing
  import opened RingSearch
  import opened H264Search
  import Model = PacketBufferModel
  import opened PacketBufferRuns

  type State = Model.State

  ghost predicate H264Slots(m: Slots) {
    forall s | s in m :: m[s].h264
  }

  predicate OfH264(op: Op) {
    op.Insert? ==> op.packet.h264
  }

  /** The search that the operation starts hands out an H.264 frame with something foreign behind its last packet. */
  ghost predicate TakesForeignAt(st: State, op: Op)
    requires Model.Placed(st)
  {
    match op
    case Insert(p) =>
      Model.Stores(st, p.seqNum) &&
      var st1 := Model.Stored(st, p);
      PowerOfTwoBounds(st1.size);
      TakesForeign(RingOf(st1.slots, st1.size), st1.window.missing, p.seqNum, st1.size, st.needsParameterSets)
    case Padding(s) =>
      PowerOfTwoBounds(st.size);
      TakesForeign(RingOf(st.slots, st.size), UpdateMissing(st.window, s).missing, Plus(s, 1), st.size, st.needsParameterSets)
    case _ => false
  }

  lemma RingIsH264(m: Slots, size: nat)
    requires size > 0 && H264Slots(m)
    ensures AllH264(RingOf(m, size))
  {
    var ring := RingOf(m, size);
    forall i | 0 <= i < size && ring[i].Some? ensures ring[i].value.h264 {
      var e :| HomeOf(m, size, i, e);
    }
  }

  lemma SearchIsWholeIff(st: State, s: SeqNum)
    requires 0 < st.size <= 65536 && H264Slots(st.slots)
    ensures var out := Model.Search(st, s).1;
            && !out.broken
            && ((forall f | f in out.frames :: IsWholeFrame(f))
                <==> !TakesForeign(RingOf(st.slots, st.size), st.window.missing, s, st.size, st.needsParameterSets))
  {
    hide TakesForeign, Search, RingOf, IsWholeFrame, StoredIn;
    RingIsH264(st.slots, st.size);
    SearchIsSoundIff(RingOf(st.slots, st.size), st.window.missing, s, st.size, st.needsParameterSets);
  }

  lemma StepIsWholeIff(st: State, op: Op)
    requires Model.Placed(st) && H264Slots(st.slots) && OfH264(op)
    ensures var (st', out) := Step(st, op);
            && !out.broken && ((forall f | f in out.frames :: IsWholeFrame(f)) <==> !TakesForeignAt(st, op))
            && H264Slots(st'.slots)
  {
    hide TakesForeign, Model.Search, RingOf, IsWholeFrame, Model.Occupied, UpdateMissing, Spaced, Keyed, Model.Grow;
    match op
    case Insert(p) =>
      Model.InsertPacketKeepsPlaced(st, p);
      Model.InsertPacketCases(st, p);
      if Model.Stores(st, p.seqNum) {
        Model.InsertionSearches(st, p);
        SearchIsWholeIff(Model.Stored(st, p).(first := Model.NewFirst(st, p.seqNum), received := true), p.seqNum);
      }
    case Padding(s) =>
      PowerOfTwoBounds(st.size);
      Model.SearchKeepsPlaced(st.(window := UpdateMissing(st.window, s)), Plus(s, 1));
      SearchIsWholeIff(st.(window := UpdateMissing(st.window, s)), Plus(s, 1));
    case Clear =>
    case ClearUpTo(s) =>
  }

  ghost predicate RunTakesForeign(st: State, ops: seq<Op>)
    requires Model.Placed(st)
    decreases |ops|
  {
    ops != [] && (TakesForeignAt(st, ops[0]) || (StepKeepsPlaced(st, ops[0]); RunTakesForeign(Step(st, ops[0]).0, ops[1..])))
  }

  /** Over every run of H.264 packets every frame handed out is whole exactly if no search takes anything foreign. */
  lemma {:induction false} H264RunIsSoundIff(st: State, ops: seq<Op>)
    requires Model.Placed(st) && H264Slots(st.slots) && forall op | op in ops :: OfH264(op)
    ensures (forall f | f in Execute(st, ops).frames :: IsWholeFrame(f)) <==> !RunTakesForeign(st, ops)
    decreases |ops|
  {
    hide Model.Placed, Step, TakesForeignAt, IsWholeFrame, Accepted, Discarded;
    if ops != [] {
      StepKeepsPlaced(st, ops[0]);
      StepIsWholeIff(st, ops[0]);
      H264RunIsSoundIff(Step(st, ops[0]).0, ops[1..]);
    }
  }

  // ----- what is decided about the frames

  /** What is missing when the operation starts its search. */
  ghost function MissingAt(st: State, op: Op): seq<SeqNum> {
    if op.Insert? then UpdateMissing(st.window, op.packet.seqNum).missing
    else if op.Padding? then UpdateMissing(st.window, op.seqNum).missing
    else []
  }

  lemma SearchedIsDecided(st: State, s: SeqNum)
    requires 0 < st.size <= 65536 && H264Slots(st.slots)
    ensures var frames := Model.Search(st, s).1.frames;
            (forall f | f in frames :: IsWholeFrame(f)) ==> AllDecided(frames, st.window.missing, st.needsParameterSets)
  {
    hide Search, RingOf, IsWholeFrame, StoredIn, AllDecided;
    RingIsH264(st.slots, st.size);
    SearchDecides(RingOf(st.slots, st.size), st.window.missing, s, st.size, st.needsParameterSets);
  }

  lemma StepDecides(st: State, op: Op)
    requires Model.Placed(st) && H264Slots(st.slots) && OfH264(op) && !TakesForeignAt(st, op)
    ensures AllDecided(Step(st, op).1.frames, MissingAt(st, op), st.needsParameterSets)
  {
    hide TakesForeignAt, Model.Search, IsWholeFrame, Model.Occupied, UpdateMissing, Spaced, Keyed, Model.Grow, Decided;
    StepIsWholeIff(st, op);
    PowerOfTwoBounds(st.size);
    match op
    case Insert(p) =>
      Model.InsertPacketCases(st, p);
      if Model.Stores(st, p.seqNum) {
        Model.InsertionSearches(st, p);
        SearchedIsDecided(Model.Stored(st, p).(first := Model.NewFirst(st, p.seqNum), received := true), p.seqNum);
      }
    case Padding(s) =>
      SearchedIsDecided(st.(window := UpdateMissing(st.window, s)), Plus(s, 1));
    case _ =>
  }

  /** At every step of the run keyframes are those with a key picture, and no delta frame overtakes a missing packet. */
  ghost predicate RunDecides(st: State, ops: seq<Op>)
    requires Model.Placed(st)
    decreases |ops|
  {
    ops == []
    || (&& AllDecided(Step(st, ops[0]).1.frames, MissingAt(st, ops[0]), st.needsParameterSets)
        && (StepKeepsPlaced(st, ops[0]); RunDecides(Step(st, ops[0]).0, ops[1..])))
  }

  lemma {:induction false} H264RunDecides(st: State, ops: seq<Op>)
    requires Model.Placed(st) && H264Slots(st.slots) && !RunTakesForeign(st, ops) && forall op | op in ops :: OfH264(op)
    ensures RunDecides(st, ops)
    decreases |ops|
  {
    hide Model.Placed, Step, TakesForeignAt, IsWholeFrame, AllDecided, H264Slots, MissingAt;
    if ops != [] {
      StepKeepsPlaced(st, ops[0]);
      StepIsWholeIff(st, ops[0]);
      StepDecides(st, ops[0]);
      H264RunDecides(Step(st, ops[0]).0, ops[1..]);
    }
  }

  // ----- a condition on the numbers inserted

  /** Packets of one time lie within fewer numbers than there are slots. */
  ghost predicate NearTogether(m: Slots, size: nat) {
    forall p, q | p in m && q in m && p != q && m[p].timestamp == m[q].timestamp :: Near(p, q, size)
  }

  lemma RingSpansLess(m: Slots, size: nat)
    requires size > 0 && Keyed(m) && Spaced(m, size) && NearTogether(m, size)
    ensures SpansLess(RingOf(m, size))
  {
    RingOfIsRing(m, size);
    var ring := RingOf(m, size);
    hide RingOf, Near, Slot;
    forall i, j | 0 <= i < j < size && ring[i].Some? && ring[j].Some? && ring[i].value.timestamp == ring[j].value.timestamp
      ensures Near(ring[i].value.seqNum, ring[j].value.seqNum, size)
    {
      var p, q := ring[i].value.seqNum, ring[j].value.seqNum;
      assert InPlace(ring, p) && InPlace(ring, q);
    }
  }

  /** The packet is one of those the operations insert. */
  ghost predicate InsertedBy(ops: seq<Op>, s: SeqNum, timestamp: int) {
    exists op :: op in ops && op.Insert? && op.packet.seqNum == s && op.packet.timestamp == timestamp
  }

  /** Any two packets of one time that the operations insert lie within fewer numbers than there are slots. */
  ghost predicate ShortFrames(ops: seq<Op>, size: nat) {
    forall p, q, timestamp | InsertedBy(ops, p, timestamp) && InsertedBy(ops, q, timestamp) && p != q :: Near(p, q, size)
  }

  /** What is stored has been inserted. */
  ghost predicate StoredByRun(st: State, all: seq<Op>, size: nat) {
    Model.Placed(st) && size <= st.size && forall s | s in st.slots :: InsertedBy(all, s, st.slots[s].timestamp)
  }

  lemma ShortIsNear(m: Slots, all: seq<Op>, size: nat, larger: nat)
    requires ShortFrames(all, size) && size <= larger && forall s | s in m :: InsertedBy(all, s, m[s].timestamp)
    ensures NearTogether(m, larger)
  {
    hide InsertedBy;
  }

  lemma ShortTakesNothingForeign(st: State, op: Op, all: seq<Op>, size: nat)
    requires StoredByRun(st, all, size) && ShortFrames(all, size) && op in all
    ensures !TakesForeignAt(st, op)
  {
    hide ShortFrames, TakesForeign, RingOf, InsertedBy, UpdateMissing, Spaced, Keyed, Model.Grow, Model.Occupied, PowerOfTwo, NearTogether, Addressed;
    match op
    case Insert(p) =>
      if Model.Stores(st, p.seqNum) {
        Model.StoredIsPlaced(st, p);
        var st1 := Model.Stored(st, p);
        assert InsertedBy(all, p.seqNum, p.timestamp) by {
          InsertsIts(all, op);
        }
        PowerOfTwoBounds(st1.size);
        ShortIsNear(st1.slots, all, size, st1.size);
        RingOfIsRing(st1.slots, st1.size);
        RingSpansLess(st1.slots, st1.size);
        SearchIsSound(RingOf(st1.slots, st1.size), st1.window.missing, p.seqNum, st1.size, st.needsParameterSets);
      }
    case Padding(s) =>
      PowerOfTwoBounds(st.size);
      ShortIsNear(st.slots, all, size, st.size);
      RingOfIsRing(st.slots, st.size);
      RingSpansLess(st.slots, st.size);
      SearchIsSound(RingOf(st.slots, st.size), UpdateMissing(st.window, s).missing, Plus(s, 1), st.size, st.needsParameterSets);
    case _ =>
  }

  lemma InsertsIts(all: seq<Op>, op: Op)
    requires op in all && op.Insert?
    ensures InsertedBy(all, op.packet.seqNum, op.packet.timestamp)
  {
  }

  lemma StepStores(st: State, op: Op, all: seq<Op>, size: nat)
    requires StoredByRun(st, all, size) && op in all
    ensures StoredByRun(Step(st, op).0, all, size)
  {
    hide InsertedBy, UpdateMissing, Spaced, Keyed, PowerOfTwo, Model.Search, Model.Occupied, Model.InsertPacket;
    StepKeepsPlaced(st, op);
    match op
    case Insert(p) =>
      Model.InsertPacketKeepsPlaced(st, p);
      RingNeverShrinks(st, p);
      InsertsIts(all, op);
    case Padding(s) =>
      PowerOfTwoBounds(st.size);
      Model.SearchKeepsPlaced(st.(window := UpdateMissing(st.window, s)), Plus(s, 1));
    case Clear =>
    case ClearUpTo(s) =>
  }

  lemma RingNeverShrinks(st: State, p: Packet)
    requires Model.Placed(st)
    ensures st.size <= Model.InsertPacket(st, p).0.size
  {
    hide UpdateMissing, Spaced, Keyed, PowerOfTwo, Model.Search, Model.Occupied, Model.InsertPacket;
    Model.InsertPacketCases(st, p);
    if Model.Stores(st, p.seqNum) {
      Model.InsertionSearches(st, p);
      Model.StoredIsPlaced(st, p);
      Model.SearchKeepsPlaced(Model.Stored(st, p).(first := Model.NewFirst(st, p.seqNum), received := true), p.seqNum);
    }
  }

  lemma {:induction false} ShortRunTakesNothingForeign(st: State, ops: seq<Op>, all: seq<Op>, size: nat)
    requires StoredByRun(st, all, size) && ShortFrames(all, size) && forall op | op in ops :: op in all
    ensures !RunTakesForeign(st, ops)
    decreases |ops|
  {
    hide Step, TakesForeignAt, ShortFrames;
    if ops != [] {
      StepKeepsPlaced(st, ops[0]);
      ShortTakesNothingForeign(st, ops[0], all, size);
      StepStores(st, ops[0], all, size);
      ShortRunTakesNothingForeign(Step(st, ops[0]).0, ops[1..], all, size);
    }
  }

  /** From an empty buffer: if any two packets of one time that are inserted lie within fewer numbers than the ring has slots
      at first, every H.264 frame handed out is whole and rightly decided, whatever else is called. */
  lemma H264RunIsSound(size: nat, maxSize: nat, ops: seq<Op>)
    requires Model.ValidSizes(size, maxSize) && ShortFrames(ops, size) && forall op | op in ops :: OfH264(op)
    ensures Model.Placed(Model.Init(size, maxSize))
    ensures forall f | f in Execute(Model.Init(size, maxSize), ops).frames :: IsWholeFrame(f)
    ensures RunDecides(Model.Init(size, maxSize), ops)
  {
    hide ShortFrames, RunTakesForeign, RunDecides, Execute, IsWholeFrame;
    ShortRunTakesNothingForeign(Model.Init(size, maxSize), ops, ops, size);
    H264RunIsSoundIff(Model.Init(size, maxSize), ops);
    H264RunDecides(Model.Init(size, maxSize), ops);
  }
}
