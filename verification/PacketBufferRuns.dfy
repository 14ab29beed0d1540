/** Properties of the packet buffer over every run of its public operations. */
module PacketBufferRuns {
  import opened SequenceNumbers
  import opened RingArithmetic
  import opened FrameAssembly
  import opened MissingPackets
  import opened PacketRing
  import RingSearch
  import opened SearchAgrees
  import opened CutFrames
  import opened PacketBufferModel
  import opened Options

  // ----- ClearTo

  /** Some packet that stays would lose the packet before it in its frame. */
  ghost predicate SplitsFrame(m: Slots, removed: set<SeqNum>) {
    exists t :: t in m && t !in removed && m[t].continuous && !m[t].isFirst && Plus(t, -1) in removed
  }

  /** Removing packets leaves every continuous packet reached by a run exactly when it splits no partly received frame. */
  lemma RemovalKeepsSound(m: Slots, removed: set<SeqNum>)
    requires Sound(m) && removed <= m.Keys
    ensures Sound(m - removed) <==> !SplitsFrame(m, removed)
  {
    var m' := m - removed;
    if SplitsFrame(m, removed) {
      var t :| t in m && t !in removed && m[t].continuous && !m[t].isFirst && Plus(t, -1) in removed;
      assert !HasRun(m', t) by {
        forall b: SeqNum, n: nat | Plus(b, n - 1) == t ensures !Run(m', b, n) {
          NoRunWithoutPredecessor(m', t, b, n);
        }
      }
    } else {
      forall t | t in m' && m'[t].continuous ensures HasRun(m', t) {
        var (b, n) := RunTo(m, t);
        RunSurvives(m, removed, b, n);
      }
    }
  }

  lemma RemovalKeepsValid(st: State, removed: set<SeqNum>)
    requires Valid(st)
    ensures var m' := st.slots - removed; Closed(m') && Plain(m') && Spaced(m', st.size) && NoneH264(m')
  {
    var m, m' := st.slots, st.slots - removed;
    forall s | PotentialNewFrame(m', s) ensures m'[s].continuous {
      assert PotentialNewFrame(m, s);
    }
  }

  lemma NoRunWithoutPredecessor(m: Slots, t: SeqNum, b: SeqNum, n: nat)
    requires t in m && !m[t].isFirst && Plus(t, -1) !in m && Plus(b, n - 1) == t
    ensures !Run(m, b, n)
  {
    PlusPlus(b, n - 1, -1);
    assert n >= 2 ==> !RunPacket(m, b, n - 2);
    assert n == 1 ==> !RunPacket(m, b, 0);
  }

  lemma {:induction false} RunSurvives(m: Slots, removed: set<SeqNum>, b: SeqNum, n: nat)
    requires Run(m, b, n) && Plus(b, n - 1) !in removed && !SplitsFrame(m, removed)
    ensures Run(m - removed, b, n)
  {
    assert RunPacket(m, b, n - 1);
    if n > 1 {
      PlusPlus(b, n - 1, -1);
      assert Run(m, b, n - 1) by {
        assert forall j: nat | j < n - 1 :: RunPacket(m, b, j);
      }
      RunSurvives(m, removed, b, n - 1);
      forall j: nat | j < n ensures RunPacket(m - removed, b, j) {
        assert RunPacket(m, b, j);
        if j < n - 1 {
          assert RunPacket(m - removed, b, j);
        } else {
          assert RunPacket(m - removed, b, 0);
        }
      }
    } else {
      assert RunPacket(m - removed, b, 0);
    }
  }

  /** ClearTo keeps the invariant; but it leaves every continuous packet reached from its frame start exactly when it splits
      no partly received frame. */
  lemma ClearToKeepsValid(st: State, s: SeqNum)
    requires Valid(st)
    ensures Valid(ClearTo(st, s))
    ensures Uncut(st) ==> (Uncut(ClearTo(st, s)) <==> ClearToIgnored(st, s) || !SplitsFrame(st.slots, ClearedKeys(st, s)))
  {
    if !ClearToIgnored(st, s) {
      RemovalKeepsValid(st, ClearedKeys(st, s));
      if Uncut(st) {
        RemovalKeepsSound(st.slots, ClearedKeys(st, s));
      }
    }
  }

  // ----- conservation, one operation

  datatype Op = Insert(packet: Packet) | Padding(seqNum: SeqNum) | Clear | ClearUpTo(seqNum: SeqNum)

  ghost function Step(st: State, op: Op): (State, Outcome)
    requires Placed(st)
  {
    match op
    case Insert(p) => InsertPacket(st, p)
    case Padding(s) => InsertPadding(st, s)
    case Clear => (ClearInternal(st), NOTHING)
    case ClearUpTo(s) => (ClearTo(st, s), NOTHING)
  }

  /** The packet the operation takes into the buffer. */
  ghost function Accepted(st: State, op: Op): multiset<Packet>
    requires Placed(st)
  {
    if op.Insert? && !(st.received && st.cleared && AheadOf(st.first, op.packet.seqNum))
       && op.packet.seqNum !in st.slots && !InsertPacket(st, op.packet).1.bufferCleared
    then multiset{Raw(op.packet)} else multiset{}
  }

  /** The stored packets the operation throws away: all of them when the buffer is cleared or overflows,
      those behind the cut for ClearTo. */
  ghost function Discarded(st: State, op: Op): multiset<Packet>
    requires Placed(st)
  {
    match op
    case Insert(p) => if InsertPacket(st, p).1.bufferCleared then Bag(st.slots) else multiset{}
    case Padding(_) => multiset{}
    case Clear => Bag(st.slots)
    case ClearUpTo(s) =>
      if ClearToIgnored(st, s) then multiset{}
      else Bag(map e | e in st.slots && e in ClearedKeys(st, s) :: st.slots[e])
  }

  lemma BagOfOne(s: SeqNum, q: Packet)
    ensures Bag(map[s := q]) == multiset{Raw(q)}
  {
    var one := map[s := q];
    assert s in one;
    assert RawSet(one) == {Raw(q)};
  }

  lemma BagInsert(m: Slots, s: SeqNum, q: Packet)
    requires Keyed(m) && s !in m && q.seqNum == s
    ensures Bag(m[s := q]) == Bag(m) + multiset{Raw(q)}
  {
    var m' := m[s := q];
    var part := map t | t in m' && t in {s} :: m'[t];
    assert Keyed(m');
    assert m' - {s} == m;
    assert part == map[s := q];
    BagSplit(m', {s});
    BagOfOne(s, q);
  }

  lemma EmptyBag()
    ensures Bag(map[]) == multiset{}
  {
  }

  /** An insertion of a packet of a codec other than H.264 that completes no frame whose first packets `ClearTo` has
      removed; every other operation is safe anyway. */
  ghost predicate Safe(st: State, op: Op)
    requires Placed(st)
  {
    op.Insert? ==> !op.packet.h264 && !CompletesCutFrame(st, op.packet)
  }

  /** Every packet the buffer has taken is stored, handed out or thrown away, each once. */
  lemma StepConserves(st: State, op: Op)
    requires Valid(st) && Safe(st, op)
    ensures var (st', out) := Step(st, op);
            Bag(st.slots) + Accepted(st, op)
            == Bag(st'.slots) + FramesBag(out.frames) + Discarded(st, op)
  {
    hide InsertPacket, InsertPadding, ClearTo, ClearedKeys, Bag, FramesBag, Plain, Closed, Spaced, CompletesCutFrame;
    NoFramesNoBag();
    EmptyBag();
    match op
    case Insert(p) =>
      InsertConserves(st, p);
    case Padding(s) =>
      InsertPaddingHandsOutNothing(st, s);
    case Clear =>
    case ClearUpTo(s) =>
      ClearToConserves(st, s);
  }

  lemma ClearToConserves(st: State, s: SeqNum)
    requires Placed(st)
    ensures Bag(st.slots) == Bag(ClearTo(st, s).slots) + Discarded(st, ClearUpTo(s))
  {
    hide Bag, Spaced;
    if !ClearToIgnored(st, s) {
      BagSplit(st.slots, ClearedKeys(st, s));
    }
  }

  lemma InsertConserves(st: State, p: Packet)
    requires Valid(st) && !p.h264 && !CompletesCutFrame(st, p)
    ensures var (st', out) := InsertPacket(st, p);
            Bag(st.slots) + Accepted(st, Insert(p))
            == Bag(st'.slots) + FramesBag(out.frames) + Discarded(st, Insert(p))
  {
    ValidIsPlaced(st);
    hide InsertPacket, Bag, FramesBag, Plain, Closed, NoneH264, Placed, CompletesCutFrame, Stores;
    NoFramesNoBag();
    EmptyBag();
    WhatIsAccepted(st, p);
    if Stores(st, p.seqNum) {
      StoringConserves(st, p);
    }
  }

  lemma WhatIsAccepted(st: State, p: Packet)
    requires Placed(st)
    ensures Accepted(st, Insert(p)) == if Stores(st, p.seqNum) then multiset{Raw(p)} else multiset{}
    ensures var (st', out) := InsertPacket(st, p);
            && Discarded(st, Insert(p)) == (if out.bufferCleared then Bag(st.slots) else multiset{})
            && (Stores(st, p.seqNum) ==> !out.bufferCleared)
            && (!Stores(st, p.seqNum) ==> out.frames == [] && st'.slots == if out.bufferCleared then map[] else st.slots)
  {
    InsertPacketCases(st, p);
    hide InsertPacket, Bag, Spaced, Keyed, Occupied, Grow, NewSize;
  }

  lemma StoringConserves(st: State, p: Packet)
    requires Valid(st) && !p.h264 && !CompletesCutFrame(st, p) && Stores(st, p.seqNum)
    ensures var (st', out) := InsertPacket(st, p);
            Bag(st.slots) + multiset{Raw(p)} == Bag(st'.slots) + FramesBag(out.frames)
  {
    hide InsertPacket, FindFrames, CompletesCut, Bag, FramesBag, Plain, Closed, NoneH264, Spaced, Occupied, Grow, UpdateMissing, EraseFrames;
    KeyedOfPlain(st.slots);
    InsertPacketStores(st, p);
    FindFramesConserves(PacketBufferModel.Stored(st, p).slots, p.seqNum, NewSize(st, p.seqNum));
    BagInsert(st.slots, p.seqNum, p.(continuous := false));
  }

  // ----- every run

  /** Whatever comes, the packets stay placed. */
  lemma StepKeepsPlaced(st: State, op: Op)
    requires Placed(st)
    ensures Placed(Step(st, op).0)
  {
    match op
    case Insert(p) => InsertPacketKeepsPlaced(st, p);
    case Padding(s) => InsertPaddingKeepsPlaced(st, s);
    case Clear =>
    case ClearUpTo(s) => ClearToKeepsPlaced(st, s);
  }

  /** No empty slot is read, and only whole frames that begin with a frame start are handed out. */
  ghost predicate GoesRight(st: State, op: Op)
    requires Placed(st)
  {
    var out := Step(st, op).1;
    !out.broken && forall f | f in out.frames :: op.Insert? && Genuine(PacketBufferModel.Stored(st, op.packet).slots, f)
  }

  ghost predicate OtherCodec(op: Op) {
    op.Insert? ==> !op.packet.h264
  }

  lemma StepKeepsValid(st: State, op: Op)
    requires Valid(st) && OtherCodec(op)
    ensures GoesRight(st, op) <==> Safe(st, op)
    ensures Safe(st, op) ==> Valid(Step(st, op).0) && forall f | f in Step(st, op).1.frames :: IsWholeFrame(f)
  {
    hide Placed, Plain, Closed, NoneH264, InsertPacket, InsertPadding, ClearTo, Genuine, IsWholeFrame, CompletesCutFrame;
    match op
    case Insert(p) => InsertPacketKeepsValid(st, p);
    case Padding(s) => PaddingKeepsValid(st, s);
    case Clear =>
      ValidIsPlaced(st);
      ClearedIsValid(st);
    case ClearUpTo(s) => ClearToKeepsValid(st, s);
  }

  /** Only `ClearTo` cuts frames. */
  lemma StepKeepsUncut(st: State, op: Op)
    requires Uncut(st) && OtherCodec(op) && !op.ClearUpTo?
    ensures Safe(st, op) && Uncut(Step(st, op).0)
  {
    match op
    case Insert(p) =>
      InsertPacketKeepsUncut(st, p);
    case Padding(s) =>
      InsertPaddingHandsOutNothing(st, s);
    case Clear =>
      ClearedIsValid(st);
  }

  lemma PaddingKeepsValid(st: State, s: SeqNum)
    requires Valid(st)
    ensures InsertPadding(st, s).1 == NOTHING && Valid(InsertPadding(st, s).0)
  {
    InsertPaddingHandsOutNothing(st, s);
  }

  /** Where a run ends, and what went in and came out on the way. */
  datatype History = History(state: State, frames: seq<Frame>, accepted: multiset<Packet>, discarded: multiset<Packet>)

  ghost function Execute(st: State, ops: seq<Op>): History
    requires Placed(st)
    decreases |ops|
  {
    if ops == [] then History(st, [], multiset{}, multiset{})
    else
      StepKeepsPlaced(st, ops[0]);
      var (st', out) := Step(st, ops[0]);
      var h := Execute(st', ops[1..]);
      History(h.state, out.frames + h.frames, Accepted(st, ops[0]) + h.accepted, Discarded(st, ops[0]) + h.discarded)
  }

  ghost predicate SafeRun(st: State, ops: seq<Op>)
    requires Placed(st)
    decreases |ops|
  {
    ops == [] || (Safe(st, ops[0]) && (StepKeepsPlaced(st, ops[0]); SafeRun(Step(st, ops[0]).0, ops[1..])))
  }

  ghost predicate RunGoesRight(st: State, ops: seq<Op>)
    requires Placed(st)
    decreases |ops|
  {
    ops == [] || (GoesRight(st, ops[0]) && (StepKeepsPlaced(st, ops[0]); RunGoesRight(Step(st, ops[0]).0, ops[1..])))
  }

  /** Over a run for codecs other than H.264 no empty slot is read and only whole frames that begin with a frame start are
      handed out, exactly if the run completes no frame whose first packets `ClearTo` has removed. */
  lemma {:induction false} RunGoesRightIff(st: State, ops: seq<Op>)
    requires Valid(st) && forall op | op in ops :: OtherCodec(op)
    ensures RunGoesRight(st, ops) <==> SafeRun(st, ops)
    decreases |ops|
  {
    hide Placed, Plain, Closed, NoneH264, GoesRight, Safe, Step;
    if ops != [] {
      StepKeepsPlaced(st, ops[0]);
      StepKeepsValid(st, ops[0]);
      if Safe(st, ops[0]) {
        RunGoesRightIff(Step(st, ops[0]).0, ops[1..]);
      }
    }
  }

  /** Over such a run only whole frames are handed out. */
  lemma {:induction false} RunIsSound(st: State, ops: seq<Op>)
    requires Valid(st) && SafeRun(st, ops)
    ensures Valid(Execute(st, ops).state)
    ensures forall f | f in Execute(st, ops).frames :: IsWholeFrame(f)
    decreases |ops|
  {
    hide Placed, Plain, Closed, NoneH264, Safe, Step, IsWholeFrame;
    if ops != [] {
      SafeIsOtherCodec(st, ops[0]);
      StepKeepsValid(st, ops[0]);
      StepKeepsPlaced(st, ops[0]);
      RunIsSound(Step(st, ops[0]).0, ops[1..]);
    }
  }

  lemma SafeIsOtherCodec(st: State, op: Op)
    requires Placed(st) && Safe(st, op)
    ensures OtherCodec(op)
  {
  }

  /** After such a run no fully received frame is left behind. */
  lemma RunIsComplete(st: State, ops: seq<Op>, b: SeqNum, n: nat)
    requires Valid(st) && SafeRun(st, ops)
    ensures !ReceivedFrame(Execute(st, ops).state.slots, b, n)
  {
    RunIsSound(st, ops);
    ClosedMeansComplete(Execute(st, ops).state.slots, b, n);
  }

  /** Over such a run each accepted packet is still stored, was handed out, or was thrown away,
      as often as it was accepted. */
  lemma {:induction false} RunConserves(st: State, ops: seq<Op>)
    requires Valid(st) && SafeRun(st, ops)
    ensures var h := Execute(st, ops);
            Bag(st.slots) + h.accepted == Bag(h.state.slots) + FramesBag(h.frames) + h.discarded
    decreases |ops|
  {
    hide Placed, Plain, Closed, NoneH264, Safe, Step, Bag, FramesBag, Accepted, Discarded;
    if ops == [] {
      NoFramesNoBag();
    } else {
      SafeIsOtherCodec(st, ops[0]);
      StepKeepsValid(st, ops[0]);
      StepKeepsPlaced(st, ops[0]);
      StepConserves(st, ops[0]);
      var (st', out) := Step(st, ops[0]);
      RunConserves(st', ops[1..]);
      var h := Execute(st', ops[1..]);
      FramesBagConcat(out.frames, h.frames);
      BagsCompose(Bag(st.slots), Accepted(st, ops[0]), Bag(st'.slots), FramesBag(out.frames), Discarded(st, ops[0]),
                  h.accepted, Bag(h.state.slots), FramesBag(h.frames), h.discarded);
    }
  }

  lemma BagsCompose(b0: multiset<Packet>, a1: multiset<Packet>, b1: multiset<Packet>, f1: multiset<Packet>,
                    d1: multiset<Packet>, a2: multiset<Packet>, b2: multiset<Packet>, f2: multiset<Packet>,
                    d2: multiset<Packet>)
    requires b0 + a1 == b1 + f1 + d1 && b1 + a2 == b2 + f2 + d2
    ensures b0 + (a1 + a2) == b2 + (f1 + f2) + (d1 + d2)
  {
    assert b0 + (a1 + a2) == (b0 + a1) + a2;
    assert (b1 + a2) + (f1 + d1) == b2 + (f1 + f2) + (d1 + d2);
  }

  // ----- the missing packets over a run

  lemma {:induction false} SearchKeepsWindow(newest: Option<SeqNum>, ring: Ring, missing: seq<SeqNum>, s: SeqNum, n: nat, needsParameterSets: bool)
    requires |ring| <= 65536 && InWindow(Window(newest, missing))
    ensures InWindow(Window(newest, RingSearch.Search(ring, missing, s, n, needsParameterSets).missing))
    decreases n
  {
    hide RingSearch.Iterate, RingSearch.Potential;
    if n != 0 && RingSearch.Potential(ring, s) {
      var r := RingSearch.Iterate(ring, missing, s, needsParameterSets);
      if r.GoesOn? {
        SearchKeepsWindow(newest, r.ring, missing, Plus(s, 1), n - 1, needsParameterSets);
      } else if r.Hands? {
        SearchKeepsWindow(newest, r.ring, EraseCompleted(missing, s), Plus(s, 1), n - 1, needsParameterSets);
      }
    }
  }

  /** The operation does not jump half the number space ahead over a missing number about to expire. */
  ghost predicate KeepsPace(st: State, op: Op) {
    match op
    case Insert(p) => !HalfSpaceJump(st.window, p.seqNum)
    case Padding(s) => !HalfSpaceJump(st.window, s)
    case _ => true
  }

  lemma StepKeepsWindow(st: State, op: Op)
    requires Placed(st) && InWindow(st.window) && KeepsPace(st, op)
    ensures InWindow(Step(st, op).0.window)
  {
    hide InWindow, UpdateMissing, Spaced, Keyed, RingSearch.Search, HalfSpaceJump, Occupied, EraseCleared;
    match op
    case Insert(p) =>
      InsertPacketCases(st, p);
      if Stores(st, p.seqNum) {
        InsertionSearches(st, p);
        UpdateMissingKeepsWindow(st.window, p.seqNum);
        var st1 := PacketBufferModel.Stored(st, p);
        SearchKeepsWindow(st1.window.newest, RingOf(st1.slots, st1.size), st1.window.missing, p.seqNum, st1.size, st.needsParameterSets);
      } else {
        NothingMissing();
      }
    case Padding(s) =>
      UpdateMissingKeepsWindow(st.window, s);
      PowerOfTwoBounds(st.size);
      SearchKeepsWindow(UpdateMissing(st.window, s).newest, RingOf(st.slots, st.size), UpdateMissing(st.window, s).missing, Plus(s, 1), st.size, st.needsParameterSets);
    case Clear => NothingMissing();
    case ClearUpTo(s) => ClearingKeepsWindow(st.window, Plus(s, 1));
  }

  lemma NothingMissing()
    ensures InWindow(Window(None, []))
  {
  }

  lemma ClearingKeepsWindow(w: Window, s: SeqNum)
    requires InWindow(w)
    ensures InWindow(w.(missing := EraseCleared(w.missing, s)))
  {
  }

  ghost predicate PacedRun(st: State, ops: seq<Op>)
    requires Placed(st)
    decreases |ops|
  {
    ops == [] || (KeepsPace(st, ops[0]) && (StepKeepsPlaced(st, ops[0]); PacedRun(Step(st, ops[0]).0, ops[1..])))
  }

  /** Over every such run, of packets of any codec, the missing set stays within 1000 of the newest number, at most 1000
      large, and its comparator is a strict total order on it. */
  lemma {:induction false} RunKeepsWindow(st: State, ops: seq<Op>)
    requires Placed(st) && PacedRun(st, ops) && InWindow(st.window)
    ensures var w := Execute(st, ops).state.window;
            && InWindow(w)
            && |w.missing| <= MAX_PADDING_AGE
            && (forall i, j | 0 <= i < |w.missing| && 0 <= j < |w.missing| ::
                  i < j <==> AheadOf(w.missing[j], w.missing[i]))
    decreases |ops|
  {
    if ops == [] {
      WindowIsOrdered(st.window);
    } else {
      hide InWindow, Step, KeepsPace, Placed;
      StepKeepsPlaced(st, ops[0]);
      StepKeepsWindow(st, ops[0]);
      RunKeepsWindow(Step(st, ops[0]).0, ops[1..]);
    }
  }
}
