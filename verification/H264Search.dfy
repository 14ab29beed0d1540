/** What the search of `PacketBuffer::FindFrames` (packet_buffer.cpp) hands out for H.264, where frames are found by their
    timestamp alone: exactly when the packets it takes are those of the frame, which frames are keyframes, and which
    wait. */
module H264Search {
  import opened SequenceNumbers
  import opened RingArithmetic
  import opened OrderedNumbers
  import opened MissingPackets
  import opened PacketRing
  import opened RingSearch

  ghost predicate AllH264(ring: Ring) {
    forall i | 0 <= i < |ring| && ring[i].Some? :: ring[i].value.h264
  }

  /** The slot of the number holds its packet, of that time. */
  predicate IsPacket(ring: Ring, s: SeqNum, timestamp: int) {
    InPlace(ring, s) && At(ring, s).value.timestamp == timestamp
  }

  // ----- which packets the walk takes

  /** Back from `s` all packets are in place and of its time, but for a foreign one of the same time `n` slots on. */
  ghost predicate ForeignAt(ring: Ring, s: SeqNum, n: nat)
    requires At(ring, s).Some?
  {
    var timestamp := At(ring, s).value.timestamp;
    && 0 < n < |ring|
    && (forall j: nat | j < n :: IsPacket(ring, Back(s, j), timestamp))
    && At(ring, Back(s, n)).Some? && At(ring, Back(s, n)).value.timestamp == timestamp && !InPlace(ring, Back(s, n))
  }

  ghost predicate ForeignBehind(ring: Ring, s: SeqNum)
    requires At(ring, s).Some?
  {
    exists n: nat :: ForeignAt(ring, s, n)
  }

  ghost predicate AllInPlace(ring: Ring, start: SeqNum, s: SeqNum, timestamp: int) {
    forall j: nat | j <= ForwardDiff(start, s) :: IsPacket(ring, Back(s, j), timestamp)
  }

  lemma {:induction false} WalkAfter(ring: Ring, s: SeqNum, tested: nat, seen: Seen, needsParameterSets: bool)
    requires |ring| <= 65536 && tested < |ring| && InPlace(ring, s)
    requires var timestamp := At(ring, s).value.timestamp;
             && (forall j: nat | j <= tested :: IsPacket(ring, Back(s, j), timestamp))
             && WalkBack(ring, Back(s, tested), timestamp, tested, seen, needsParameterSets).Start?
    ensures var timestamp := At(ring, s).value.timestamp;
            var start := WalkBack(ring, Back(s, tested), timestamp, tested, seen, needsParameterSets).seqNum;
            AllInPlace(ring, start, s, timestamp) <==> !ForeignBehind(ring, s)
    decreases |ring| - tested
  {
    assert At(ring, s).Some?;
    hide WalkBack, At, InPlace, Plus, Back, ForwardDiff, Absorb;
    var timestamp, t, before := At(ring, s).value.timestamp, Back(s, tested), Back(s, tested + 1);
    BackOnce(s, tested);
    assert IsPacket(ring, t, timestamp);
    SlotIsFilled(ring, t, timestamp);
    WalkOnce(ring, t, timestamp, tested, seen, needsParameterSets);
    var start := WalkBack(ring, t, timestamp, tested, seen, needsParameterSets).seqNum;
    if tested + 1 == |ring| || At(ring, before).None? || At(ring, before).value.timestamp != timestamp {
      StepsBackTo(s, tested);
      NothingForeign(ring, s, tested);
    } else {
      var seen' := Absorb(seen, At(ring, t).value, At(ring, t).value.nalus.value, needsParameterSets);
      WalkedOver(ring, before, timestamp, tested + 1, seen', needsParameterSets);
      FurtherBack(start, s, tested + 1);
      if InPlace(ring, before) {
        WalkAfter(ring, s, tested + 1, seen', needsParameterSets);
      } else {
        assert ForeignAt(ring, s, tested + 1);
        assert !IsPacket(ring, before, timestamp);
      }
    }
  }

  lemma SlotIsFilled(ring: Ring, s: SeqNum, timestamp: int)
    requires IsPacket(ring, s, timestamp)
    ensures At(ring, s).Some? && At(ring, s).value.timestamp == timestamp
  {
  }

  lemma StepsBackTo(s: SeqNum, k: nat)
    requires k < 65536
    ensures ForwardDiff(Back(s, k), s) == k
  {
  }

  lemma FurtherBack(start: SeqNum, s: SeqNum, k: nat)
    requires k + ForwardDiff(start, Back(s, k)) < 65536
    ensures ForwardDiff(start, s) == k + ForwardDiff(start, Back(s, k))
  {
  }

  lemma NothingForeign(ring: Ring, s: SeqNum, tested: nat)
    requires At(ring, s).Some?
    requires var timestamp := At(ring, s).value.timestamp;
             && (forall j: nat | j <= tested :: IsPacket(ring, Back(s, j), timestamp))
             && (tested + 1 == |ring| || At(ring, Back(s, tested + 1)).None? || At(ring, Back(s, tested + 1)).value.timestamp != timestamp)
    ensures !ForeignBehind(ring, s)
  {
    hide At, Back;
    var timestamp := At(ring, s).value.timestamp;
    forall n: nat ensures !ForeignAt(ring, s, n) {
      if n <= tested {
        assert IsPacket(ring, Back(s, n), timestamp);
      } else if n > tested + 1 && tested + 1 < |ring| {
        assert !IsPacket(ring, Back(s, tested + 1), timestamp);
      }
    }
  }

  /** Every slot the walk comes by holds the packet it is taken for exactly if there is nothing foreign behind `s`. */
  lemma WalkMeetsPacketsIff(ring: Ring, s: SeqNum, needsParameterSets: bool)
    requires |ring| <= 65536 && InPlace(ring, s)
    ensures var w := WalkFrom(ring, s, needsParameterSets);
            w.Start? ==>
              ((forall j: nat | j <= ForwardDiff(w.seqNum, s) :: IsPacket(ring, Plus(w.seqNum, j), At(ring, s).value.timestamp))
               <==> !ForeignBehind(ring, s))
  {
    BackNone(s);
    var w := WalkFrom(ring, s, needsParameterSets);
    hide WalkBack, At, Back, Plus, ForwardDiff;
    if w.Start? {
      WalkAfter(ring, s, 0, NOTHING_SEEN, needsParameterSets);
      ForwardAndBack(ring, w.seqNum, s, At(ring, s).value.timestamp);
    }
  }

  lemma ForwardAndBack(ring: Ring, start: SeqNum, s: SeqNum, timestamp: int)
    ensures AllInPlace(ring, start, s, timestamp) <==>
              forall j: nat | j <= ForwardDiff(start, s) :: IsPacket(ring, Plus(start, j), timestamp)
  {
    hide IsPacket;
    var k := ForwardDiff(start, s);
    PlusForwardDiff(start, s);
    hide Plus, Back, ForwardDiff;
    forall j: nat | j <= k ensures Back(s, j) == Plus(start, k - j) {
      BackInRun(start, k + 1, j);
    }
    if AllInPlace(ring, start, s, timestamp) {
      forall j: nat | j <= k ensures IsPacket(ring, Plus(start, j), timestamp) {
        var i: nat := k - j;
        assert IsPacket(ring, Back(s, i), timestamp);
      }
    }
  }

  // ----- what is handed out

  ghost predicate Near(a: SeqNum, b: SeqNum, size: nat) {
    ForwardDiff(a, b) < size - 1 || ForwardDiff(b, a) < size - 1
  }

  /** Stored packets of one timestamp lie within fewer numbers than the ring has slots. */
  ghost predicate SpansLess(ring: Ring) {
    forall i, j | 0 <= i < j < |ring| && ring[i].Some? && ring[j].Some? && ring[i].value.timestamp == ring[j].value.timestamp ::
      Near(ring[i].value.seqNum, ring[j].value.seqNum, |ring|)
  }

  /** A packet in the slot before that of `s`, near `s`, is the previous one. */
  lemma NearInSlotBefore(q: SeqNum, s: SeqNum, size: nat)
    requires PowerOfTwo(size) && size > 1 && Near(q, s, size) && Slot(q, size) == Slot(Plus(s, -1), size)
    ensures q == Plus(s, -1)
  {
    PowerOfTwoBounds(size);
    hide Slot, PowerOfTwo, Plus, ForwardDiff;
    if ForwardDiff(q, s) < size - 1 {
      BehindInSlotBefore(q, s, ForwardDiff(q, s), size);
    } else {
      AheadInSlotBefore(q, s, ForwardDiff(s, q), size);
    }
  }

  lemma BehindInSlotBefore(q: SeqNum, s: SeqNum, d: nat, size: nat)
    requires PowerOfTwo(size) && d == ForwardDiff(q, s) < size - 1 && Slot(q, size) == Slot(Plus(s, -1), size)
    ensures q == Plus(s, -1)
  {
    hide Slot, PowerOfTwo, Plus, ForwardDiff;
    PlusForwardDiff(q, s);
    PlusPlus(q, d, -1);
    NoSteps(q);
    if d == 0 {
      PreviousSlot(s, size);
    } else {
      SlotShift(q, d - 1, size);
    }
  }

  lemma AheadInSlotBefore(q: SeqNum, s: SeqNum, e: nat, size: nat)
    requires PowerOfTwo(size) && e == ForwardDiff(s, q) < size - 1
    ensures Slot(q, size) != Slot(Plus(s, -1), size)
  {
    hide Slot, PowerOfTwo, Plus, ForwardDiff;
    PlusForwardDiff(s, q);
    PlusPlus(s, -1, e + 1);
    SlotShift(Plus(s, -1), e + 1, size);
  }

  lemma BeforeIsInPlace(ring: Ring, s: SeqNum)
    requires PowerOfTwo(|ring|) && |ring| > 1 && Addressed(ring) && SpansLess(ring) && InPlace(ring, s)
    requires At(ring, Plus(s, -1)).Some? && At(ring, Plus(s, -1)).value.timestamp == At(ring, s).value.timestamp
    ensures InPlace(ring, Plus(s, -1))
  {
    var i, j := Slot(Plus(s, -1), |ring|), Slot(s, |ring|);
    PreviousSlot(s, |ring|);
    var q := ring[i].value.seqNum;
    hide Slot, PowerOfTwo;
    assert Near(q, s, |ring|);
    NearInSlotBefore(q, s, |ring|);
  }

  lemma ShrunkKeeps(ring: Ring, ring': Ring)
    requires Shrunk(ring, ring') && Addressed(ring) && SpansLess(ring)
    ensures Addressed(ring') && SpansLess(ring')
  {
    hide Slot, Near;
  }

  lemma TakenIsWhole(ring: Ring, start: SeqNum, s: SeqNum, n: nat, timestamp: int)
    requires n == ForwardDiff(start, s) + 1
    requires forall j: nat | j < n :: At(ring, Plus(start, j)).Some? && IsPacket(ring, Plus(start, j), timestamp)
    ensures IsWholeFrame(Taken(ring, start, s, n))
  {
    var f := Taken(ring, start, s, n);
    assert Plus(start, 0) == start;
    PlusForwardDiff(start, s);
    forall i: nat | i < n ensures FramePacket(f, i) {
      PlusInjective(start, i, 0);
      PlusInjective(start, i, n - 1);
      hide Plus, Slot;
    }
  }

  /** Where packets of one timestamp span less than the ring, none is foreign. */
  lemma NearIsNotForeign(ring: Ring, s: SeqNum)
    requires ValidRing(ring) && SpansLess(ring) && InPlace(ring, s)
    ensures !ForeignBehind(ring, s)
  {
    assert At(ring, s).Some?;
    hide Plus, Back, PowerOfTwo, Addressed, SpansLess, InPlace, At;
    forall n: nat ensures !ForeignAt(ring, s, n) {
      if ForeignAt(ring, s, n) {
        var t := Back(s, n - 1);
        assert IsPacket(ring, t, At(ring, s).value.timestamp);
        SlotIsFilled(ring, t, At(ring, s).value.timestamp);
        BackOnce(s, n - 1);
        BeforeIsInPlace(ring, t);
      }
    }
  }

  lemma MarkedAlike(ring: Ring, s: SeqNum)
    requires InPlace(ring, s)
    ensures var marked := Marked(ring, s);
            && |marked| == |ring| && InPlace(marked, s) && At(marked, s).value == At(ring, s).value.(continuous := true)
            && (ForeignBehind(marked, s) <==> ForeignBehind(ring, s))
            && forall t :: InPlace(marked, t) <==> InPlace(ring, t)
  {
    var marked := Marked(ring, s);
    forall n: nat ensures ForeignAt(marked, s, n) <==> ForeignAt(ring, s, n) {
      hide Slot, Back;
    }
  }

  /** An H.264 frame handed out has consecutive numbers and one timestamp exactly if there is nothing foreign behind its
      last packet. */
  lemma HandedOutIsWholeIff(ring: Ring, missing: seq<SeqNum>, s: SeqNum, needsParameterSets: bool)
    requires |ring| <= 65536 && Potential(ring, s) && At(ring, s).value.h264
    ensures var r := Iterate(ring, missing, s, needsParameterSets);
            !r.Breaks? && (r.Hands? ==> (IsWholeFrame(r.frame) <==> !ForeignBehind(ring, s)))
  {
    hide WalkFrom, Decide, ForeignBehind, Slot, IsWholeFrame;
    MarkedAlike(ring, s);
    hide Marked;
    var m, r := Marked(ring, s), Iterate(ring, missing, s, needsParameterSets);
    if r.Hands? {
      var w := WalkFrom(m, s, needsParameterSets);
      WalkMeetsPacketsIff(m, s, needsParameterSets);
      DecidedIsWholeIff(m, missing, w.seqNum, s, w.seen);
    }
  }

  lemma DecidedIsWholeIff(ring: Ring, missing: seq<SeqNum>, start: SeqNum, s: SeqNum, seen: Seen)
    requires InPlace(ring, s) && forall j: nat | j <= ForwardDiff(start, s) :: At(ring, Plus(start, j)).Some?
    ensures var r := Decide(ring, missing, start, s, seen);
            r.Hands? ==> (IsWholeFrame(r.frame) <==>
                          forall j: nat | j <= ForwardDiff(start, s) :: IsPacket(ring, Plus(start, j), At(ring, s).value.timestamp))
  {
    NoSteps(start);
    PlusForwardDiff(start, s);
    var r, judged, n := Decide(ring, missing, start, s, seen), Judged(ring, start, seen), ForwardDiff(start, s) + 1;
    SlotsStaySome(ring, start, seen, n);
    JudgedAlike(ring, start, seen, At(ring, s).value.timestamp);
    hide Judged, Without, UpperBound, IsWholeFrame, Plus, ForwardDiff, Slot;
    if r.Hands? {
      if IsWholeFrame(r.frame) {
        WholeIsInPlace(judged, start, s, n);
        forall j: nat | j < n ensures IsPacket(ring, Plus(start, j), At(ring, s).value.timestamp) {
          assert At(judged, Plus(start, n - 1)).value.timestamp == At(judged, start).value.timestamp;
        }
      }
      if forall j: nat | j < n :: IsPacket(ring, Plus(start, j), At(ring, s).value.timestamp) {
        TakenIsWhole(judged, start, s, n, At(ring, s).value.timestamp);
      }
    }
  }

  lemma JudgedAlike(ring: Ring, start: SeqNum, seen: Seen, timestamp: int)
    requires At(ring, start).Some?
    ensures forall t :: InPlace(Judged(ring, start, seen), t) <==> InPlace(ring, t)
    ensures forall t | InPlace(ring, t) :: At(Judged(ring, start, seen), t).value.timestamp == At(ring, t).value.timestamp
  {
  }

  /** In the search from `s` on an H.264 frame is handed out with something foreign behind its last packet. */
  ghost predicate TakesForeign(ring: Ring, missing: seq<SeqNum>, s: SeqNum, n: nat, needsParameterSets: bool)
    requires |ring| <= 65536
    decreases n
  {
    n > 0 && Potential(ring, s) &&
    match Iterate(ring, missing, s, needsParameterSets)
    case GoesOn(r) => TakesForeign(r, missing, Plus(s, 1), n - 1, needsParameterSets)
    case Hands(r, f) =>
      ForeignBehind(ring, s) || TakesForeign(r, EraseCompleted(missing, s), Plus(s, 1), n - 1, needsParameterSets)
    case _ => false
  }

  /** All H.264 frames of a search are whole exactly if it takes nothing foreign. */
  lemma {:induction false} SearchIsSoundIff(ring: Ring, missing: seq<SeqNum>, s: SeqNum, n: nat, needsParameterSets: bool)
    requires |ring| <= 65536 && AllH264(ring)
    ensures var r := Search(ring, missing, s, n, needsParameterSets);
            && !r.broken
            && ((forall f | f in r.frames :: IsWholeFrame(f)) <==> !TakesForeign(ring, missing, s, n, needsParameterSets))
    decreases n
  {
    hide ForeignBehind, IsWholeFrame, Iterate, Potential, EraseCompleted, AllH264, Shrunk;
    if n != 0 && Potential(ring, s) {
      var r := Iterate(ring, missing, s, needsParameterSets);
      IterateShrinks(ring, missing, s, needsParameterSets);
      ShrunkIsH264(ring, r.ring);
      AtH264(ring, s);
      HandedOutIsWholeIff(ring, missing, s, needsParameterSets);
      if r.GoesOn? {
        SearchIsSoundIff(r.ring, missing, Plus(s, 1), n - 1, needsParameterSets);
      } else if r.Hands? {
        SearchIsSoundIff(r.ring, EraseCompleted(missing, s), Plus(s, 1), n - 1, needsParameterSets);
      }
    }
  }

  lemma ShrunkIsH264(ring: Ring, ring': Ring)
    requires AllH264(ring) && Shrunk(ring, ring')
    ensures AllH264(ring')
  {
  }

  lemma AtH264(ring: Ring, s: SeqNum)
    requires AllH264(ring) && Potential(ring, s)
    ensures InPlace(ring, s) && At(ring, s).value.h264
  {
  }

  /** So they are where packets of one timestamp span less than the ring. */
  lemma {:induction false} SearchIsSound(ring: Ring, missing: seq<SeqNum>, s: SeqNum, n: nat, needsParameterSets: bool)
    requires ValidRing(ring) && SpansLess(ring)
    ensures !TakesForeign(ring, missing, s, n, needsParameterSets)
    decreases n
  {
    hide PowerOfTwo, Addressed, SpansLess, Iterate, Potential, EraseCompleted, Shrunk, ForeignBehind;
    if n != 0 && Potential(ring, s) {
      var r := Iterate(ring, missing, s, needsParameterSets);
      IterateShrinks(ring, missing, s, needsParameterSets);
      ShrunkKeeps(ring, r.ring);
      PotentialIsInPlace(ring, s);
      NearIsNotForeign(ring, s);
      if r.GoesOn? {
        SearchIsSound(r.ring, missing, Plus(s, 1), n - 1, needsParameterSets);
      } else if r.Hands? {
        SearchIsSound(r.ring, EraseCompleted(missing, s), Plus(s, 1), n - 1, needsParameterSets);
      }
    }
  }

  lemma PotentialIsInPlace(ring: Ring, s: SeqNum)
    requires Potential(ring, s)
    ensures InPlace(ring, s)
  {
  }

  // ----- whether the frame handed out is that of the sender

  /** The packets of that time that the ring holds are those numbered from `b` to `e`. */
  ghost predicate FrameOfSender(ring: Ring, b: SeqNum, e: SeqNum, timestamp: int) {
    && ForwardDiff(b, e) < 65535
    && forall i | 0 <= i < |ring| && ring[i].Some? ::
         ring[i].value.timestamp == timestamp <==> ForwardDiff(b, ring[i].value.seqNum) <= ForwardDiff(b, e)
  }

  /** The walk goes back as far as there are packets of the time, or once around. */
  lemma {:induction false} WalksAllTheWay(ring: Ring, s: SeqNum, timestamp: int, tested: nat, seen: Seen, needsParameterSets: bool)
    requires |ring| <= 65536 && tested < |ring| && At(ring, s).Some? && At(ring, s).value.timestamp == timestamp
    requires WalkBack(ring, s, timestamp, tested, seen, needsParameterSets).Start?
    ensures var start := WalkBack(ring, s, timestamp, tested, seen, needsParameterSets).seqNum;
            var before := Plus(start, -1);
            tested + ForwardDiff(start, s) + 1 == |ring| || At(ring, before).None? || At(ring, before).value.timestamp != timestamp
    decreases |ring| - tested
  {
    hide WalkBack, At, Plus, ForwardDiff, Absorb;
    var start := WalkBack(ring, s, timestamp, tested, seen, needsParameterSets).seqNum;
    var p, before := At(ring, s).value, Plus(s, -1);
    WalkOnce(ring, s, timestamp, tested, seen, needsParameterSets);
    if tested + 1 == |ring| || At(ring, before).None? || At(ring, before).value.timestamp != timestamp {
      NoFurther(s);
    } else {
      var seen' := Absorb(seen, p, p.nalus.value, needsParameterSets);
      WalksAllTheWay(ring, before, timestamp, tested + 1, seen', needsParameterSets);
      WalkedOver(ring, before, timestamp, tested + 1, seen', needsParameterSets);
      OneFurther(start, before, s);
    }
  }

  ghost predicate AllStored(ring: Ring, b: SeqNum, e: SeqNum) {
    forall j: nat | j <= ForwardDiff(b, e) :: InPlace(ring, Plus(b, j))
  }

  /** Packets in place have different slots, so there are no more of them than slots. */
  lemma StoredFit(ring: Ring, b: SeqNum, e: SeqNum)
    requires ValidRing(ring) && AllStored(ring, b, e)
    ensures ForwardDiff(b, e) < |ring|
  {
    var d := ForwardDiff(b, e);
    PowerOfTwoBounds(|ring|);
    SlotAfterLap(b, |ring|);
    NoSteps(b);
    PlusInjective(b, |ring|, 0);
    hide Plus, PowerOfTwo, ForwardDiff;
    assert InPlace(ring, Plus(b, 0));
    assert d >= |ring| ==> InPlace(ring, Plus(b, |ring|));
  }

  /** Two numbers in one slot lie no less than a round apart. */
  lemma OtherSlot(b: SeqNum, q: SeqNum, size: nat)
    requires PowerOfTwo(size) && ForwardDiff(b, q) + 1 < size
    ensures Slot(q, size) != Slot(Plus(b, -1), size)
  {
    var j: nat := ForwardDiff(b, q);
    PlusForwardDiff(b, q);
    PlusPlus(b, -1, j + 1);
    NoSteps(Plus(b, -1));
    hide Plus, PowerOfTwo, ForwardDiff, Slot, StepsToSlot;
    StepsToSlotExact(Plus(b, -1), q, size, j + 1);
    StepsToSlotExact(Plus(b, -1), q, size, 0);
  }

  lemma NothingForeignInFrame(ring: Ring, b: SeqNum, e: SeqNum, timestamp: int)
    requires ValidRing(ring) && AllStored(ring, b, e) && FrameOfSender(ring, b, e, timestamp)
    requires InPlace(ring, e) && At(ring, e).value.timestamp == timestamp
    ensures !ForeignBehind(ring, e)
  {
    StoredFit(ring, b, e);
    var d := ForwardDiff(b, e);
    PlusForwardDiff(b, e);
    BeforeFrame(b, e);
    forall n: nat ensures !ForeignAt(ring, e, n) {
      if n <= d {
        BackInRun(b, d + 1, n);
        assert InPlace(ring, Plus(b, d - n));
      } else {
        var q := At(ring, Back(e, d + 1));
        assert InPlace(ring, Back(e, d + 1)) && q.value.timestamp == timestamp ==> false;
        hide Plus, Back, ForwardDiff, PowerOfTwo, Slot;
        if n == d + 1 && n < |ring| && q.Some? && q.value.timestamp == timestamp {
          OtherSlot(b, q.value.seqNum, |ring|);
        }
      }
    }
  }

  lemma BeforeFrame(b: SeqNum, e: SeqNum)
    ensures Back(e, ForwardDiff(b, e) + 1) == Plus(b, -1) && ForwardDiff(b, Plus(b, -1)) == 65535
  {
    PlusForwardDiff(b, e);
    PlusPlus(b, ForwardDiff(b, e), 0 - (ForwardDiff(b, e) + 1));
  }

  /** What is handed out, in terms of the walk. */
  lemma HandsFromWalk(ring: Ring, missing: seq<SeqNum>, s: SeqNum, needsParameterSets: bool)
    requires |ring| <= 65536 && Potential(ring, s) && At(ring, s).value.h264
    requires Iterate(ring, missing, s, needsParameterSets).Hands?
    ensures var m := Marked(ring, s);
            At(m, s).Some? &&
            var w := WalkFrom(m, s, needsParameterSets);
            w.Start? &&
            var n := ForwardDiff(w.seqNum, s) + 1;
            && (forall j: nat | j < n :: At(m, Plus(w.seqNum, j)).Some?)
            && At(m, w.seqNum).Some? && (forall j: nat | j < n :: At(Judged(m, w.seqNum, w.seen), Plus(w.seqNum, j)).Some?)
            && Iterate(ring, missing, s, needsParameterSets).frame == Taken(Judged(m, w.seqNum, w.seen), w.seqNum, s, n)
  {
    MarkShrinks(ring, s);
    var m := Marked(ring, s);
    var w := WalkFrom(m, s, needsParameterSets);
    NoSteps(w.seqNum);
    SlotsStaySome(m, w.seqNum, w.seen, ForwardDiff(w.seqNum, s) + 1);
    hide Slot, Plus, ForwardDiff, WalkFrom, UpperBound, Judged, Taken, Without;
  }

  /** If the sender's frame is numbered from `b` to `e`, what is handed out at `e` is that frame exactly if all of it is
      stored. A keyframe is handed out whether it is or not. */
  lemma HandsOutFrameIff(ring: Ring, missing: seq<SeqNum>, b: SeqNum, e: SeqNum, needsParameterSets: bool)
    requires ValidRing(ring) && Potential(ring, e) && At(ring, e).value.h264
    requires FrameOfSender(ring, b, e, At(ring, e).value.timestamp)
    ensures var r := Iterate(ring, missing, e, needsParameterSets);
            r.Hands? ==> (IsWholeFrame(r.frame) && r.frame[0].seqNum == b <==> AllStored(ring, b, e))
  {
    hide ForeignBehind, Iterate, IsWholeFrame, AllStored, FrameOfSender, Addressed, PowerOfTwo, Taken, Judged, WalkFrom;
    var r := Iterate(ring, missing, e, needsParameterSets);
    if r.Hands? {
      HandsFromWalk(ring, missing, e, needsParameterSets);
      HandedOutIsWholeIff(ring, missing, e, needsParameterSets);
      if IsWholeFrame(r.frame) && r.frame[0].seqNum == b {
        WholeIsStored(ring, b, e, needsParameterSets);
      }
      if AllStored(ring, b, e) {
        NothingForeignInFrame(ring, b, e, At(ring, e).value.timestamp);
        StoredIsWhole(ring, b, e, needsParameterSets);
      }
    }
  }

  lemma WholeIsStored(ring: Ring, b: SeqNum, e: SeqNum, needsParameterSets: bool)
    requires |ring| <= 65536 && InPlace(ring, e)
    requires At(Marked(ring, e), e).Some?
    requires var m := Marked(ring, e);
             var w := WalkFrom(m, e, needsParameterSets);
             w.Start? && At(m, w.seqNum).Some? &&
             var judged, n := Judged(m, w.seqNum, w.seen), ForwardDiff(w.seqNum, e) + 1;
             && (forall j: nat | j < n :: At(judged, Plus(w.seqNum, j)).Some?)
             && var f := Taken(judged, w.seqNum, e, n); IsWholeFrame(f) && f[0].seqNum == b
    ensures AllStored(ring, b, e)
  {
    hide WalkFrom, IsWholeFrame, Taken, Slot, Plus, ForwardDiff;
    var m := Marked(ring, e);
    var w := WalkFrom(m, e, needsParameterSets);
    MarkedAlike(ring, e);
    JudgedAlike(m, w.seqNum, w.seen, 0);
    hide Judged, Marked;
    WholeIsInPlace(Judged(m, w.seqNum, w.seen), w.seqNum, e, ForwardDiff(w.seqNum, e) + 1);
  }

  /** Where all of the frame is stored the walk from its last packet, if no header stops it, ends at its first one. */
  lemma WalkReachesFirst(ring: Ring, b: SeqNum, e: SeqNum, needsParameterSets: bool)
    requires ValidRing(ring) && InPlace(ring, e) && FrameOfSender(ring, b, e, At(ring, e).value.timestamp)
    requires AllStored(ring, b, e) && !ForeignBehind(ring, e)
    requires At(Marked(ring, e), e).Some? && WalkFrom(Marked(ring, e), e, needsParameterSets).Start?
    ensures WalkFrom(Marked(ring, e), e, needsParameterSets).seqNum == b
  {
    var m := Marked(ring, e);
    var w := WalkFrom(m, e, needsParameterSets);
    var timestamp := At(ring, e).value.timestamp;
    MarkedAlike(ring, e);
    MarkedTimes(ring, e);
    StoredFit(ring, b, e);
    NoSteps(w.seqNum);
    WalksAllTheWay(m, e, timestamp, 0, NOTHING_SEEN, needsParameterSets);
    WalkMeetsPacketsIff(m, e, needsParameterSets);
    hide WalkBack, Slot, Marked, Addressed, PowerOfTwo, ForeignBehind, FrameOfSender;
    assert IsPacket(m, Plus(w.seqNum, 0), timestamp);
    StartsAtFirst(ring, b, e, w.seqNum);
  }

  lemma StoredIsWhole(ring: Ring, b: SeqNum, e: SeqNum, needsParameterSets: bool)
    requires ValidRing(ring) && InPlace(ring, e) && FrameOfSender(ring, b, e, At(ring, e).value.timestamp)
    requires AllStored(ring, b, e) && !ForeignBehind(ring, e)
    requires At(Marked(ring, e), e).Some?
    requires var m := Marked(ring, e);
             var w := WalkFrom(m, e, needsParameterSets);
             w.Start? && At(m, w.seqNum).Some? &&
             var judged, n := Judged(m, w.seqNum, w.seen), ForwardDiff(w.seqNum, e) + 1;
             && (forall j: nat | j < n :: At(judged, Plus(w.seqNum, j)).Some?)
    ensures var m := Marked(ring, e);
            var w := WalkFrom(m, e, needsParameterSets);
            Taken(Judged(m, w.seqNum, w.seen), w.seqNum, e, ForwardDiff(w.seqNum, e) + 1)[0].seqNum == b
  {
    var m := Marked(ring, e);
    var w := WalkFrom(m, e, needsParameterSets);
    WalkReachesFirst(ring, b, e, needsParameterSets);
    MarkedAlike(ring, e);
    JudgedAlike(m, w.seqNum, w.seen, 0);
    NoSteps(b);
    hide WalkFrom, Slot, Marked, Addressed, PowerOfTwo, ForeignBehind, FrameOfSender, Judged;
    assert AllStored(ring, b, e) ==> InPlace(ring, Plus(b, 0));
  }

  lemma MarkedTimes(ring: Ring, s: SeqNum)
    requires InPlace(ring, s)
    ensures forall t :: At(Marked(ring, s), t).Some? == At(ring, t).Some?
    ensures forall t | At(ring, t).Some? :: At(Marked(ring, s), t).value.timestamp == At(ring, t).value.timestamp
  {
  }

  /** A walk that ends at a packet of the frame, and not for want of slots, ends at its first one. */
  lemma StartsAtFirst(ring: Ring, b: SeqNum, e: SeqNum, start: SeqNum)
    requires InPlace(ring, e) && InPlace(ring, start)
    requires var timestamp := At(ring, e).value.timestamp;
             && FrameOfSender(ring, b, e, timestamp) && At(ring, start).value.timestamp == timestamp
             && var before := Plus(start, -1);
                ForwardDiff(start, e) + 1 == |ring| || At(ring, before).None? || At(ring, before).value.timestamp != timestamp
    requires AllStored(ring, b, e) && ForwardDiff(b, e) < |ring|
    ensures start == b
  {
    var i: nat := ForwardDiff(b, start);
    assert i <= ForwardDiff(b, e);
    PlusForwardDiff(b, start);
    Between(b, start, e);
    PlusPlus(b, i, -1);
    assert i > 0 ==> InPlace(ring, Plus(b, i - 1));
  }

  lemma Between(b: SeqNum, start: SeqNum, e: SeqNum)
    requires ForwardDiff(b, start) <= ForwardDiff(b, e)
    ensures ForwardDiff(start, e) == ForwardDiff(b, e) - ForwardDiff(b, start)
  {
  }

  // ----- what decides whether a frame is handed out

  ghost predicate HasUnit(f: Frame, u: Nalu) {
    exists i :: 0 <= i < |f| && f[i].nalus.Some? && u in f[i].nalus.value
  }

  /** A unit of that kind is in one of the `n` packets from the slot of `start` on. */
  ghost predicate SeesUnit(ring: Ring, start: SeqNum, n: nat, u: Nalu) {
    exists j: nat :: j < n && CarriesUnit(ring, Plus(start, j), u)
  }

  predicate CarriesUnit(ring: Ring, s: SeqNum, u: Nalu) {
    At(ring, s).Some? && At(ring, s).value.nalus.Some? && u in At(ring, s).value.nalus.value
  }

  /** A key picture, with both parameter sets if they are asked for. */
  predicate MakesKey(sps: bool, pps: bool, idr: bool, needsParameterSets: bool) {
    idr && (needsParameterSets ==> sps && pps)
  }

  lemma SeesOneMore(ring: Ring, start: SeqNum, n: nat, u: Nalu)
    ensures SeesUnit(ring, start, n + 1, u) <==> SeesUnit(ring, start, n, u) || CarriesUnit(ring, Plus(start, n), u)
  {
    hide CarriesUnit, Plus;
    if j: nat :| j < n && CarriesUnit(ring, Plus(start, j), u) {
      assert j < n + 1;
    }
    if CarriesUnit(ring, Plus(start, n), u) {
      assert n < n + 1;
    }
  }

  /** The walk sees every unit of the packets it comes by, and decides by them. */
  lemma {:induction false} WalkSees(
      ring: Ring, s: SeqNum, timestamp: int, tested: nat, seen: Seen, needsParameterSets: bool)
    requires |ring| <= 65536 && tested < |ring| && At(ring, s).Some? && At(ring, s).value.timestamp == timestamp
    requires WalkBack(ring, s, timestamp, tested, seen, needsParameterSets).Start?
    requires seen.key == MakesKey(seen.sps, seen.pps, seen.idr, needsParameterSets)
    ensures var w := WalkBack(ring, s, timestamp, tested, seen, needsParameterSets);
            var n := ForwardDiff(w.seqNum, s) + 1;
            && (w.seen.sps <==> seen.sps || SeesUnit(ring, w.seqNum, n, Sps))
            && (w.seen.pps <==> seen.pps || SeesUnit(ring, w.seqNum, n, Pps))
            && (w.seen.idr <==> seen.idr || SeesUnit(ring, w.seqNum, n, Idr))
            && w.seen.key == MakesKey(w.seen.sps, w.seen.pps, w.seen.idr, needsParameterSets)
    decreases |ring| - tested
  {
    hide SeesUnit, Slot, WalkBack, Plus, ForwardDiff;
    WalkOnce(ring, s, timestamp, tested, seen, needsParameterSets);
    var w := WalkBack(ring, s, timestamp, tested, seen, needsParameterSets);
    var start, k := w.seqNum, ForwardDiff(w.seqNum, s);
    WalkedOver(ring, s, timestamp, tested, seen, needsParameterSets);
    PlusForwardDiff(start, s);
    SeesOneMore(ring, start, k, Sps);
    SeesOneMore(ring, start, k, Pps);
    SeesOneMore(ring, start, k, Idr);
    var p, before := At(ring, s).value, Plus(s, -1);
    if tested + 1 == |ring| || At(ring, before).None? || At(ring, before).value.timestamp != timestamp {
      SeesNothing(ring, start);
      NoFurther(s);
    } else {
      var seen' := Absorb(seen, p, p.nalus.value, needsParameterSets);
      WalkSees(ring, before, timestamp, tested + 1, seen', needsParameterSets);
      WalkedOver(ring, before, timestamp, tested + 1, seen', needsParameterSets);
      OneFurther(start, before, s);
    }
  }

  lemma SeesNothing(ring: Ring, start: SeqNum)
    ensures forall u :: !SeesUnit(ring, start, 0, u)
  {
  }

  lemma TakenUnits(ring: Ring, start: SeqNum, s: SeqNum, seen: Seen, n: nat, u: Nalu)
    requires At(ring, start).Some? && forall j: nat | j < n :: At(Judged(ring, start, seen), Plus(start, j)).Some?
    ensures HasUnit(Taken(Judged(ring, start, seen), start, s, n), u) <==> SeesUnit(ring, start, n, u)
  {
    hide Plus, Slot;
    var judged := Judged(ring, start, seen);
    var f := Taken(judged, start, s, n);
    forall j: nat | j < n ensures f[j].nalus.Some? && u in f[j].nalus.value <==> CarriesUnit(ring, Plus(start, j), u) {
      assert At(judged, Plus(start, j)).Some?;
    }
    if j: nat :| j < n && CarriesUnit(ring, Plus(start, j), u) {
      assert u in f[j].nalus.value;
    }
    if i :| 0 <= i < |f| && f[i].nalus.Some? && u in f[i].nalus.value {
      var j: nat := i;
      assert CarriesUnit(ring, Plus(start, j), u);
    }
  }

  /** A frame is marked a keyframe exactly when it has a key picture, and the parameter sets if they are asked for;
      another one is handed out only if every number missing is ahead of its first packet. */
  ghost predicate Decided(f: Frame, missing: seq<SeqNum>, needsParameterSets: bool)
    requires f != []
  {
    && (f[0].isKey <==> MakesKey(HasUnit(f, Sps), HasUnit(f, Pps), HasUnit(f, Idr), needsParameterSets))
    && (f[0].isKey || missing == [] || AheadOf(missing[0], f[0].seqNum))
  }

  lemma DecideDecides(ring: Ring, missing: seq<SeqNum>, start: SeqNum, s: SeqNum, seen: Seen, needsParameterSets: bool)
    requires forall j: nat | j <= ForwardDiff(start, s) :: At(ring, Plus(start, j)).Some?
    requires InPlace(ring, start)
    requires var n := ForwardDiff(start, s) + 1;
             seen.key <==> MakesKey(SeesUnit(ring, start, n, Sps), SeesUnit(ring, start, n, Pps), SeesUnit(ring, start, n, Idr), needsParameterSets)
    ensures var r := Decide(ring, missing, start, s, seen);
            r.Hands? ==> Decided(r.frame, missing, needsParameterSets)
  {
    assert Plus(start, 0) == start;
    var n := ForwardDiff(start, s) + 1;
    SlotsStaySome(ring, start, seen, n);
    hide HasUnit, SeesUnit, MakesKey, Slot, Without, Plus, ForwardDiff;
    TakenUnits(ring, start, s, seen, n, Sps);
    TakenUnits(ring, start, s, seen, n, Pps);
    TakenUnits(ring, start, s, seen, n, Idr);
    NothingMissingUpTo(missing, start);
  }

  lemma NothingMissingUpTo(missing: seq<SeqNum>, s: SeqNum)
    ensures UpperBound(65536, missing, s) == 0 ==> missing == [] || AheadOf(missing[0], s)
  {
  }

  lemma WalkFromSees(ring: Ring, s: SeqNum, needsParameterSets: bool)
    requires |ring| <= 65536 && At(ring, s).Some?
    ensures var w := WalkFrom(ring, s, needsParameterSets);
            w.Start? ==>
              var n := ForwardDiff(w.seqNum, s) + 1;
              w.seen.key <==> MakesKey(SeesUnit(ring, w.seqNum, n, Sps), SeesUnit(ring, w.seqNum, n, Pps),
                                       SeesUnit(ring, w.seqNum, n, Idr), needsParameterSets)
  {
    hide WalkBack, SeesUnit, Slot;
    if WalkFrom(ring, s, needsParameterSets).Start? {
      WalkSees(ring, s, At(ring, s).value.timestamp, 0, NOTHING_SEEN, needsParameterSets);
    }
  }

  lemma IterateDecides(ring: Ring, missing: seq<SeqNum>, s: SeqNum, needsParameterSets: bool)
    requires |ring| <= 65536 && Potential(ring, s) && At(ring, s).value.h264
    ensures var r := Iterate(ring, missing, s, needsParameterSets);
            r.Hands? && IsWholeFrame(r.frame) ==>
              Decided(r.frame, missing, needsParameterSets) && r.frame[|r.frame| - 1].seqNum == s
  {
    hide WalkFrom, Decide, Decided, ForeignBehind, Slot, IsWholeFrame, SeesUnit, MakesKey;
    MarkedAlike(ring, s);
    hide Marked;
    var m, r := Marked(ring, s), Iterate(ring, missing, s, needsParameterSets);
    if r.Hands? && IsWholeFrame(r.frame) {
      var w := WalkFrom(m, s, needsParameterSets);
      DecidedIsWholeIff(m, missing, w.seqNum, s, w.seen);
      NoSteps(w.seqNum);
      WalkFromSees(m, s, needsParameterSets);
      DecideDecides(m, missing, w.seqNum, s, w.seen, needsParameterSets);
      EndsInLast(m, missing, w.seqNum, s, w.seen);
    }
  }

  lemma EndsInLast(ring: Ring, missing: seq<SeqNum>, start: SeqNum, s: SeqNum, seen: Seen)
    requires InPlace(ring, s) && forall j: nat | j <= ForwardDiff(start, s) :: At(ring, Plus(start, j)).Some?
    ensures var r := Decide(ring, missing, start, s, seen); r.Hands? ==> r.frame[|r.frame| - 1].seqNum == s
  {
    NoSteps(start);
    PlusForwardDiff(start, s);
    hide Without, UpperBound, Plus, ForwardDiff, Slot;
  }

  /** Each frame was decided on what was missing when the frames before it had been handed out. */
  ghost predicate AllDecided(frames: seq<Frame>, missing: seq<SeqNum>, needsParameterSets: bool) {
    frames == []
    || (&& frames[0] != [] && Decided(frames[0], missing, needsParameterSets)
        && AllDecided(frames[1..], EraseCompleted(missing, frames[0][|frames[0]| - 1].seqNum), needsParameterSets))
  }

  /** Over the whole search, where frames are whole, keyframes are those with a key picture, and no delta frame overtakes a
      missing packet. */
  lemma {:induction false} SearchDecides(ring: Ring, missing: seq<SeqNum>, s: SeqNum, n: nat, needsParameterSets: bool)
    requires |ring| <= 65536 && AllH264(ring)
    ensures var frames := Search(ring, missing, s, n, needsParameterSets).frames;
            (forall f | f in frames :: IsWholeFrame(f)) ==> AllDecided(frames, missing, needsParameterSets)
    decreases n
  {
    hide IsWholeFrame, Iterate, Potential, Decided, EraseCompleted, AllH264, Shrunk;
    if n != 0 && Potential(ring, s) && forall f | f in Search(ring, missing, s, n, needsParameterSets).frames :: IsWholeFrame(f) {
      var r := Iterate(ring, missing, s, needsParameterSets);
      IterateShrinks(ring, missing, s, needsParameterSets);
      ShrunkIsH264(ring, r.ring);
      AtH264(ring, s);
      IterateDecides(ring, missing, s, needsParameterSets);
      if r.GoesOn? {
        SearchDecides(r.ring, missing, Plus(s, 1), n - 1, needsParameterSets);
      } else if r.Hands? {
        var rest := Search(r.ring, EraseCompleted(missing, s), Plus(s, 1), n - 1, needsParameterSets).frames;
        SearchDecides(r.ring, EraseCompleted(missing, s), Plus(s, 1), n - 1, needsParameterSets);
        FirstAndRest(r.frame, rest);
      }
    }
  }

  lemma FirstAndRest(f: Frame, rest: seq<Frame>)
    ensures ([f] + rest)[0] == f && ([f] + rest)[1..] == rest && f in [f] + rest && forall g | g in rest :: g in [f] + rest
  {
  }
}
