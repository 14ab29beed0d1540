/** What becomes of a partly received frame whose first packets `ClearTo` has removed, for codecs other than H.264. Nothing
    goes wrong until its last packet arrives; then the search of packet_buffer.cpp reads an empty slot or hands out
    something that is no frame. */
module CutFrames {
  import opened SequenceNumbers
  import opened RingArithmetic
  import opened MissingPackets
  import opened PacketRing
  import opened RingSearch
  import opened FrameAssembly
  import opened SearchAgrees

  // ----- which packets no run leads to

  /** The packet before it is stored, of the same time and continuous. */
  predicate LinkedBack(m: Slots, t: SeqNum)
    requires t in m
  {
    var p := Plus(t, -1);
    p in m && m[p].timestamp == m[t].timestamp && m[p].continuous
  }

  /** A continuous packet inside a frame that has lost the packet before it. */
  predicate Orphan(m: Slots, t: SeqNum) {
    t in m && m[t].continuous && !m[t].isFirst && !LinkedBack(m, t)
  }

  predicate Inner(m: Slots, t: SeqNum) {
    t in m && !m[t].isFirst && LinkedBack(m, t)
  }

  /** The `k` packets back from `s` are inside one frame, each linked to the one before it. */
  ghost predicate LinkedFor(m: Slots, s: SeqNum, k: nat) {
    forall j: nat | j < k :: Inner(m, Back(s, j))
  }

  /** Back from `s`, link by link, there is an orphan. */
  ghost predicate HangsOnOrphan(m: Slots, s: SeqNum) {
    exists k: nat :: LinkedFor(m, s, k) && Orphan(m, Back(s, k))
  }

  lemma RunExcludesOrphan(m: Slots, s: SeqNum, b: SeqNum, n: nat, k: nat)
    requires Run(m, b, n) && Plus(b, n - 1) == s
    ensures !(LinkedFor(m, s, k) && Orphan(m, Back(s, k)))
  {
    hide Plus, Back;
    if k < n {
      BackInRun(b, n, k);
      assert RunPacket(m, b, n - 1 - k);
      if k < n - 1 {
        BackInRun(b, n, k + 1);
        BackOnce(s, k);
        assert RunPacket(m, b, n - 2 - k);
      }
    } else {
      BackInRun(b, n, n - 1);
      assert RunPacket(m, b, 0);
      var j: nat := n - 1;
      assert !Inner(m, Back(s, j));
    }
  }

  /** Continuous, `j` back from `s` and of its time. */
  predicate SameTime(m: Slots, s: SeqNum, j: nat)
    requires s in m
  {
    Back(s, j) in m && m[Back(s, j)].continuous && m[Back(s, j)].timestamp == m[s].timestamp
  }

  /** Going back from a continuous packet leads to a frame start or to an orphan within one round. */
  lemma {:induction false} RunOrOrphan(m: Slots, size: nat, s: SeqNum, k: nat)
    requires PowerOfTwo(size) && Spaced(m, size) && k < size
    requires LinkedFor(m, s, k) && s in m && forall j: nat | j <= k :: SameTime(m, s, j)
    ensures HasRun(m, s) || HangsOnOrphan(m, s)
    decreases size - k
  {
    hide Plus, Back, PowerOfTwo, HasRun, Run, Spaced;
    var t := Back(s, k);
    assert SameTime(m, s, k);
    BackOnce(s, k);
    if m[t].isFirst {
      PowerOfTwoBounds(size);
      LinkedRun(m, s, k);
    } else if LinkedBack(m, t) {
      NotAllAround(m, size, s, k);
      assert LinkedFor(m, s, k + 1);
      RunOrOrphan(m, size, s, k + 1);
    } else {
      assert Orphan(m, t);
    }
  }

  lemma NotAllAround(m: Slots, size: nat, s: SeqNum, k: nat)
    requires PowerOfTwo(size) && Spaced(m, size) && k < size && s in m && Back(s, k + 1) in m
    ensures k + 1 < size
  {
    if k + 1 == size {
      PowerOfTwoBounds(size);
      SlotAfterLap(Back(s, size), size);
      PlusPlus(s, 0 - size, size);
      PlusInjective(s, 0 - size, 0);
      NoSteps(s);
    }
  }

  lemma LinkedRun(m: Slots, s: SeqNum, k: nat)
    requires k < 65536 && LinkedFor(m, s, k) && s in m && forall j: nat | j <= k :: SameTime(m, s, j)
    requires Back(s, k) in m && m[Back(s, k)].isFirst
    ensures HasRun(m, s)
  {
    hide Plus, Back;
    var b := Back(s, k);
    FromBack(s, k);
    assert SameTime(m, s, k);
    forall j: nat | j < k + 1 ensures RunPacket(m, b, j) {
      var i: nat := k - j;
      BackInRun(b, k + 1, i);
      assert SameTime(m, s, i);
      assert i < k ==> Inner(m, Back(s, i));
      NoSteps(b);
    }
    assert Run(m, b, k + 1) && Plus(b, k + 1 - 1) == s;
  }

  lemma FromBack(s: SeqNum, k: nat)
    ensures Plus(Back(s, k), k) == s
  {
    PlusPlus(s, 0 - k, k);
  }

  /** A continuous packet is reached by a run exactly if it does not hang on an orphan. */
  lemma RunIffNoOrphan(m: Slots, size: nat, s: SeqNum)
    requires PowerOfTwo(size) && Spaced(m, size) && s in m && m[s].continuous
    ensures HasRun(m, s) <==> !HangsOnOrphan(m, s)
  {
    hide PowerOfTwo, Spaced, Run, Plus, Back;
    if HasRun(m, s) {
      var (b, n) := RunTo(m, s);
      forall k: nat ensures !(LinkedFor(m, s, k) && Orphan(m, Back(s, k))) {
        RunExcludesOrphan(m, s, b, n, k);
      }
    } else {
      BackNone(s);
      PowerOfTwoBounds(size);
      RunOrOrphan(m, size, s, 0);
    }
  }

  // ----- which searches complete a cut frame

  /** A search that starts at a packet a run leads to completes no cut frame. */
  lemma {:induction false} RunNeverCut(m: Slots, s: SeqNum, n: nat)
    requires PotentialNewFrame(m, s) ==> HasRun(FrameAssembly.Marked(m, s), s)
    ensures !CompletesCut(m, s, n)
    decreases n
  {
    hide Run, RunTo, Plus, Keys;
    if n != 0 && PotentialNewFrame(m, s) {
      var m1, t := FrameAssembly.Marked(m, s), Plus(s, 1);
      PlusPlus(s, 1, -1);
      NoSteps(s);
      if !m[s].isLast {
        if PotentialNewFrame(m1, t) {
          NextHasRun(m1, s);
        }
        RunNeverCut(m1, t, n - 1);
      } else {
        var (b, k) := RunTo(m1, s);
        RunIsNotEmpty(m1, b, k);
        InItsKeys(b, k);
        var m2 := m1 - Keys(b, k);
        if PotentialNewFrame(m2, t) {
          MarkStartsRun(m2, t);
          assert Run(FrameAssembly.Marked(m2, t), t, 1) && Plus(t, 1 - 1) == t;
        }
        RunNeverCut(m2, t, n - 1);
      }
    }
  }

  lemma InItsKeys(b: SeqNum, k: nat)
    requires k > 0
    ensures Plus(b, k - 1) in Keys(b, k)
  {
  }

  lemma NextHasRun(m: Slots, s: SeqNum)
    requires s in m && HasRun(m, s) && PotentialNewFrame(m, Plus(s, 1))
    ensures HasRun(FrameAssembly.Marked(m, Plus(s, 1)), Plus(s, 1))
  {
    hide Plus, Run;
    var t := Plus(s, 1);
    PlusPlus(s, 1, -1);
    NoSteps(s);
    if m[t].isFirst {
      MarkStartsRun(m, t);
      assert Run(FrameAssembly.Marked(m, t), t, 1) && Plus(t, 1 - 1) == t;
    } else {
      var (b, n) := RunTo(m, s);
      MarkExtendsRun(m, t, b, n);
      PlusPlus(b, n - 1, 1);
      assert Plus(b, n + 1 - 1) == t;
    }
  }

  /** The run to a packet inside a frame goes through the packet before it. */
  lemma RunOfPrevious(m: Slots, s: SeqNum)
    requires Plus(s, 1) in m && !m[Plus(s, 1)].isFirst && HasRun(FrameAssembly.Marked(m, Plus(s, 1)), Plus(s, 1))
    ensures HasRun(m, s)
  {
    var t := Plus(s, 1);
    var m1 := FrameAssembly.Marked(m, t);
    var (b, n) := RunTo(m1, t);
    PlusPlus(b, n - 1, -1);
    PlusPlus(s, 1, -1);
    NoSteps(s);
    hide Plus, HasRun, RunTo;
    assert RunPacket(m1, b, n - 1);
    assert n > 1 && Plus(b, n - 2) == s;
    ShorterRun(m, t, b, n);
  }

  lemma ShorterRun(m: Slots, t: SeqNum, b: SeqNum, n: nat)
    requires t in m && n > 1 && Run(FrameAssembly.Marked(m, t), b, n) && Plus(b, n - 1) == t
    ensures Run(m, b, n - 1) && Plus(b, n - 1 - 1) == Plus(b, n - 2)
  {
    var m1 := FrameAssembly.Marked(m, t);
    forall j: nat | j < n - 1 ensures RunPacket(m, b, j) {
      PlusInjective(b, j, n - 1);
      PlusInjective(b, 0, n - 1);
      NoSteps(b);
      hide Plus;
      assert RunPacket(m1, b, j) && RunPacket(m1, b, 0);
    }
  }

  ghost predicate TailPacket(m: Slots, s: SeqNum, e: nat, i: nat)
    requires s in m
  {
    && Plus(s, i) in m && m[Plus(s, i)].timestamp == m[s].timestamp
    && (i > 0 ==> !m[Plus(s, i)].isFirst)
    && (m[Plus(s, i)].isLast <==> i == e)
  }

  /** From `s` on the packets of its frame are stored up to its last one, `e` further on. */
  ghost predicate Tail(m: Slots, s: SeqNum, e: nat) {
    s in m && forall i: nat | i <= e :: TailPacket(m, s, e, i)
  }

  ghost predicate HasTail(m: Slots, s: SeqNum, n: nat) {
    exists e: nat :: e < n && Tail(m, s, e)
  }

  lemma TailOfNext(m: Slots, s: SeqNum, n: nat)
    requires s in m && !m[s].isLast && n > 0
    ensures HasTail(m, s, n) <==>
              var t := Plus(s, 1);
              t in m && m[t].timestamp == m[s].timestamp && !m[t].isFirst && HasTail(FrameAssembly.Marked(m, s), t, n - 1)
  {
    hide Plus;
    NoSteps(s);
    var t, m1 := Plus(s, 1), FrameAssembly.Marked(m, s);
    if HasTail(m, s, n) {
      var e: nat :| e < n && Tail(m, s, e);
      assert TailPacket(m, s, e, 0);
      assert e > 0 && TailPacket(m, s, e, 1);
      var d: nat := e - 1;
      forall i: nat | i <= d ensures TailPacket(m1, t, d, i) {
        PlusPlus(s, 1, i);
        assert TailPacket(m, s, e, i + 1);
      }
      assert Tail(m1, t, d);
    }
    if t in m && m[t].timestamp == m[s].timestamp && !m[t].isFirst && HasTail(m1, t, n - 1) {
      var e: nat :| e < n - 1 && Tail(m1, t, e);
      var d: nat := e + 1;
      forall i: nat | i <= d ensures TailPacket(m, s, d, i) {
        if i > 0 {
          PlusPlus(s, 1, i - 1);
          assert TailPacket(m1, t, e, i - 1);
        }
      }
      assert Tail(m, s, d);
    }
  }

  /** The search completes a cut frame exactly if no run leads to the packet it starts at, although that is continuous, and
      the rest of the frame is there up to its last packet. */
  lemma {:induction false} CompletesCutIff(m: Slots, s: SeqNum, n: nat)
    ensures CompletesCut(m, s, n) <==>
              PotentialNewFrame(m, s) && !HasRun(FrameAssembly.Marked(m, s), s) && HasTail(m, s, n)
    decreases n
  {
    hide HasRun, RunTo, Tail, Keys, Plus;
    if n != 0 && PotentialNewFrame(m, s) {
      var m1, t := FrameAssembly.Marked(m, s), Plus(s, 1);
      if HasRun(m1, s) {
        RunNeverCut(m, s, n);
      } else if m[s].isLast {
        LoneTail(m, s, n);
      } else {
        TailOfNext(m, s, n);
        CompletesCutIff(m1, t, n - 1);
        CutGoesOn(m1, s);
      }
    }
  }

  lemma LoneTail(m: Slots, s: SeqNum, n: nat)
    requires s in m && m[s].isLast && n > 0
    ensures HasTail(m, s, n)
  {
    NoSteps(s);
    hide Plus;
    assert TailPacket(m, s, 0, 0);
    assert Tail(m, s, 0);
  }

  lemma CutGoesOn(m: Slots, s: SeqNum)
    requires s in m && m[s].continuous && !HasRun(m, s)
    ensures var t := Plus(s, 1);
            PotentialNewFrame(m, t) && !HasRun(FrameAssembly.Marked(m, t), t)
            <==> t in m && m[t].timestamp == m[s].timestamp && !m[t].isFirst
  {
    var t := Plus(s, 1);
    PlusPlus(s, 1, -1);
    NoSteps(s);
    hide Plus, HasRun;
    if t in m {
      if m[t].isFirst {
        StartsItsRun(m, t);
      } else if HasRun(FrameAssembly.Marked(m, t), t) {
        RunOfPrevious(m, s);
      }
    }
  }

  lemma StartsItsRun(m: Slots, t: SeqNum)
    requires t in m && m[t].isFirst
    ensures HasRun(FrameAssembly.Marked(m, t), t)
  {
    MarkStartsRun(m, t);
    assert Run(FrameAssembly.Marked(m, t), t, 1) && Plus(t, 1 - 1) == t;
  }

  // ----- what the search does at its last packet

  /** Back from `s` the first slot that is empty or holds a frame start is an empty one, `k` slots on. */
  ghost predicate EmptyBehind(ring: Ring, s: SeqNum, k: nat) {
    && At(ring, Back(s, k)).None?
    && forall j: nat | j < k :: At(ring, Back(s, j)).Some? && !At(ring, Back(s, j)).value.isFirst
  }

  lemma {:induction false} MeetsEmptyAfter(ring: Ring, s: SeqNum, tested: nat)
    requires tested < |ring| && At(ring, Back(s, tested)).Some?
    requires forall j: nat | j < tested :: At(ring, Back(s, j)).Some? && !At(ring, Back(s, j)).value.isFirst
    ensures WalkToFirst(ring, Back(s, tested), tested).MeetsEmpty? <==> exists k: nat :: k < |ring| && EmptyBehind(ring, s, k)
    decreases |ring| - tested
  {
    hide At, Back, Plus, WalkToFirst;
    ToFirstOnce(ring, Back(s, tested), tested);
    BackOnce(s, tested);
    if k: nat :| k < |ring| && EmptyBehind(ring, s, k) {
      assert k > tested;
    }
    if !At(ring, Back(s, tested)).value.isFirst && tested + 1 < |ring| {
      if At(ring, Back(s, tested + 1)).None? {
        assert EmptyBehind(ring, s, tested + 1);
      } else {
        MeetsEmptyAfter(ring, s, tested + 1);
      }
    }
  }

  /** The walk reads an empty slot exactly if it comes to one before it comes to a frame start. */
  lemma MeetsEmptyIff(ring: Ring, s: SeqNum)
    requires |ring| <= 65536 && At(ring, s).Some?
    ensures FirstFrom(ring, s).MeetsEmpty? <==> exists k: nat :: k < |ring| && EmptyBehind(ring, s, k)
  {
    BackNone(s);
    hide At, Back, WalkToFirst;
    MeetsEmptyAfter(ring, s, 0);
  }

  lemma {:induction false} WalkEndsAfter(ring: Ring, s: SeqNum, tested: nat, k: nat)
    requires tested <= k < |ring| && forall j: nat | j <= k :: At(ring, Back(s, j)).Some?
    requires forall j: nat | j <= k :: At(ring, Back(s, j)).value.isFirst <==> j == k
    ensures WalkToFirst(ring, Back(s, tested), tested) == Begins(Back(s, k))
    decreases k - tested
  {
    hide At, Back, Plus, WalkToFirst;
    ToFirstOnce(ring, Back(s, tested), tested);
    BackOnce(s, tested);
    if tested < k {
      WalkEndsAfter(ring, s, tested + 1, k);
    }
  }

  /** The walk ends at the first frame start it comes to, whatever number that has. */
  lemma WalkEndsAt(ring: Ring, s: SeqNum, k: nat)
    requires k < |ring| <= 65536 && forall j: nat | j <= k :: At(ring, Back(s, j)).Some?
    requires forall j: nat | j <= k :: At(ring, Back(s, j)).value.isFirst <==> j == k
    ensures At(ring, s).Some? && FirstFrom(ring, s) == Begins(Back(s, k))
  {
    BackNone(s);
    hide At, Back, WalkToFirst;
    assert At(ring, Back(s, 0)).Some?;
    WalkEndsAfter(ring, s, 0, k);
  }

  /** A whole frame that begins with a packet received as a frame start. */
  ghost predicate Genuine(m: Slots, f: Frame) {
    IsWholeFrame(f) && f[0].seqNum in m && m[f[0].seqNum].isFirst
  }

  /** Where the walk passes there is no frame start. */
  lemma {:induction false} PassesNoStart(ring: Ring, s: SeqNum, tested: nat)
    requires |ring| <= 65536 && At(ring, s).Some? && tested < |ring| && WalkToFirst(ring, s, tested).Begins?
    ensures var start := WalkToFirst(ring, s, tested).seqNum;
            forall j: nat | 0 < j <= ForwardDiff(start, s) ::
              At(ring, Plus(start, j)).Some? && !At(ring, Plus(start, j)).value.isFirst
    decreases |ring| - tested
  {
    hide Slot, Plus, ForwardDiff, WalkToFirst;
    ToFirstOnce(ring, s, tested);
    var start := WalkToFirst(ring, s, tested).seqNum;
    if At(ring, s).value.isFirst || tested + 1 == |ring| {
      NoFurther(s);
    } else {
      PassesNoStart(ring, Plus(s, -1), tested + 1);
      WalkedToFirst(ring, Plus(s, -1), tested + 1);
      OneFurther(start, Plus(s, -1), s);
      PlusForwardDiff(start, s);
    }
  }

  /** Where all marks but that of `s` are set, stored packets from a frame start on are marked. */
  lemma {:induction false} PrefixIsMarked(m: Slots, s: SeqNum, b: SeqNum, n: nat)
    requires ClosedExcept(m, s) && b in m && m[b].isFirst
    requires forall j: nat | j < n :: Plus(b, j) in m && m[Plus(b, j)].timestamp == m[b].timestamp && Plus(b, j) != s
    ensures forall j: nat | j < n :: m[Plus(b, j)].continuous
  {
    if n > 0 {
      PrefixIsMarked(m, s, b, n - 1);
      PlusPlus(b, n - 1, -1);
      NoSteps(b);
      assert PotentialNewFrame(m, Plus(b, n - 1));
    }
  }

  lemma StoredFrameHasRun(m: Slots, s: SeqNum, b: SeqNum, n: nat)
    requires ClosedExcept(m, s) && 0 < n <= 65536 && Plus(b, n - 1) == s && s in m && b in m
    requires forall j: nat | j < n :: Plus(b, j) in m && m[Plus(b, j)].timestamp == m[b].timestamp && (m[Plus(b, j)].isFirst <==> j == 0)
    ensures HasRun(FrameAssembly.Marked(m, s), s)
  {
    NoSteps(b);
    forall j: nat | j < n - 1 ensures Plus(b, j) != s {
      PlusInjective(b, j, n - 1);
    }
    hide Plus;
    assert m[b].isFirst by {
      assert Plus(b, 0) in m;
    }
    PrefixIsMarked(m, s, b, n - 1);
    var m1 := FrameAssembly.Marked(m, s);
    forall j: nat | j < n ensures RunPacket(m1, b, j) {
    }
    assert Run(m1, b, n);
  }

  /** At the last packet of a frame the search hands out a genuine frame exactly if a run leads to that packet. Otherwise it
      hands out something else, unless it reads an empty slot. */
  lemma AtLastPacket(ring: Ring, missing: seq<SeqNum>, s: SeqNum, needsParameterSets: bool)
    requires ValidRing(ring) && Potential(ring, s) && !At(ring, s).value.h264 && At(ring, s).value.isLast
    requires Plain(StoredIn(ring)) && ClosedExcept(StoredIn(ring), s)
    ensures var m, r := StoredIn(ring), Iterate(ring, missing, s, needsParameterSets);
            && s in m
            && (HasRun(FrameAssembly.Marked(m, s), s) <==> r.Hands? && Genuine(m, r.frame))
            && (!r.Hands? <==> r.Breaks?)
            && (r.Breaks? <==> exists k: nat :: k < |ring| && EmptyBehind(RingSearch.Marked(ring, s), s, k))
  {
    hide PowerOfTwo, StoredIn, Addressed, Plain, ClosedExcept, HasRun, FirstFrom, EmptyBehind;
    PotentialAgrees(ring, s);
    MarkAgrees(ring, s);
    assert s in StoredIn(ring) by {
      hide Iterate;
    }
    var m, r := StoredIn(ring), Iterate(ring, missing, s, needsParameterSets);
    var marked := RingSearch.Marked(ring, s);
    MeetsEmptyIff(marked, s);
    IterationAgrees(ring, missing, s, needsParameterSets);
    if HasRun(FrameAssembly.Marked(m, s), s) {
      RunIsGenuine(m, s);
    }
    if r.Hands? && Genuine(m, r.frame) {
      GenuineHasRun(ring, s, FirstFrom(marked, s).seqNum);
    }
  }

  lemma RunIsGenuine(m: Slots, s: SeqNum)
    requires Plain(m) && PotentialNewFrame(m, s) && m[s].isLast && HasRun(FrameAssembly.Marked(m, s), s)
    ensures var (b, k) := RunTo(FrameAssembly.Marked(m, s), s);
            Genuine(m, Extract(FrameAssembly.Marked(m, s), b, k))
  {
    assert s in m;
    var m1 := FrameAssembly.Marked(m, s);
    var (b, k) := RunTo(m1, s);
    hide Plain, HasRun, Extract, IsWholeFrame, PotentialNewFrame, Run, RunTo, Plus;
    RunBegins(m1, b, k);
    ExtractIsWholeFrame(m, s, b, k);
    NoSteps(b);
    KeyedOfPlain(m);
    assert Extract(m1, b, k)[0] == m[Plus(b, 0)].(continuous := true);
  }

  lemma RunBegins(m: Slots, b: SeqNum, k: nat)
    requires Run(m, b, k)
    ensures k > 0 && b in m && m[b].isFirst
  {
    NoSteps(b);
    assert RunPacket(m, b, 0);
  }

  lemma GenuineHasRun(ring: Ring, s: SeqNum, start: SeqNum)
    requires ValidRing(ring) && InPlace(ring, s) && FirstFrom(RingSearch.Marked(ring, s), s) == Begins(start)
    requires ClosedExcept(StoredIn(ring), s)
    requires var marked, n := RingSearch.Marked(ring, s), ForwardDiff(start, s) + 1;
             Genuine(StoredIn(ring), Taken(marked, start, s, n))
    ensures s in StoredIn(ring) && HasRun(FrameAssembly.Marked(StoredIn(ring), s), s)
  {
    var marked, n := RingSearch.Marked(ring, s), ForwardDiff(start, s) + 1;
    var m := StoredIn(ring);
    MarkAgrees(ring, s);
    PassesNoStart(marked, s, 0);
    hide ClosedExcept, WalkToFirst, Taken, IsWholeFrame, PowerOfTwo, Addressed, HasRun;
    WholeIsInPlace(marked, start, s, n);
    PlusForwardDiff(start, s);
    NoSteps(start);
    hide Plus, ForwardDiff;
    forall j: nat | j < n ensures Plus(start, j) in m && m[Plus(start, j)].timestamp == m[start].timestamp
                                  && (m[Plus(start, j)].isFirst <==> j == 0) {
      AsStored(ring, s, Plus(start, j));
      AsStored(ring, s, start);
    }
    StoredFrameHasRun(m, s, start, n);
  }

  lemma AsStored(ring: Ring, s: SeqNum, t: SeqNum)
    requires InPlace(ring, s) && InPlace(RingSearch.Marked(ring, s), t)
    ensures var p := At(RingSearch.Marked(ring, s), t).value;
            t in StoredIn(ring) && StoredIn(ring)[t].timestamp == p.timestamp && StoredIn(ring)[t].isFirst == p.isFirst
  {
  }

  // ----- the whole search

  /** The same packets, or fewer, as far as frame starts go. */
  ghost predicate Within(m: Slots, m': Slots) {
    forall t | t in m' :: t in m && m'[t].isFirst == m[t].isFirst
  }

  lemma GenuineWithin(m: Slots, m': Slots, frames: seq<Frame>)
    requires Within(m, m') && forall f | f in frames :: Genuine(m', f)
    ensures forall f | f in frames :: Genuine(m, f)
  {
    hide IsWholeFrame;
  }

  /** Frames of a search that completes no cut frame are genuine. */
  lemma {:induction false} FramesAreGenuine(m: Slots, s: SeqNum, n: nat)
    requires Plain(m) && !CompletesCut(m, s, n)
    ensures forall f | f in FindFrames(m, s, n).1 :: Genuine(m, f)
    decreases n
  {
    hide FindFrames, CompletesCut, Plain, HasRun, Run, RunTo, Extract, Keys, Genuine, PotentialNewFrame;
    if n == 0 || !PotentialNewFrame(m, s) {
      FindFramesStops(m, s, n);
    } else {
      FindFramesStep(m, s, n);
      var m1 := FrameAssembly.Marked(m, s);
      if !m[s].isLast {
        FramesAreGenuine(m1, Plus(s, 1), n - 1);
        GenuineWithin(m, m1, FindFrames(m1, Plus(s, 1), n - 1).1);
      } else {
        RunIsGenuine(m, s);
        var (b, k) := RunTo(m1, s);
        var m2 := m1 - Keys(b, k);
        FramesAreGenuine(m2, Plus(s, 1), n - 1);
        GenuineWithin(m, m2, FindFrames(m2, Plus(s, 1), n - 1).1);
      }
    }
  }

  /** What goes wrong in a search. */
  ghost predicate GoesWrong(m: Slots, r: Outcome) {
    r.broken || exists f :: f in r.frames && !Genuine(m, f)
  }

  lemma {:induction false} CutGoesWrong(ring: Ring, missing: seq<SeqNum>, s: SeqNum, n: nat, needsParameterSets: bool)
    requires ValidRing(ring) && Generic(ring)
    requires Plain(StoredIn(ring)) && ClosedExcept(StoredIn(ring), s) && CompletesCut(StoredIn(ring), s, n)
    ensures GoesWrong(StoredIn(ring), Search(ring, missing, s, n, needsParameterSets))
    decreases n
  {
    hide Iterate, Potential, PotentialNewFrame, StoredIn, Addressed, PowerOfTwo, Plain, Generic, ClosedExcept,
         HasRun, RunTo, Keys, Genuine, EraseCompleted, Shrunk;
    var m := StoredIn(ring);
    PotentialAgrees(ring, s);
    PotentialIsGeneric(ring, s);
    IterationAgrees(ring, missing, s, needsParameterSets);
    var m1, r := FrameAssembly.Marked(m, s), Iterate(ring, missing, s, needsParameterSets);
    if !m[s].isLast {
      MarkAgrees(ring, s);
      MarkKeepsGeneric(ring, s);
      StepKeepsClosed(m, s, {});
      assert m1 - {} == m1;
      PlainWhenMarked(m, s);
      CutGoesWrong(r.ring, missing, Plus(s, 1), n - 1, needsParameterSets);
      StillWrong(m, m1, Search(ring, missing, s, n, needsParameterSets));
    } else {
      if HasRun(m1, s) {
        CutEndsHere(m, s, n);
      }
      StoredAtSlot(ring, s);
      AtLastPacket(ring, missing, s, needsParameterSets);
      if r.Hands? {
        assert r.frame in Search(ring, missing, s, n, needsParameterSets).frames;
      }
    }
  }

  lemma StoredAtSlot(ring: Ring, s: SeqNum)
    requires InPlace(ring, s)
    ensures s in StoredIn(ring) && StoredIn(ring)[s] == At(ring, s).value
  {
  }

  lemma PlainWhenMarked(m: Slots, s: SeqNum)
    requires Plain(m) && s in m && !m[s].isLast
    ensures Plain(FrameAssembly.Marked(m, s))
  {
  }

  lemma StillWrong(m: Slots, m1: Slots, r: Outcome)
    requires Within(m, m1) && Within(m1, m) && GoesWrong(m1, r)
    ensures GoesWrong(m, r)
  {
    hide IsWholeFrame;
  }

  lemma CutEndsHere(m: Slots, s: SeqNum, n: nat)
    requires PotentialNewFrame(m, s) && HasRun(FrameAssembly.Marked(m, s), s)
    ensures !CompletesCut(m, s, n)
  {
    RunNeverCut(m, s, n);
  }

  /** A search goes wrong, by reading an empty slot or handing out something that is no genuine frame, exactly if it
      completes a frame whose first packets are gone. */
  lemma GoesWrongIff(ring: Ring, missing: seq<SeqNum>, s: SeqNum, n: nat, needsParameterSets: bool)
    requires ValidRing(ring) && Generic(ring) && Plain(StoredIn(ring)) && ClosedExcept(StoredIn(ring), s)
    ensures GoesWrong(StoredIn(ring), Search(ring, missing, s, n, needsParameterSets)) <==> CompletesCut(StoredIn(ring), s, n)
  {
    hide ValidRing, Generic, Plain, ClosedExcept, Search, CompletesCut, StoredIn, Genuine;
    if CompletesCut(StoredIn(ring), s, n) {
      CutGoesWrong(ring, missing, s, n, needsParameterSets);
    } else {
      SearchAgreesWithMap(ring, missing, s, n, needsParameterSets);
      FramesAreGenuine(StoredIn(ring), s, n);
    }
  }
}
