/** The search over the slots of a ring finds what the search over the stored packets does, for codecs other than H.264
    and as long as it completes no frame whose first packets are gone; and what it does at such a frame. */
module SearchAgrees {
  import opened SequenceNumbers
  import opened RingArithmetic
  import opened MissingPackets
  import opened Options
  import opened PacketRing
  import opened RingSearch
  import opened FrameAssembly

  /** No packet is H.264. */
  ghost predicate Generic(ring: Ring) {
    forall i | 0 <= i < |ring| && ring[i].Some? :: !ring[i].value.h264
  }

  /** Every completed frame removes the missing numbers up to its end. */
  function EraseFrames(missing: seq<SeqNum>, frames: seq<Frame>): seq<SeqNum> {
    if frames == [] then missing
    else if frames[0] == [] then EraseFrames(missing, frames[1..])
    else EraseFrames(EraseCompleted(missing, frames[0][|frames[0]| - 1].seqNum), frames[1..])
  }

  lemma PotentialAgrees(ring: Ring, s: SeqNum)
    ensures Potential(ring, s) <==> PotentialNewFrame(StoredIn(ring), s)
  {
  }

  lemma MarkAgrees(ring: Ring, s: SeqNum)
    requires Addressed(ring) && InPlace(ring, s)
    ensures Addressed(RingSearch.Marked(ring, s)) && StoredIn(RingSearch.Marked(ring, s)) == FrameAssembly.Marked(StoredIn(ring), s)
    ensures At(RingSearch.Marked(ring, s), s) == Some(StoredIn(ring)[s].(continuous := true))
  {
    PutInRing(ring, At(ring, s).value.(continuous := true));
  }

  lemma MarkKeepsGeneric(ring: Ring, s: SeqNum)
    requires Generic(ring) && InPlace(ring, s)
    ensures Generic(RingSearch.Marked(ring, s))
  {
  }

  /** A run of stored packets is no longer than the ring. */
  lemma RunFits(m: Slots, size: nat, b: SeqNum, n: nat)
    requires PowerOfTwo(size) && Spaced(m, size) && Run(m, b, n)
    ensures n <= size
  {
    PowerOfTwoBounds(size);
    SlotAfterLap(b, size);
    PlusInjective(b, size, 0);
    assert Plus(b, 0) == b;
    hide PowerOfTwo, Plus;
    assert RunPacket(m, b, 0);
    assert n > size ==> RunPacket(m, b, size);
  }

  /** The ring at step `j` of a run. */
  lemma RunInRing(ring: Ring, b: SeqNum, n: nat, j: nat)
    requires Run(StoredIn(ring), b, n) && j < n
    ensures InPlace(ring, Plus(b, j)) && Plus(b, j) in StoredIn(ring)
    ensures At(ring, Plus(b, j)).value == StoredIn(ring)[Plus(b, j)]
    ensures At(ring, Plus(b, j)).value.isFirst <==> j == 0
  {
    assert RunPacket(StoredIn(ring), b, j);
  }

  /** The walk back from the end of a run ends where the run begins. */
  lemma {:induction false} WalkFollowsRun(ring: Ring, b: SeqNum, n: nat, i: nat)
    requires Run(StoredIn(ring), b, n) && i < n <= |ring|
    ensures At(ring, Plus(b, i)).Some? && WalkToFirst(ring, Plus(b, i), n - 1 - i) == Begins(b)
    decreases i
  {
    hide WalkToFirst, Run, Plus, StoredIn, At;
    RunInRing(ring, b, n, i);
    ToFirstOnce(ring, Plus(b, i), n - 1 - i);
    NoSteps(b);
    if i > 0 {
      PlusPlus(b, i, -1);
      WalkFollowsRun(ring, b, n, i - 1);
    }
  }

  lemma RunIsNotEmpty(m: Slots, b: SeqNum, k: nat)
    requires Run(m, b, k)
    ensures k > 0
  {
  }

  lemma FirstOfRun(ring: Ring, s: SeqNum)
    requires ValidRing(ring) && HasRun(StoredIn(ring), s)
    ensures At(ring, s).Some? && FirstFrom(ring, s) == Begins(RunTo(StoredIn(ring), s).0)
    ensures var (b, k) := RunTo(StoredIn(ring), s); k == ForwardDiff(b, s) + 1
  {
    var (b, k) := RunTo(StoredIn(ring), s);
    hide WalkToFirst, Run, RunTo, StoredIn, HasRun, PowerOfTwo, Addressed, Spaced, Plus, ForwardDiff, At;
    RunIsNotEmpty(StoredIn(ring), b, k);
    StoredIsAddressed(ring);
    RunFits(StoredIn(ring), |ring|, b, k);
    PowerOfTwoBounds(|ring|);
    WalkFollowsRun(ring, b, k, k - 1);
    StepsOfRun(b, k);
  }

  lemma StepsOfRun(b: SeqNum, k: nat)
    requires 0 < k <= 65536
    ensures ForwardDiff(b, Plus(b, k - 1)) == k - 1
  {
  }

  /** The ring without the first packets of a run. */
  lemma {:induction false} TakingAgrees(ring: Ring, b: SeqNum, n: nat, k: nat)
    requires ValidRing(ring) && Run(StoredIn(ring), b, n) && k <= n <= |ring|
    ensures Addressed(Without(ring, b, k)) && StoredIn(Without(ring, b, k)) == StoredIn(ring) - Keys(b, k)
    decreases k
  {
    hide StoredIn, Addressed, Run, Plus, PowerOfTwo, Slot, Keys;
    if k == 0 {
      NoKeys(b, StoredIn(ring));
    } else {
      TakingAgrees(ring, b, n, k - 1);
      RunInRing(ring, b, n, k - 1);
      WithoutElsewhere(ring, b, k - 1, k - 1);
      TakeFromRing(Without(ring, b, k - 1), Slot(Plus(b, k - 1), |ring|));
      OneMoreKey(b, k, StoredIn(ring));
    }
  }

  lemma NoKeys(b: SeqNum, m: Slots)
    ensures m - Keys(b, 0) == m
  {
    assert Keys(b, 0) == {};
  }

  lemma OneMoreKey(b: SeqNum, k: nat, m: Slots)
    requires k > 0
    ensures (m - Keys(b, k - 1)) - {Plus(b, k - 1)} == m - Keys(b, k)
  {
    assert Keys(b, k) == Keys(b, k - 1) + {Plus(b, k - 1)};
  }

  lemma TakenIsExtracted(ring: Ring, b: SeqNum, n: nat)
    requires Run(StoredIn(ring), b, n) && n < 65536
    ensures forall j: nat | j < n :: At(ring, Plus(b, j)).Some?
    ensures Taken(ring, b, Plus(b, n - 1), n) == Extract(StoredIn(ring), b, n)
  {
    hide StoredIn, Plus, At;
    NoSteps(b);
    forall j: nat | j < n
      ensures Plus(b, j) in StoredIn(ring)
      ensures At(ring, Plus(b, j)).Some? && At(ring, Plus(b, j)).value == StoredIn(ring)[Plus(b, j)]
      ensures Plus(b, j) == b <==> j == 0
      ensures Plus(b, j) == Plus(b, n - 1) <==> j == n - 1
    {
      RunInRing(ring, b, n, j);
      PlusInjective(b, j, 0);
      PlusInjective(b, j, n - 1);
    }
  }

  /** One iteration at a packet that does not end a frame, or ends one that a run leads to. */
  lemma IterationAgrees(ring: Ring, missing: seq<SeqNum>, s: SeqNum, needsParameterSets: bool)
    requires ValidRing(ring) && Potential(ring, s) && !At(ring, s).value.h264
    ensures var m, r := StoredIn(ring), Iterate(ring, missing, s, needsParameterSets);
            s in m &&
            var m1 := FrameAssembly.Marked(m, s);
            && (!m[s].isLast ==> r == GoesOn(RingSearch.Marked(ring, s)))
            && (m[s].isLast && HasRun(m1, s) ==>
                  var (b, k) := RunTo(m1, s);
                  && r.Hands? && r.frame == Extract(m1, b, k)
                  && Addressed(r.ring) && StoredIn(r.ring) == m1 - Keys(b, k))
  {
    hide HasRun, RunTo, PowerOfTwo, StoredIn, WalkFrom, FirstFrom, Addressed, Extract, Keys, Without, Taken;
    MarkAgrees(ring, s);
    assert s in StoredIn(ring) by {
      PotentialAgrees(ring, s);
    }
    var m1, marked := FrameAssembly.Marked(StoredIn(ring), s), RingSearch.Marked(ring, s);
    if At(ring, s).value.isLast && HasRun(m1, s) {
      FirstOfRun(marked, s);
      var (b, k) := RunTo(m1, s);
      StoredIsAddressed(marked);
      RunFits(m1, |ring|, b, k);
      PowerOfTwoBounds(|ring|);
      TakingAgrees(marked, b, k, k);
      TakenIsExtracted(marked, b, k);
    }
  }

  /** The whole search: the same frames, the same packets left, and the missing numbers erased frame by frame. */
  lemma {:induction false} SearchAgreesWithMap(ring: Ring, missing: seq<SeqNum>, s: SeqNum, n: nat, needsParameterSets: bool)
    requires ValidRing(ring) && Generic(ring)
    requires Plain(StoredIn(ring)) && !CompletesCut(StoredIn(ring), s, n)
    ensures var (m, frames) := FindFrames(StoredIn(ring), s, n);
            var r := Search(ring, missing, s, n, needsParameterSets);
            && !r.broken && r.frames == frames && r.missing == EraseFrames(missing, frames)
            && Addressed(r.ring) && StoredIn(r.ring) == m
    decreases n
  {
    hide FindFrames, CompletesCut, Iterate, Potential, PotentialNewFrame, StoredIn, Addressed, PowerOfTwo, Plain, Generic,
         HasRun, RunTo, Extract, Keys, EraseFrames, EraseCompleted, Shrunk;
    var m := StoredIn(ring);
    PotentialAgrees(ring, s);
    if n == 0 || !Potential(ring, s) {
      FindFramesStops(m, s, n);
      NoFrames(missing);
    } else {
      FindFramesStep(m, s, n);
      PotentialIsGeneric(ring, s);
      IterationAgrees(ring, missing, s, needsParameterSets);
      IterateShrinks(ring, missing, s, needsParameterSets);
      var r := Iterate(ring, missing, s, needsParameterSets);
      ShrunkIsGeneric(ring, r.ring);
      if !m[s].isLast {
        MarkAgrees(ring, s);
        SearchAgreesWithMap(r.ring, missing, Plus(s, 1), n - 1, needsParameterSets);
      } else {
        var m1 := FrameAssembly.Marked(m, s);
        var (b, k) := RunTo(m1, s);
        ExtractEndsIn(m, s, b, k);
        SearchAgreesWithMap(r.ring, EraseCompleted(missing, s), Plus(s, 1), n - 1, needsParameterSets);
        FirstFrameErased(missing, r.frame, FindFrames(StoredIn(r.ring), Plus(s, 1), n - 1).1);
      }
    }
  }

  lemma PotentialIsGeneric(ring: Ring, s: SeqNum)
    requires Generic(ring) && Potential(ring, s)
    ensures !At(ring, s).value.h264 && InPlace(ring, s)
  {
  }

  lemma ShrunkIsGeneric(ring: Ring, ring': Ring)
    requires Generic(ring) && Shrunk(ring, ring')
    ensures Generic(ring')
  {
  }

  lemma ExtractEndsIn(m: Slots, s: SeqNum, b: SeqNum, k: nat)
    requires Plain(m) && PotentialNewFrame(m, s) && m[s].isLast
    requires Run(FrameAssembly.Marked(m, s), b, k) && Plus(b, k - 1) == s
    ensures var f := Extract(FrameAssembly.Marked(m, s), b, k); f != [] && f[|f| - 1].seqNum == s
  {
    hide Plain, Extract, HasRun, IsWholeFrame;
    ExtractedPacket(m, s, b, k, k - 1);
    ExtractedPacket(m, s, b, k, 0);
    KeyedOfPlain(m);
  }

  lemma KeyedOfPlain(m: Slots)
    requires Plain(m)
    ensures Keyed(m)
  {
  }

  lemma NoFrames(missing: seq<SeqNum>)
    ensures EraseFrames(missing, []) == missing
  {
  }

  lemma FirstFrameErased(missing: seq<SeqNum>, f: Frame, frames: seq<Frame>)
    requires f != []
    ensures EraseFrames(missing, [f] + frames) == EraseFrames(EraseCompleted(missing, f[|f| - 1].seqNum), frames)
  {
    assert ([f] + frames)[1..] == frames;
  }
}
