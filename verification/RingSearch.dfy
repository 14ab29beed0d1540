/** `PacketBuffer::FindFrames` (packet_buffer.cpp) on any ring of slots. At the last packet of a frame it walks back to
    the first one. For H.264 there is no trustworthy frame start, so it walks as long as the timestamp is the same,
    decides on the way whether this is a keyframe, and hands a delta frame out only if nothing before it is missing; for
    other codecs it walks to a packet marked as first, whatever packets it comes by, and reads an empty slot as if it
    held one. */
module RingSearch {
  import opened SequenceNumbers
  import opened RingArithmetic
  import opened OrderedNumbers
  import opened MissingPackets
  import opened Options
  import opened PacketRing

  predicate Potential(ring: Ring, s: SeqNum) {
    && InPlace(ring, s)
    && (At(ring, s).value.isFirst
        || (var p := Plus(s, -1);
            InPlace(ring, p) && At(ring, p).value.timestamp == At(ring, s).value.timestamp && At(ring, p).value.continuous))
  }

  // ----- the walk back, H.264

  /** What the walk has come by: parameter sets and key pictures, whether they make a keyframe, and its resolution. */
  datatype Seen = Seen(sps: bool, pps: bool, idr: bool, key: bool, width: int, height: int)

  const NOTHING_SEEN := Seen(false, false, false, false, -1, -1)

  function Absorb(seen: Seen, p: Packet, nalus: seq<Nalu>, needsParameterSets: bool): Seen {
    var sps, pps, idr := seen.sps || Sps in nalus, seen.pps || Pps in nalus, seen.idr || Idr in nalus;
    var sized := p.width > 0 && p.height > 0;
    if idr && (needsParameterSets ==> sps && pps) then
      Seen(sps, pps, idr, true, if sized then p.width else seen.width, if sized then p.height else seen.height)
    else seen.(sps := sps, pps := pps, idr := idr)
  }

  /** Where the walk ends: at the first packet of the frame, or nowhere if a packet has no usable header. */
  datatype Walk = GivesUp | Start(seqNum: SeqNum, seen: Seen)

  /** The walk from packet `s` on, after `tested` packets; all of the same time. */
  function WalkBack(ring: Ring, s: SeqNum, timestamp: int, tested: nat, seen: Seen, needsParameterSets: bool): (w: Walk)
    requires At(ring, s).Some? && tested < |ring|
    decreases |ring| - tested
  {
    var p := At(ring, s).value;
    if p.nalus.None? then GivesUp
    else
      var seen' := Absorb(seen, p, p.nalus.value, needsParameterSets);
      var before := Plus(s, -1);
      if tested + 1 == |ring| || At(ring, before).None? || At(ring, before).value.timestamp != timestamp then Start(s, seen')
      else WalkBack(ring, before, timestamp, tested + 1, seen', needsParameterSets)
  }

  lemma NoFurther(s: SeqNum)
    ensures ForwardDiff(s, s) == 0 && Plus(s, 0) == s
  {
  }

  lemma NoSteps(s: SeqNum)
    ensures Plus(s, 0) == s
  {
  }

  lemma OneFurther(start: SeqNum, before: SeqNum, s: SeqNum)
    requires before == Plus(s, -1) && ForwardDiff(start, before) < 65535
    ensures ForwardDiff(start, s) == ForwardDiff(start, before) + 1
  {
  }

  /** The walk, unfolded once. */
  lemma WalkOnce(ring: Ring, s: SeqNum, timestamp: int, tested: nat, seen: Seen, needsParameterSets: bool)
    requires At(ring, s).Some? && tested < |ring|
    ensures var p, before := At(ring, s).value, Plus(s, -1);
            WalkBack(ring, s, timestamp, tested, seen, needsParameterSets)
            == if p.nalus.None? then GivesUp
               else
                 var seen' := Absorb(seen, p, p.nalus.value, needsParameterSets);
                 if tested + 1 == |ring| || At(ring, before).None? || At(ring, before).value.timestamp != timestamp
                 then Start(s, seen')
                 else WalkBack(ring, before, timestamp, tested + 1, seen', needsParameterSets)
  {
    hide At, Plus, Absorb;
  }

  /** What lies between the end of the walk and the packet it began at: no empty slot, one timestamp. */
  lemma {:induction false} WalkedOver(ring: Ring, s: SeqNum, timestamp: int, tested: nat, seen: Seen, needsParameterSets: bool)
    requires |ring| <= 65536 && tested < |ring| && At(ring, s).Some? && At(ring, s).value.timestamp == timestamp
    requires WalkBack(ring, s, timestamp, tested, seen, needsParameterSets).Start?
    ensures var start := WalkBack(ring, s, timestamp, tested, seen, needsParameterSets).seqNum;
            var k := ForwardDiff(start, s);
            && tested + k < |ring|
            && forall j: nat | j <= k :: At(ring, Plus(start, j)).Some? && At(ring, Plus(start, j)).value.timestamp == timestamp
    decreases |ring| - tested
  {
    hide Absorb, Slot;
    var start := WalkBack(ring, s, timestamp, tested, seen, needsParameterSets).seqNum;
    if start == s && ForwardDiff(start, s) == 0 {
      assert Plus(s, 0) == s;
    }
    var p, before := At(ring, s).value, Plus(s, -1);
    if !(tested + 1 == |ring| || At(ring, before).None? || At(ring, before).value.timestamp != timestamp) {
      var seen' := Absorb(seen, p, p.nalus.value, needsParameterSets);
      WalkedOver(ring, before, timestamp, tested + 1, seen', needsParameterSets);
      OneFurther(start, before, s);
      forall j: nat | j <= ForwardDiff(start, s)
        ensures At(ring, Plus(start, j)).Some? && At(ring, Plus(start, j)).value.timestamp == timestamp
      {
        if j == ForwardDiff(start, s) {
          PlusForwardDiff(start, s);
        }
      }
    }
  }

  /** The walk from the last packet of a frame. */
  function WalkFrom(ring: Ring, s: SeqNum, needsParameterSets: bool): (w: Walk)
    requires |ring| <= 65536 && At(ring, s).Some?
    ensures w.Start? ==>
              var k := ForwardDiff(w.seqNum, s);
              k < |ring| && forall j: nat | j <= k :: At(ring, Plus(w.seqNum, j)).Some?
  {
    var w := WalkBack(ring, s, At(ring, s).value.timestamp, 0, NOTHING_SEEN, needsParameterSets);
    if w.Start? then
      WalkedOver(ring, s, At(ring, s).value.timestamp, 0, NOTHING_SEEN, needsParameterSets);
      w
    else w
  }

  // ----- the walk back, other codecs

  /** Where that walk ends: at a first packet or a full round on, or at an empty slot. */
  datatype Found = MeetsEmpty | Begins(seqNum: SeqNum)

  /** The walk from packet `s` on, after `tested` packets. */
  function WalkToFirst(ring: Ring, s: SeqNum, tested: nat): (w: Found)
    requires At(ring, s).Some? && tested < |ring|
    decreases |ring| - tested
  {
    if At(ring, s).value.isFirst || tested + 1 == |ring| then Begins(s)
    else if At(ring, Plus(s, -1)).None? then MeetsEmpty
    else WalkToFirst(ring, Plus(s, -1), tested + 1)
  }

  lemma {:induction false} WalkedToFirst(ring: Ring, s: SeqNum, tested: nat)
    requires |ring| <= 65536 && At(ring, s).Some? && tested < |ring| && WalkToFirst(ring, s, tested).Begins?
    ensures var start := WalkToFirst(ring, s, tested).seqNum;
            var k := ForwardDiff(start, s);
            tested + k < |ring| && forall j: nat | j <= k :: At(ring, Plus(start, j)).Some?
    decreases |ring| - tested
  {
    hide Slot, Plus, ForwardDiff, WalkToFirst;
    ToFirstOnce(ring, s, tested);
    var start := WalkToFirst(ring, s, tested).seqNum;
    if At(ring, s).value.isFirst || tested + 1 == |ring| {
      NoFurther(s);
    } else {
      WalkedToFirst(ring, Plus(s, -1), tested + 1);
      OneFurther(start, Plus(s, -1), s);
      PlusForwardDiff(start, s);
    }
  }

  /** That walk, unfolded once. */
  lemma ToFirstOnce(ring: Ring, s: SeqNum, tested: nat)
    requires At(ring, s).Some? && tested < |ring|
    ensures WalkToFirst(ring, s, tested)
            == if At(ring, s).value.isFirst || tested + 1 == |ring| then Begins(s)
               else if At(ring, Plus(s, -1)).None? then MeetsEmpty
               else WalkToFirst(ring, Plus(s, -1), tested + 1)
  {
  }

  /** The walk from the last packet of a frame. */
  function FirstFrom(ring: Ring, s: SeqNum): (w: Found)
    requires |ring| <= 65536 && At(ring, s).Some?
    ensures w.Begins? ==>
              var k := ForwardDiff(w.seqNum, s);
              k < |ring| && forall j: nat | j <= k :: At(ring, Plus(w.seqNum, j)).Some?
  {
    var w := WalkToFirst(ring, s, 0);
    if w.Begins? then
      WalkedToFirst(ring, s, 0);
      w
    else w
  }

  // ----- one iteration

  function Marked(ring: Ring, s: SeqNum): Ring
    requires InPlace(ring, s)
  {
    ring[Slot(s, |ring|) := Some(At(ring, s).value.(continuous := true))]
  }

  /** The first packet learns whether the frame is a keyframe, and of which size. */
  function Judged(ring: Ring, start: SeqNum, seen: Seen): (r: Ring)
    requires At(ring, start).Some?
    ensures |r| == |ring|
  {
    var p := At(ring, start).value.(isKey := seen.key);
    ring[Slot(start, |ring|) := Some(if seen.key && seen.width > 0 && seen.height > 0
                                     then p.(width := seen.width, height := seen.height) else p)]
  }

  /** The ring without the `n` slots from that of `start` on. */
  function Without(ring: Ring, start: SeqNum, n: nat): (r: Ring)
    ensures |r| == |ring|
  {
    if n == 0 then ring else Without(ring, start, n - 1)[Slot(Plus(start, n - 1), |ring|) := None]
  }

  /** The `n` packets from the slot of `start` on, with the boundary flags the search writes on them. */
  function Taken(ring: Ring, start: SeqNum, s: SeqNum, n: nat): (f: Frame)
    requires forall j: nat | j < n :: At(ring, Plus(start, j)).Some?
    ensures |f| == n
  {
    seq(n, (j: nat) requires j < n =>
      At(ring, Plus(start, j)).value.(isFirst := Plus(start, j) == start, isLast := Plus(start, j) == s))
  }

  lemma SlotsStaySome(ring: Ring, start: SeqNum, seen: Seen, n: nat)
    requires At(ring, start).Some? && forall j: nat | j < n :: At(ring, Plus(start, j)).Some?
    ensures forall j: nat | j < n :: At(Judged(ring, start, seen), Plus(start, j)).Some?
  {
  }

  /** What one iteration comes to: the search reads an empty slot, ends, goes on with the next number, or hands a frame
      out and goes on. */
  datatype Iteration = Breaks(ring: Ring) | Stops(ring: Ring) | GoesOn(ring: Ring) | Hands(ring: Ring, frame: Frame)

  /** Hands out the packets from `start` to `s`. */
  function HandOut(ring: Ring, start: SeqNum, s: SeqNum): (r: Iteration)
    requires forall j: nat | j <= ForwardDiff(start, s) :: At(ring, Plus(start, j)).Some?
    ensures |r.ring| == |ring| && r.Hands? && r.frame != []
  {
    var n := ForwardDiff(start, s) + 1;
    Hands(Without(ring, start, n), Taken(ring, start, s, n))
  }

  /** Hands out the packets from `start` to `s`, unless they are a delta frame and something before it is missing. */
  function Decide(ring: Ring, missing: seq<SeqNum>, start: SeqNum, s: SeqNum, seen: Seen): (r: Iteration)
    requires forall j: nat | j <= ForwardDiff(start, s) :: At(ring, Plus(start, j)).Some?
    ensures |r.ring| == |ring| && !r.Breaks? && (r.Hands? ==> r.frame != [])
  {
    NoSteps(start);
    SlotsStaySome(ring, start, seen, ForwardDiff(start, s) + 1);
    var judged := Judged(ring, start, seen);
    if !seen.key && UpperBound(65536, missing, start) != 0 then Stops(judged) else HandOut(judged, start, s)
  }

  function Iterate(ring: Ring, missing: seq<SeqNum>, s: SeqNum, needsParameterSets: bool): (r: Iteration)
    requires |ring| <= 65536 && Potential(ring, s)
    ensures |r.ring| == |ring| && (r.Hands? ==> r.frame != [])
  {
    var m := Marked(ring, s);
    var p := At(m, s).value;
    if !p.isLast then GoesOn(m)
    else if p.h264 then
      var w := WalkFrom(m, s, needsParameterSets);
      if w.GivesUp? then Stops(m) else Decide(m, missing, w.seqNum, s, w.seen)
    else
      var w := FirstFrom(m, s);
      if w.MeetsEmpty? then Breaks(m) else HandOut(m, w.seqNum, s)
  }

  /** `broken` if the search read an empty slot; what then happens is undefined. */
  datatype Outcome = Outcome(ring: Ring, missing: seq<SeqNum>, frames: seq<Frame>, broken: bool)

  /** The loop of the search from number `s` with `n` iterations left. */
  function Search(ring: Ring, missing: seq<SeqNum>, s: SeqNum, n: nat, needsParameterSets: bool): (r: Outcome)
    requires |ring| <= 65536
    ensures |r.ring| == |ring|
    decreases n
  {
    if n == 0 || !Potential(ring, s) then Outcome(ring, missing, [], false)
    else
      match Iterate(ring, missing, s, needsParameterSets)
      case Breaks(r) => Outcome(r, missing, [], true)
      case Stops(r) => Outcome(r, missing, [], false)
      case GoesOn(r) => Search(r, missing, Plus(s, 1), n - 1, needsParameterSets)
      case Hands(r, f) =>
        var rest := Search(r, EraseCompleted(missing, s), Plus(s, 1), n - 1, needsParameterSets);
        rest.(frames := [f] + rest.frames)
  }

  // ----- whole frames

  /** The packets in the slots from `start` to `s` are whole only if they are those of the numbers. */
  lemma WholeIsInPlace(ring: Ring, start: SeqNum, s: SeqNum, n: nat)
    requires n == ForwardDiff(start, s) + 1 && InPlace(ring, s)
    requires forall j: nat | j < n :: At(ring, Plus(start, j)).Some?
    requires IsWholeFrame(Taken(ring, start, s, n))
    ensures Taken(ring, start, s, n)[0].seqNum == start
    ensures forall j: nat | j < n :: InPlace(ring, Plus(start, j))
    ensures forall j: nat | j < n :: At(ring, Plus(start, j)).value.timestamp == At(ring, start).value.timestamp
  {
    var f := Taken(ring, start, s, n);
    PlusForwardDiff(start, s);
    NoSteps(start);
    hide Plus, At;
    assert FramePacket(f, n - 1) && FramePacket(f, 0);
    PlusTogether(f[0].seqNum, n - 1, start, n - 1, 1 - n);
    NoSteps(f[0].seqNum);
    forall j: nat | j < n
      ensures At(ring, Plus(start, j)).value.seqNum == Plus(start, j)
      ensures At(ring, Plus(start, j)).value.timestamp == At(ring, start).value.timestamp
    {
      assert FramePacket(f, j);
    }
  }

  // ----- packets only leave

  lemma {:induction false} WithoutShrinks(ring: Ring, start: SeqNum, n: nat)
    ensures Shrunk(ring, Without(ring, start, n))
  {
    hide Slot, Plus;
    if n > 0 {
      WithoutShrinks(ring, start, n - 1);
    }
  }

  lemma JudgedShrinks(ring: Ring, start: SeqNum, seen: Seen)
    requires At(ring, start).Some?
    ensures Shrunk(ring, Judged(ring, start, seen))
  {
    hide Slot;
  }

  lemma MarkShrinks(ring: Ring, s: SeqNum)
    requires InPlace(ring, s)
    ensures Shrunk(ring, Marked(ring, s)) && InPlace(Marked(ring, s), s)
  {
  }

  lemma IterateCases(ring: Ring, missing: seq<SeqNum>, s: SeqNum, needsParameterSets: bool)
    requires |ring| <= 65536 && Potential(ring, s)
    ensures var m, r := Marked(ring, s), Iterate(ring, missing, s, needsParameterSets);
            || (r.ring == m && !r.Hands?)
            || exists start: SeqNum, seen: Seen :: Leads(m, r, start, s, seen)
  {
    hide WalkFrom, FirstFrom, Slot, Decide, HandOut;
    var m := Marked(ring, s);
    MarkShrinks(ring, s);
    if At(m, s).value.isLast {
      if At(m, s).value.h264 {
        var w := WalkFrom(m, s, needsParameterSets);
        if w.Start? {
          DecideCases(m, missing, w.seqNum, s, w.seen);
          assert Leads(m, Decide(m, missing, w.seqNum, s, w.seen), w.seqNum, s, w.seen);
        }
      } else {
        var w := FirstFrom(m, s);
        if w.Begins? {
          HandOutLeads(m, w.seqNum, s);
          assert Leads(m, HandOut(m, w.seqNum, s), w.seqNum, s, NOTHING_SEEN);
        }
      }
    }
  }

  /** From the marked ring the iteration judges the packet at `start`, or does not, and hands out from there, or does not. */
  ghost predicate Leads(m: Ring, r: Iteration, start: SeqNum, s: SeqNum, seen: Seen) {
    var n := ForwardDiff(start, s) + 1;
    && n <= |m| && At(m, start).Some?
    && (forall j: nat | j < n :: At(m, Plus(start, j)).Some? && At(Judged(m, start, seen), Plus(start, j)).Some?)
    && var judged := Judged(m, start, seen);
       || r == Stops(judged)
       || r == Hands(Without(judged, start, n), Taken(judged, start, s, n))
       || r == Hands(Without(m, start, n), Taken(m, start, s, n))
  }

  lemma DecideCases(ring: Ring, missing: seq<SeqNum>, start: SeqNum, s: SeqNum, seen: Seen)
    requires ForwardDiff(start, s) < |ring| && forall j: nat | j <= ForwardDiff(start, s) :: At(ring, Plus(start, j)).Some?
    ensures Leads(ring, Decide(ring, missing, start, s, seen), start, s, seen)
  {
    NoSteps(start);
    SlotsStaySome(ring, start, seen, ForwardDiff(start, s) + 1);
    hide At, Plus, Without, Taken, Judged, UpperBound, ForwardDiff;
  }

  lemma HandOutLeads(ring: Ring, start: SeqNum, s: SeqNum)
    requires ForwardDiff(start, s) < |ring| && forall j: nat | j <= ForwardDiff(start, s) :: At(ring, Plus(start, j)).Some?
    ensures Leads(ring, HandOut(ring, start, s), start, s, NOTHING_SEEN)
  {
    NoSteps(start);
    SlotsStaySome(ring, start, NOTHING_SEEN, ForwardDiff(start, s) + 1);
    hide At, Plus, Without, Taken, Judged, ForwardDiff;
  }

  lemma IterateShrinks(ring: Ring, missing: seq<SeqNum>, s: SeqNum, needsParameterSets: bool)
    requires |ring| <= 65536 && Potential(ring, s)
    ensures Shrunk(ring, Iterate(ring, missing, s, needsParameterSets).ring)
  {
    hide Iterate, Slot, Shrunk, Judged, Without, Taken, Marked;
    MarkShrinks(ring, s);
    var m, r := Marked(ring, s), Iterate(ring, missing, s, needsParameterSets);
    IterateCases(ring, missing, s, needsParameterSets);
    if r.ring != m {
      var start: SeqNum, seen: Seen :| Leads(m, r, start, s, seen);
      var judged, n := Judged(m, start, seen), ForwardDiff(start, s) + 1;
      JudgedShrinks(m, start, seen);
      WithoutShrinks(judged, start, n);
      WithoutShrinks(m, start, n);
      ShrinkingComposes(m, judged, Without(judged, start, n));
      ShrinkingComposes(ring, m, r.ring);
    }
  }

  lemma ShrunkItself(ring: Ring)
    ensures Shrunk(ring, ring)
  {
  }

  /** Whatever the ring holds, the search leaves no packet that was not there, nor any in another slot. */
  lemma {:induction false} SearchShrinks(ring: Ring, missing: seq<SeqNum>, s: SeqNum, n: nat, needsParameterSets: bool)
    requires |ring| <= 65536
    ensures Shrunk(ring, Search(ring, missing, s, n, needsParameterSets).ring)
    decreases n
  {
    hide Iterate, Potential, Shrunk, EraseCompleted;
    ShrunkItself(ring);
    if n != 0 && Potential(ring, s) {
      var r := Iterate(ring, missing, s, needsParameterSets);
      IterateShrinks(ring, missing, s, needsParameterSets);
      if r.GoesOn? || r.Hands? {
        var missing' := if r.GoesOn? then missing else EraseCompleted(missing, s);
        SearchShrinks(r.ring, missing', Plus(s, 1), n - 1, needsParameterSets);
        ShrinkingComposes(ring, r.ring, Search(r.ring, missing', Plus(s, 1), n - 1, needsParameterSets).ring);
      }
    }
  }

  // ----- conservation

  /** A packet without what the search writes on it. */
  function Ident(p: Packet): Packet {
    p.(isFirst := false, isLast := false, continuous := false, isKey := false, width := 0, height := 0)
  }

  function One(entry: Option<Packet>): multiset<Packet> {
    if entry.Some? then multiset{Ident(entry.value)} else multiset{}
  }

  function Bag(slots: seq<Option<Packet>>): multiset<Packet> {
    if slots == [] then multiset{} else Bag(slots[..|slots| - 1]) + One(slots[|slots| - 1])
  }

  function FrameBag(f: Frame): multiset<Packet> {
    if f == [] then multiset{} else FrameBag(f[..|f| - 1]) + multiset{Ident(f[|f| - 1])}
  }

  function FramesBag(frames: seq<Frame>): multiset<Packet> {
    if frames == [] then multiset{} else FrameBag(frames[0]) + FramesBag(frames[1..])
  }

  lemma {:induction false} BagUpdate(slots: seq<Option<Packet>>, i: nat, entry: Option<Packet>)
    requires i < |slots|
    ensures Bag(slots[i := entry]) + One(slots[i]) == Bag(slots) + One(entry)
  {
    hide One, Bag;
    var k := |slots| - 1;
    var before, after := slots[..k], slots[i := entry];
    BagStep(slots);
    BagStep(after);
    if i < k {
      BagUpdate(before, i, entry);
      assert after[..k] == before[i := entry];
      Shuffles(Bag(after[..k]), One(slots[i]), Bag(before), One(entry), One(slots[k]));
    } else {
      assert after[..k] == before;
      Swaps(Bag(before), One(slots[i]), One(entry));
    }
  }

  lemma BagStep(slots: seq<Option<Packet>>)
    requires slots != []
    ensures Bag(slots) == Bag(slots[..|slots| - 1]) + One(slots[|slots| - 1])
  {
  }

  lemma Swaps(a: multiset<Packet>, x: multiset<Packet>, y: multiset<Packet>)
    ensures (a + y) + x == (a + x) + y
  {
  }

  lemma Shuffles(a: multiset<Packet>, x: multiset<Packet>, b: multiset<Packet>, y: multiset<Packet>, z: multiset<Packet>)
    requires a + x == b + y
    ensures (a + z) + x == (b + z) + y
  {
    assert (a + z) + x == (a + x) + z;
  }

  /** Slots of the run before its last one are other slots. */
  lemma {:induction false} WithoutElsewhere(ring: Ring, start: SeqNum, n: nat, k: nat)
    requires PowerOfTwo(|ring|) && n <= k < |ring|
    ensures At(Without(ring, start, n), Plus(start, k)) == At(ring, Plus(start, k))
    decreases n
  {
    hide Slot, PowerOfTwo, Plus;
    if n > 0 {
      WithoutElsewhere(ring, start, n - 1, k);
      StepsToSlotExact(start, Plus(start, k), |ring|, n - 1);
      StepsToSlotExact(start, Plus(start, k), |ring|, k);
    }
  }

  lemma {:induction false} TakingConserves(ring: Ring, start: SeqNum, s: SeqNum, n: nat)
    requires PowerOfTwo(|ring|) && n <= |ring| && forall j: nat | j < n :: At(ring, Plus(start, j)).Some?
    ensures Bag(ring) == Bag(Without(ring, start, n)) + FrameBag(Taken(ring, start, s, n))
    decreases n
  {
    hide Slot, PowerOfTwo, Plus, Bag, FrameBag, Taken, One;
    if n == 0 {
      NothingTaken(ring, start, s);
    } else {
      TakingConserves(ring, start, s, n - 1);
      WithoutElsewhere(ring, start, n - 1, n - 1);
      var rest := Without(ring, start, n - 1);
      BagUpdate(rest, Slot(Plus(start, n - 1), |ring|), None);
      OneMoreTaken(ring, start, s, n);
      var one := One(At(ring, Plus(start, n - 1)));
      NothingIsEmpty();
      Regroups(Bag(Without(ring, start, n)), one, Bag(rest), FrameBag(Taken(ring, start, s, n - 1)));
    }
  }

  lemma NothingIsEmpty()
    ensures One(None) == multiset{}
  {
  }

  lemma Regroups(a: multiset<Packet>, one: multiset<Packet>, b: multiset<Packet>, f: multiset<Packet>)
    requires a + one == b
    ensures b + f == a + (f + one)
  {
  }

  lemma NothingTaken(ring: Ring, start: SeqNum, s: SeqNum)
    ensures FrameBag(Taken(ring, start, s, 0)) == multiset{}
  {
  }

  lemma OneMoreTaken(ring: Ring, start: SeqNum, s: SeqNum, n: nat)
    requires n > 0 && forall j: nat | j < n :: At(ring, Plus(start, j)).Some?
    ensures FrameBag(Taken(ring, start, s, n)) == FrameBag(Taken(ring, start, s, n - 1)) + One(At(ring, Plus(start, n - 1)))
  {
    hide Slot, Plus;
    assert Taken(ring, start, s, n)[..n - 1] == Taken(ring, start, s, n - 1);
  }

  lemma JudgedConserves(ring: Ring, start: SeqNum, seen: Seen)
    requires At(ring, start).Some?
    ensures Bag(Judged(ring, start, seen)) == Bag(ring)
  {
    hide Bag;
    BagUpdate(ring, Slot(start, |ring|), At(Judged(ring, start, seen), start));
    SameOnBothSides(Bag(Judged(ring, start, seen)), Bag(ring), One(At(ring, start)));
  }

  lemma MarkConserves(ring: Ring, s: SeqNum)
    requires InPlace(ring, s)
    ensures Bag(Marked(ring, s)) == Bag(ring)
  {
    hide Bag;
    BagUpdate(ring, Slot(s, |ring|), At(Marked(ring, s), s));
    SameOnBothSides(Bag(Marked(ring, s)), Bag(ring), One(At(ring, s)));
  }

  lemma SameOnBothSides(a: multiset<Packet>, b: multiset<Packet>, x: multiset<Packet>)
    requires a + x == b + x
    ensures a == b
  {
    assert a == (a + x) - x == (b + x) - x == b;
  }

  lemma LeadsConserves(m: Ring, r: Iteration, start: SeqNum, s: SeqNum, seen: Seen)
    requires PowerOfTwo(|m|) && Leads(m, r, start, s, seen)
    ensures Bag(m) == Bag(r.ring) + if r.Hands? then FrameBag(r.frame) else multiset{}
  {
    hide Slot, Bag, FrameBag, PowerOfTwo, Judged, Without, Taken, At, Plus, ForwardDiff;
    var judged, n := Judged(m, start, seen), ForwardDiff(start, s) + 1;
    JudgedConserves(m, start, seen);
    if r == Hands(Without(judged, start, n), Taken(judged, start, s, n)) {
      TakingConserves(judged, start, s, n);
    } else if r.Hands? {
      TakingConserves(m, start, s, n);
    }
  }

  lemma IterateConserves(ring: Ring, missing: seq<SeqNum>, s: SeqNum, needsParameterSets: bool)
    requires PowerOfTwo(|ring|) && |ring| <= 65536 && Potential(ring, s)
    ensures var r := Iterate(ring, missing, s, needsParameterSets);
            Bag(ring) == Bag(r.ring) + if r.Hands? then FrameBag(r.frame) else multiset{}
  {
    MarkConserves(ring, s);
    hide Iterate, Slot, Bag, FrameBag, PowerOfTwo, Marked, Leads;
    var m, r := Marked(ring, s), Iterate(ring, missing, s, needsParameterSets);
    MarkShrinks(ring, s);
    IterateCases(ring, missing, s, needsParameterSets);
    if r.ring != m || r.Hands? {
      var start: SeqNum, seen: Seen :| Leads(m, r, start, s, seen);
      LeadsConserves(m, r, start, s, seen);
    }
  }

  /** Whatever the ring holds, no packet is lost, repeated or altered but for flags and resolution. */
  lemma {:induction false} SearchConserves(ring: Ring, missing: seq<SeqNum>, s: SeqNum, n: nat, needsParameterSets: bool)
    requires PowerOfTwo(|ring|) && |ring| <= 65536
    ensures var r := Search(ring, missing, s, n, needsParameterSets);
            Bag(ring) == Bag(r.ring) + FramesBag(r.frames)
    decreases n
  {
    hide Iterate, Potential, PowerOfTwo, Bag, FrameBag, EraseCompleted;
    if n != 0 && Potential(ring, s) {
      IterateConserves(ring, missing, s, needsParameterSets);
      var r := Iterate(ring, missing, s, needsParameterSets);
      if r.GoesOn? {
        SearchConserves(r.ring, missing, Plus(s, 1), n - 1, needsParameterSets);
      } else if r.Hands? {
        SearchConserves(r.ring, EraseCompleted(missing, s), Plus(s, 1), n - 1, needsParameterSets);
        var rest := Search(r.ring, EraseCompleted(missing, s), Plus(s, 1), n - 1, needsParameterSets);
        assert ([r.frame] + rest.frames)[1..] == rest.frames;
      }
    }
  }
}
