/** The resolution an H.264 keyframe is handed out with. */
module H264Resolution {
  import opened SequenceNumbers
  import opened RingArithmetic
  import opened PacketRing
  import opened RingSearch
  import opened H264Search
  import opened MissingRuns

  /** A unit of that kind is in one of the packets up to `i` back from `s`. */
  ghost predicate UnitWithin(ring: Ring, s: SeqNum, i: nat, u: Nalu) {
    exists j: nat :: j <= i && CarriesUnit(ring, Back(s, j), u)
  }

  predicate HasSize(ring: Ring, s: SeqNum) {
    At(ring, s).Some? && At(ring, s).value.width > 0 && At(ring, s).value.height > 0
  }

  /** The packet `i` back from `s` has a size, and from it on, with what was seen behind `s`, there is a key picture. */
  ghost predicate Sizes(ring: Ring, s: SeqNum, i: nat, seen: Seen, needsParameterSets: bool) {
    && HasSize(ring, Back(s, i))
    && MakesKey(seen.sps || UnitWithin(ring, s, i, Sps), seen.pps || UnitWithin(ring, s, i, Pps),
                seen.idr || UnitWithin(ring, s, i, Idr), needsParameterSets)
  }

  lemma UnitFurther(ring: Ring, s: SeqNum, i: nat, u: Nalu)
    ensures UnitWithin(ring, s, i, u) <==> CarriesUnit(ring, s, u) || (i > 0 && UnitWithin(ring, Plus(s, -1), i - 1, u))
  {
    hide CarriesUnit, Plus;
    BackNone(s);
    if j: nat :| j <= i && CarriesUnit(ring, Back(s, j), u) {
      if j > 0 {
        BackStep(s, j);
        assert CarriesUnit(ring, Back(Plus(s, -1), j - 1), u);
      }
    }
    if CarriesUnit(ring, s, u) {
      assert CarriesUnit(ring, Back(s, 0), u);
    }
    if i > 0 {
      if j: nat :| j <= i - 1 && CarriesUnit(ring, Back(Plus(s, -1), j), u) {
        BackStep(s, j + 1);
        assert CarriesUnit(ring, Back(s, j + 1), u);
      }
    }
  }

  lemma BackStep(s: SeqNum, i: nat)
    requires i > 0
    ensures Back(s, i) == Back(Plus(s, -1), i - 1)
  {
    PlusPlus(s, -1, 1 - i);
  }

  /** One packet absorbed, the others lie one less back. */
  lemma SizesFurther(ring: Ring, s: SeqNum, i: nat, seen: Seen, needsParameterSets: bool)
    requires At(ring, s).Some? && At(ring, s).value.nalus.Some?
    ensures var p := At(ring, s).value;
            var seen' := Absorb(seen, p, p.nalus.value, needsParameterSets);
            && (i > 0 ==> (Sizes(ring, s, i, seen, needsParameterSets) <==> Sizes(ring, Plus(s, -1), i - 1, seen', needsParameterSets)))
            && (i == 0 ==> (seen'.width, seen'.height) == if Sizes(ring, s, 0, seen, needsParameterSets) then (p.width, p.height)
                                                         else (seen.width, seen.height))
  {
    BackNone(s);
    if i > 0 {
      BackStep(s, i);
    }
    hide Plus, Back, UnitWithin, Slot;
    forall u: Nalu ensures UnitWithin(ring, s, i, u) <==> CarriesUnit(ring, s, u) || (i > 0 && UnitWithin(ring, Plus(s, -1), i - 1, u)) {
      UnitFurther(ring, s, i, u);
    }
  }

  /** The size found on a walk back from `s` by `k` packets is that of the packet furthest back that sizes. */
  ghost predicate SizedBy(ring: Ring, s: SeqNum, k: nat, seen: Seen, needsParameterSets: bool, width: int, height: int) {
    if exists i: nat :: i <= k && Sizes(ring, s, i, seen, needsParameterSets) then
      exists i: nat :: i <= k && FurthestSizing(ring, s, k, i, seen, needsParameterSets)
                       && width == At(ring, Back(s, i)).value.width && height == At(ring, Back(s, i)).value.height
    else width == seen.width && height == seen.height
  }

  ghost predicate FurthestSizing(ring: Ring, s: SeqNum, k: nat, i: nat, seen: Seen, needsParameterSets: bool) {
    Sizes(ring, s, i, seen, needsParameterSets) && forall j: nat | i < j <= k :: !Sizes(ring, s, j, seen, needsParameterSets)
  }

  lemma SizedFurther(ring: Ring, s: SeqNum, k: nat, seen: Seen, needsParameterSets: bool, width: int, height: int)
    requires At(ring, s).Some? && At(ring, s).value.nalus.Some?
    requires var p := At(ring, s).value;
             var seen' := Absorb(seen, p, p.nalus.value, needsParameterSets);
             if k == 0 then (width, height) == (seen'.width, seen'.height)
             else SizedBy(ring, Plus(s, -1), k - 1, seen', needsParameterSets, width, height)
    ensures SizedBy(ring, s, k, seen, needsParameterSets, width, height)
  {
    var p := At(ring, s).value;
    var before, seen' := Plus(s, -1), Absorb(seen, p, p.nalus.value, needsParameterSets);
    forall i: nat | 0 < i <= k
      ensures Sizes(ring, s, i, seen, needsParameterSets) <==> Sizes(ring, before, i - 1, seen', needsParameterSets)
      ensures Back(s, i) == Back(before, i - 1)
    {
      SizesFurther(ring, s, i, seen, needsParameterSets);
      BackStep(s, i);
    }
    SizesFurther(ring, s, 0, seen, needsParameterSets);
    BackNone(s);
    hide Absorb, Sizes, Plus, Back, At;
    if k > 0 && exists i: nat :: i <= k - 1 && Sizes(ring, before, i, seen', needsParameterSets) {
      SizedFromBehind(ring, s, k, seen, before, seen', needsParameterSets, width, height);
    } else {
      forall j: nat | 0 < j <= k ensures !Sizes(ring, s, j, seen, needsParameterSets) {
        assert !Sizes(ring, before, j - 1, seen', needsParameterSets);
      }
      assert Sizes(ring, s, 0, seen, needsParameterSets) ==> FurthestSizing(ring, s, k, 0, seen, needsParameterSets);
    }
  }

  lemma SizedFromBehind(ring: Ring, s: SeqNum, k: nat, seen: Seen, before: SeqNum, seen': Seen, needsParameterSets: bool,
                        width: int, height: int)
    requires k > 0 && SizedBy(ring, before, k - 1, seen', needsParameterSets, width, height)
    requires exists i: nat :: i <= k - 1 && Sizes(ring, before, i, seen', needsParameterSets)
    requires forall i: nat | 0 < i <= k ::
               (Sizes(ring, s, i, seen, needsParameterSets) <==> Sizes(ring, before, i - 1, seen', needsParameterSets))
               && Back(s, i) == Back(before, i - 1)
    ensures SizedBy(ring, s, k, seen, needsParameterSets, width, height)
  {
    hide UnitWithin, MakesKey, Back, At;
    var i: nat :| i <= k - 1 && FurthestSizing(ring, before, k - 1, i, seen', needsParameterSets)
                  && width == At(ring, Back(before, i)).value.width && height == At(ring, Back(before, i)).value.height;
    assert Sizes(ring, s, i + 1, seen, needsParameterSets);
    forall j: nat | i + 1 < j <= k ensures !Sizes(ring, s, j, seen, needsParameterSets) {
      assert !Sizes(ring, before, j - 1, seen', needsParameterSets);
    }
    assert FurthestSizing(ring, s, k, i + 1, seen, needsParameterSets);
  }

  lemma {:induction false} WalkSizes(ring: Ring, s: SeqNum, timestamp: int, tested: nat, seen: Seen, needsParameterSets: bool)
    requires |ring| <= 65536 && tested < |ring| && At(ring, s).Some? && At(ring, s).value.timestamp == timestamp
    requires WalkBack(ring, s, timestamp, tested, seen, needsParameterSets).Start?
    ensures var w := WalkBack(ring, s, timestamp, tested, seen, needsParameterSets);
            SizedBy(ring, s, ForwardDiff(w.seqNum, s), seen, needsParameterSets, w.seen.width, w.seen.height)
    decreases |ring| - tested
  {
    hide SizedBy, Slot, WalkBack, Plus, ForwardDiff, Absorb;
    WalkOnce(ring, s, timestamp, tested, seen, needsParameterSets);
    var w := WalkBack(ring, s, timestamp, tested, seen, needsParameterSets);
    var p, before := At(ring, s).value, Plus(s, -1);
    if tested + 1 == |ring| || At(ring, before).None? || At(ring, before).value.timestamp != timestamp {
      NoFurther(s);
      SizedFurther(ring, s, 0, seen, needsParameterSets, w.seen.width, w.seen.height);
    } else {
      var seen' := Absorb(seen, p, p.nalus.value, needsParameterSets);
      WalkSizes(ring, before, timestamp, tested + 1, seen', needsParameterSets);
      WalkedOver(ring, before, timestamp, tested + 1, seen', needsParameterSets);
      OneFurther(w.seqNum, before, s);
      SizedFurther(ring, s, ForwardDiff(w.seqNum, s), seen, needsParameterSets, w.seen.width, w.seen.height);
    }
  }

  // ----- the frame handed out

  /** Only a keyframe has packets that size it. */
  lemma SizingMakesKey(ring: Ring, s: SeqNum, start: SeqNum, i: nat, needsParameterSets: bool)
    requires i <= ForwardDiff(start, s) && Sizes(ring, s, i, NOTHING_SEEN, needsParameterSets)
    ensures KeyStored(ring, start, s, needsParameterSets)
  {
    hide CarriesUnit, HasSize, Back, Plus, ForwardDiff;
    var n := ForwardDiff(start, s) + 1;
    forall u: Nalu | UnitWithin(ring, s, i, u) ensures SeesUnit(ring, start, n, u) {
      var j: nat :| j <= i && CarriesUnit(ring, Back(s, j), u);
      FromStart(start, s, j);
      assert CarriesUnit(ring, Plus(start, n - 1 - j), u);
    }
  }

  lemma FromStart(start: SeqNum, s: SeqNum, j: nat)
    requires j <= ForwardDiff(start, s)
    ensures Back(s, j) == Plus(start, ForwardDiff(start, s) - j)
  {
    PlusForwardDiff(start, s);
    PlusPlus(start, ForwardDiff(start, s), 0 - j);
  }

  lemma MarkedSizes(ring: Ring, e: SeqNum)
    requires InPlace(ring, e)
    ensures forall t :: At(Marked(ring, e), t).Some? == At(ring, t).Some?
    ensures forall t | At(ring, t).Some? ::
              At(Marked(ring, e), t).value == At(ring, t).value.(continuous := At(Marked(ring, e), t).value.continuous)
    ensures forall t | InPlace(ring, t) ::
              At(Marked(ring, e), t).value == At(ring, t).value.(continuous := At(ring, t).value.continuous || t == e)
  {
  }

  lemma SameSizes(ring: Ring, e: SeqNum, k: nat, seen: Seen, needsParameterSets: bool, width: int, height: int)
    requires InPlace(ring, e)
    ensures SizedBy(Marked(ring, e), e, k, seen, needsParameterSets, width, height)
            <==> SizedBy(ring, e, k, seen, needsParameterSets, width, height)
  {
    MarkedSizes(ring, e);
    var m := Marked(ring, e);
    hide Marked, MakesKey, Back;
    forall i: nat, u: Nalu ensures UnitWithin(m, e, i, u) <==> UnitWithin(ring, e, i, u) {
      assert forall j: nat :: CarriesUnit(m, Back(e, j), u) <==> CarriesUnit(ring, Back(e, j), u);
    }
    hide UnitWithin, CarriesUnit;
    forall i: nat ensures Sizes(m, e, i, seen, needsParameterSets) <==> Sizes(ring, e, i, seen, needsParameterSets) {
    }
    forall i: nat ensures FurthestSizing(m, e, k, i, seen, needsParameterSets) <==> FurthestSizing(ring, e, k, i, seen, needsParameterSets) {
    }
    hide FurthestSizing;
    forall i: nat | Sizes(m, e, i, seen, needsParameterSets)
      ensures At(m, Back(e, i)).value.width == At(ring, Back(e, i)).value.width && At(m, Back(e, i)).value.height == At(ring, Back(e, i)).value.height
    {
    }
  }

  /** What the search writes on the packet `j` of `n` of a frame, apart from the first one's size. */
  function Written(p: Packet, j: nat, n: nat, key: bool): Packet {
    var flagged := p.(isFirst := j == 0, isLast := j + 1 == n, continuous := p.continuous || j + 1 == n);
    if j == 0 then flagged.(isKey := key) else flagged
  }

  lemma JudgedIs(m: Ring, b: SeqNum, e: SeqNum, seen: Seen, j: nat)
    requires InPlace(m, b) && InPlace(m, Plus(b, j)) && j <= ForwardDiff(b, e) < 65535
    ensures At(Judged(m, b, seen), Plus(b, j)).Some?
    ensures var p, q := At(m, Plus(b, j)).value, At(Judged(m, b, seen), Plus(b, j)).value;
            if j > 0 then q == p
            else q == p.(isKey := seen.key, width := q.width, height := q.height)
                 && (q.width, q.height) == if seen.key && seen.width > 0 && seen.height > 0 then (seen.width, seen.height)
                                           else (p.width, p.height)
  {
    NoSteps(b);
    PlusInjective(b, j, 0);
    hide Plus, Slot;
  }

  lemma FlagsAtEnds(b: SeqNum, e: SeqNum, j: nat)
    requires j <= ForwardDiff(b, e) < 65535
    ensures Plus(b, j) == b <==> j == 0
    ensures Plus(b, j) == e <==> j == ForwardDiff(b, e)
  {
    NoSteps(b);
    PlusForwardDiff(b, e);
    PlusInjective(b, j, 0);
    PlusInjective(b, j, ForwardDiff(b, e));
  }

  /** The packets of an H.264 frame are handed out as they were stored, but for the flags, and for the size of the first one of a
      keyframe: that is the size of the first packet that has one and from which on there is still a key picture, with
      parameter sets where they are asked for. */
  lemma HandedOutAsStored(ring: Ring, missing: seq<SeqNum>, b: SeqNum, e: SeqNum, needsParameterSets: bool)
    requires ValidRing(ring) && Potential(ring, e) && WhollyStored(ring, b, e)
    requires Iterate(ring, missing, e, needsParameterSets).Hands?
    ensures var f, n, key := Iterate(ring, missing, e, needsParameterSets).frame, ForwardDiff(b, e) + 1, KeyStored(ring, b, e, needsParameterSets);
            && |f| == n
            && (forall j: nat | 0 < j < n :: InPlace(ring, Plus(b, j)) && f[j] == Written(At(ring, Plus(b, j)).value, j, n, key))
            && InPlace(ring, b)
            && var own := At(ring, b).value;
               && f[0] == Written(own, 0, n, key).(width := f[0].width, height := f[0].height)
               && SizedBy(ring, e, n - 1, NOTHING_SEEN.(width := own.width, height := own.height), needsParameterSets, f[0].width, f[0].height)
  {
    hide Slot, SizedBy, FrameOfSender, Usable, Iterate, WalkFrom, KeyStored, Addressed, PowerOfTwo, Judged, Plus, ForwardDiff;
    var m, n := Marked(ring, e), ForwardDiff(b, e) + 1;
    WholeWalk(ring, b, e, needsParameterSets);
    var w := WalkFrom(m, e, needsParameterSets);
    HandsFromWalk(ring, missing, e, needsParameterSets);
    NoSteps(b);
    FrameIsShort(ring, b, e);
    MarkedSizes(ring, e);
    MarkedAlike(ring, e);
    assert InPlace(ring, Plus(b, 0));
    hide Marked;
    forall j: nat | j < n
      ensures InPlace(ring, Plus(b, j)) && At(Judged(m, b, w.seen), Plus(b, j)).Some?
              && var q := At(Judged(m, b, w.seen), Plus(b, j)).value;
                 var f := Written(At(ring, Plus(b, j)).value, j, n, w.seen.key);
                 q.(isFirst := Plus(b, j) == b, isLast := Plus(b, j) == e) == if j > 0 then f else f.(width := q.width, height := q.height)
    {
      JudgedIs(m, b, e, w.seen, j);
      FlagsAtEnds(b, e, j);
    }
    FirstSize(ring, b, e, w.seen, needsParameterSets);
    JudgedIs(m, b, e, w.seen, 0);
  }

  lemma FrameIsShort(ring: Ring, b: SeqNum, e: SeqNum)
    requires WhollyStored(ring, b, e)
    ensures ForwardDiff(b, e) < 65535
  {
  }

  /** The size written on the first packet. */
  lemma FirstSize(ring: Ring, b: SeqNum, e: SeqNum, seen: Seen, needsParameterSets: bool)
    requires ValidRing(ring) && Potential(ring, e) && WhollyStored(ring, b, e)
    requires At(Marked(ring, e), e).Some? && WalkFrom(Marked(ring, e), e, needsParameterSets) == Start(b, seen)
    requires seen.key <==> KeyStored(ring, b, e, needsParameterSets)
    ensures InPlace(ring, b)
    ensures var own := At(ring, b).value;
            var (width, height) := if seen.key && seen.width > 0 && seen.height > 0 then (seen.width, seen.height)
                                   else (own.width, own.height);
            SizedBy(ring, e, ForwardDiff(b, e), NOTHING_SEEN.(width := own.width, height := own.height), needsParameterSets, width, height)
  {
    var m, k := Marked(ring, e), ForwardDiff(b, e);
    NoSteps(b);
    assert InPlace(ring, Plus(b, 0));
    MarkedTimes(ring, e);
    WalkStarts(m, e, needsParameterSets);
    WalkSizes(m, e, At(m, e).value.timestamp, 0, NOTHING_SEEN, needsParameterSets);
    SameSizes(ring, e, k, NOTHING_SEEN, needsParameterSets, seen.width, seen.height);
    hide WalkBack, WalkFrom, Slot, FrameOfSender, Usable, AllStored, Marked, KeyStored, Addressed, PowerOfTwo, Plus, ForwardDiff,
         UnitWithin, MakesKey, SizedBy, Sizes, FurthestSizing;
    forall i: nat | i <= k ensures Sizes(ring, e, i, NOTHING_SEEN, needsParameterSets) ==> seen.key {
      if Sizes(ring, e, i, NOTHING_SEEN, needsParameterSets) {
        SizingMakesKey(ring, e, b, i, needsParameterSets);
      }
    }
    OwnSizeOtherwise(ring, e, k, seen, At(ring, b).value, needsParameterSets);
  }

  /** The first packet keeps its own size if the walk has found none. */
  lemma OwnSizeOtherwise(ring: Ring, e: SeqNum, k: nat, seen: Seen, own: Packet, needsParameterSets: bool)
    requires SizedBy(ring, e, k, NOTHING_SEEN, needsParameterSets, seen.width, seen.height)
    requires forall i: nat | i <= k :: Sizes(ring, e, i, NOTHING_SEEN, needsParameterSets) ==> seen.key
    ensures var (width, height) := if seen.key && seen.width > 0 && seen.height > 0 then (seen.width, seen.height)
                                   else (own.width, own.height);
            SizedBy(ring, e, k, NOTHING_SEEN.(width := own.width, height := own.height), needsParameterSets, width, height)
  {
    var other := NOTHING_SEEN.(width := own.width, height := own.height);
    hide Slot, Plus, UnitWithin, MakesKey;
    forall i: nat ensures Sizes(ring, e, i, other, needsParameterSets) <==> Sizes(ring, e, i, NOTHING_SEEN, needsParameterSets) {
    }
    forall i: nat ensures FurthestSizing(ring, e, k, i, other, needsParameterSets) <==> FurthestSizing(ring, e, k, i, NOTHING_SEEN, needsParameterSets) {
    }
  }
}
