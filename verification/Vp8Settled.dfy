/** Conditions on the frames that come, each checked before the call, under which no VP8 frame that could be handed off
    stays stashed between calls. */
module Vp8Settled {
  import opened SequenceNumbers
  import opened OrderedNumbers
  import opened Options
  import opened Unwrapping
  import opened StashRetry
  import opened Vp8RefFinderModel
  import opened Vp8Readiness

  // ----- the record of ids not yet received

  /** No id on record is too old for the frame, and neither is the last one. */
  ghost predicate WithinReach(c: Core, id: PictureId) {
    && !AheadOfMod(32768, PlusId(id, -MAX_NOT_YET_RECEIVED), c.lastPictureId)
    && forall x | x in c.notYetReceived :: !AheadOfMod(32768, PlusId(id, -MAX_NOT_YET_RECEIVED), x)
  }

  /** The id has been considered: noting it once more changes nothing. */
  ghost predicate Noted(c: Core, id: PictureId) {
    c.lastPictureId != -1 && !AheadOfMod(32768, id, c.lastPictureId) && WithinReach(c, id)
  }

  /** Everything on record is at most 100 behind the last id. */
  ghost predicate RecordRecent(c: Core) {
    if c.lastPictureId == -1 then c.notYetReceived == []
    else forall x | x in c.notYetReceived :: x < 32768 && DiffMod(32768, x, c.lastPictureId) <= MAX_NOT_YET_RECEIVED
  }

  lemma NothingErased(c: Core, id: PictureId)
    requires WithinReach(c, id)
    ensures LowerBound(32768, c.notYetReceived, PlusId(id, -MAX_NOT_YET_RECEIVED)) == 0
  {
    if c.notYetReceived != [] {
      assert c.notYetReceived[0] in c.notYetReceived;
    }
  }

  lemma NotedStays(c: Core, id: PictureId)
    requires Noted(c, id)
    ensures NotePictureId(c, id) == c
  {
    NothingErased(c, id);
    hide LowerBound, AheadOfMod, PlusId;
    assert c.notYetReceived[0..] == c.notYetReceived;
  }

  /** The ids behind `last` up to the one `k` steps on. */
  function Following(last: PictureId, k: nat): seq<nat> {
    seq(k, (i: nat) => PlusId(last, i + 1))
  }

  lemma {:induction false} FillGapAppends(notYet: seq<nat>, last: PictureId, id: PictureId)
    requires DiffMod(32768, last, id) <= MAX_NOT_YET_RECEIVED
    requires forall x | x in notYet :: x < 32768 && DiffMod(32768, x, last) <= 2 * MAX_NOT_YET_RECEIVED - DiffMod(32768, last, id)
    ensures FillGap(notYet, last, id) == notYet + Following(last, DiffMod(32768, last, id))
    decreases DiffMod(32768, last, id)
  {
    hide Following, LowerBound, FillGap;
    if last == id {
      NothingFollows(notYet, last, id);
    } else {
      var next, d := PlusId(last, 1), DiffMod(32768, last, id);
      NextIsLast(notYet, last, d);
      assert DiffMod(32768, next, id) == d - 1;
      forall x | x in notYet + [next] ensures x < 32768 && DiffMod(32768, x, next) <= 2 * MAX_NOT_YET_RECEIVED - (d - 1) {
      }
      FillGapStep(notYet, last, id);
      FillGapAppends(notYet + [next], next, id);
      FollowingStep(notYet, last, d);
    }
  }

  lemma NothingFollows(notYet: seq<nat>, last: PictureId, id: PictureId)
    requires last == id
    ensures FillGap(notYet, last, id) == notYet + Following(last, DiffMod(32768, last, id))
  {
    assert Following(last, 0) == [] && notYet + [] == notYet;
  }

  lemma FillGapStep(notYet: seq<nat>, last: PictureId, id: PictureId)
    requires last != id
    ensures FillGap(notYet, last, id) == FillGap(Insert(32768, notYet, PlusId(last, 1)), PlusId(last, 1), id)
  {
  }

  lemma FollowingStep(notYet: seq<nat>, last: PictureId, d: nat)
    requires d > 0
    ensures (notYet + [PlusId(last, 1)]) + Following(PlusId(last, 1), d - 1) == notYet + Following(last, d)
  {
    hide PlusId;
    var rest := Following(PlusId(last, 1), d - 1);
    forall i: nat | i < d - 1 ensures rest[i] == Following(last, d)[i + 1] {
      OneStepFurther(last, i + 1);
    }
    assert Following(last, d) == [PlusId(last, 1)] + rest;
  }

  lemma OneStepFurther(last: PictureId, k: int)
    ensures PlusId(PlusId(last, 1), k) == PlusId(last, k + 1)
  {
  }

  /** An id ahead of everything on record is recorded last. */
  lemma NextIsLast(notYet: seq<nat>, last: PictureId, d: nat)
    requires 0 < d <= MAX_NOT_YET_RECEIVED
    requires forall x | x in notYet :: x < 32768 && DiffMod(32768, x, last) <= 2 * MAX_NOT_YET_RECEIVED - d
    ensures Insert(32768, notYet, PlusId(last, 1)) == notYet + [PlusId(last, 1)]
  {
    var next := PlusId(last, 1);
    forall j | 0 <= j < |notYet| ensures AheadOfMod(32768, next, notYet[j]) {
      assert notYet[j] in notYet;
    }
    LowerBoundUnique(32768, notYet, next, |notYet|);
  }

  /** The picture id is no more than 100 ahead of the last one and of any on record, and if it is ahead, less than
      half the space ahead of any stashed one, with 100 to spare. */
  ghost predicate IdFits(c: Core, stash: seq<Frame>, f: Frame) {
    c.lastPictureId != -1 ==>
      && WithinReach(c, f.Id())
      && (AheadOfMod(32768, f.Id(), c.lastPictureId) ==>
            forall g | g in stash :: DiffMod(32768, g.Id(), f.Id()) < 16384 - MAX_NOT_YET_RECEIVED)
  }

  /** Noting a fitting id only appends to the record. */
  lemma NotingAppends(c: Core, stash: seq<Frame>, f: Frame) returns (k: nat)
    requires RecordRecent(c) && IdFits(c, stash, f)
    ensures var c1 := NotePictureId(c, f.Id());
            if c.lastPictureId != -1 && AheadOfMod(32768, f.Id(), c.lastPictureId)
            then k == DiffMod(32768, c.lastPictureId, f.Id()) <= MAX_NOT_YET_RECEIVED
                 && c1 == c.(lastPictureId := f.Id(), notYetReceived := c.notYetReceived + Following(c.lastPictureId, k))
            else c1 == c.(lastPictureId := if c.lastPictureId == -1 then f.Id() else c.lastPictureId)
  {
    k := 0;
    if c.lastPictureId != -1 {
      var id := f.Id();
      NothingErased(c, id);
      assert c.notYetReceived[0..] == c.notYetReceived;
      if AheadOfMod(32768, id, c.lastPictureId) {
        k := DiffMod(32768, c.lastPictureId, id);
        FillGapAppends(c.notYetReceived, c.lastPictureId, id);
      }
    }
  }

  lemma FollowingIs(last: PictureId, k: nat)
    requires k <= MAX_NOT_YET_RECEIVED
    ensures forall x | x in Following(last, k) :: x < 32768 && 0 < DiffMod(32768, last, x) <= k
  {
  }

  /** After a fitting id has been noted, it is noted, and so is every stashed one that was. */
  lemma NotingKeepsNoted(c: Core, stash: seq<Frame>, f: Frame)
    requires RecordRecent(c) && IdFits(c, stash, f)
    ensures var c1 := NotePictureId(c, f.Id());
            RecordRecent(c1) && Noted(c1, f.Id()) && forall g | g in stash && Noted(c, g.Id()) :: Noted(c1, g.Id())
  {
    hide NotePictureId, Following;
    var c1 := NotePictureId(c, f.Id());
    var k := NotingAppends(c, stash, f);
    if c.lastPictureId != -1 && AheadOfMod(32768, f.Id(), c.lastPictureId) {
      var last, id := c.lastPictureId, f.Id();
      FollowingIs(last, k);
      forall x | x in c1.notYetReceived
        ensures x < 32768 && DiffMod(32768, x, id) <= MAX_NOT_YET_RECEIVED
        ensures !AheadOfMod(32768, PlusId(id, -MAX_NOT_YET_RECEIVED), x)
      {
        RecentId(c, x, last, id, k);
      }
      forall g | g in stash && Noted(c, g.Id()) ensures Noted(c1, g.Id()) {
        NotedFromBehind(c, c1, g.Id(), last, id, k);
      }
    }
  }

  lemma RecentId(c: Core, x: nat, last: PictureId, id: PictureId, k: nat)
    requires k == DiffMod(32768, last, id) <= MAX_NOT_YET_RECEIVED
    requires (x < 32768 && DiffMod(32768, x, last) <= MAX_NOT_YET_RECEIVED && !AheadOfMod(32768, PlusId(id, -MAX_NOT_YET_RECEIVED), x))
          || (x < 32768 && 0 < DiffMod(32768, last, x) <= k)
    ensures x < 32768 && DiffMod(32768, x, id) <= MAX_NOT_YET_RECEIVED
    ensures !AheadOfMod(32768, PlusId(id, -MAX_NOT_YET_RECEIVED), x)
  {
  }

  lemma NotedFromBehind(c: Core, c1: Core, g: PictureId, last: PictureId, id: PictureId, k: nat)
    requires c.lastPictureId == last && Noted(c, g) && DiffMod(32768, g, id) < 16384 - MAX_NOT_YET_RECEIVED
    requires AheadOfMod(32768, id, last) && k == DiffMod(32768, last, id) <= MAX_NOT_YET_RECEIVED
    requires c1 == c.(lastPictureId := id, notYetReceived := c.notYetReceived + Following(last, k))
    ensures Noted(c1, g)
  {
    FollowingIs(last, k);
    hide Following;
    assert !AheadOfMod(32768, g, id) && !AheadOfMod(32768, PlusId(g, -MAX_NOT_YET_RECEIVED), id);
    forall x | x in c1.notYetReceived ensures !AheadOfMod(32768, PlusId(g, -MAX_NOT_YET_RECEIVED), x) {
      if x !in c.notYetReceived {
        BehindAll(g, last, id, k, x);
      }
    }
  }

  lemma BehindAll(g: PictureId, last: PictureId, id: PictureId, k: nat, x: nat)
    requires DiffMod(32768, g, id) < 16384 - MAX_NOT_YET_RECEIVED && !AheadOfMod(32768, g, last)
    requires k == DiffMod(32768, last, id) <= MAX_NOT_YET_RECEIVED && x < 32768 && 0 < DiffMod(32768, last, x) <= k
    ensures !AheadOfMod(32768, PlusId(g, -MAX_NOT_YET_RECEIVED), x)
  {
  }

  // ----- base layer indices

  /** The base layer indices, unwrapped, are less than half of 256 apart. */
  ghost predicate TlClose(c: Core, f: Frame, g: Frame) {
    -128 < TlOf(c, f) - TlOf(c, g) < 128
  }

  /** An index less than half of 256 from the last one unwraps to itself. */
  lemma UnwrapsToItself(v: nat, w: nat, x: int, y: int)
    requires v < 256 && w < 256 && x % 256 == v && y % 256 == w && -128 < x - y < 128
    ensures Unwrap(256, Unwrapper(Some(w), y), v).1 == x
  {
  }

  /** What another frame close by does to the unwrapper leaves the index of a frame as it is. */
  lemma TlStays(c: Core, f: Frame, g: Frame)
    requires Unwrapped(256, c.tl0Unwrapper) && TlClose(c, g, f)
    ensures TlAfter(c, f, g) == TlOf(c, g)
    ensures Unwrapped(256, Unwrapper(Some(f.tl0PicIdx % 256), TlOf(c, f)))
  {
    UnwrapIsCongruent(256, c.tl0Unwrapper, f.tl0PicIdx % 256);
    UnwrapIsCongruent(256, c.tl0Unwrapper, g.tl0PicIdx % 256);
    UnwrapsToItself(g.tl0PicIdx % 256, f.tl0PicIdx % 256, TlOf(c, g), TlOf(c, f));
  }

  // ----- base layer frames in order

  predicate IsBaseDelta(f: Frame) {
    !f.isKey && f.temporalIdx == 0
  }

  /** The base layers before that of `g` have older frames. */
  ghost predicate AboveLayers(c: Core, g: Frame) {
    forall t | t in c.layerInfo && t < TlOf(c, g) :: c.layerInfo[t][0] != -1 && AheadOfMod(32768, g.Id(), c.layerInfo[t][0])
  }

  /** Of two base layer frames the one of the later base layer has the later id. */
  ghost predicate BaseInOrder(c: Core, f: Frame, g: Frame) {
    TlOf(c, f) < TlOf(c, g) ==> AheadOfMod(32768, g.Id(), f.Id())
  }

  /** The frames under consideration, `all`, are noted, and their base layers are unambiguous and in order. */
  ghost predicate InFlight(c: Core, all: seq<Frame>) {
    && AllStashable(all)
    && RecordRecent(c)
    && (forall g | g in all :: Noted(c, g.Id()))
    && Unwrapped(256, c.tl0Unwrapper)
    && (forall f, g | f in all && g in all :: TlClose(c, f, g))
    && (forall g | g in all && IsBaseDelta(g) :: AboveLayers(c, g))
    && (forall f, g | f in all && g in all && IsBaseDelta(f) && IsBaseDelta(g) :: BaseInOrder(c, f, g))
  }

  // ----- what considering a frame does

  lemma {:induction false} UpdatedBases(layers: map<int, LayerInfo>, tl0: int, idx: nat, id: PictureId)
    requires idx < MAX_TEMPORAL_LAYERS
    ensures var r := UpdateLayers(layers, tl0, idx, id);
            && r.Keys == layers.Keys
            && (forall t | t in layers :: r[t][0] == layers[t][0] || (idx == 0 && t >= tl0 && r[t][0] == id))
            && (idx == 0 && tl0 in layers && (layers[tl0][0] == -1 || !AheadOfMod(32768, layers[tl0][0], id)) ==> r[tl0][0] == id)
    decreases NewerThan(layers, tl0)
  {
    if !(tl0 !in layers || (layers[tl0][idx] != -1 && AheadOfMod(32768, layers[tl0][idx], id))) {
      var layers' := layers[tl0 := layers[tl0][idx := id]];
      assert tl0 in NewerThan(layers, tl0) && NewerThan(layers', tl0 + 1) == NewerThan(layers, tl0) - {tl0};
      UpdatedBases(layers', tl0 + 1, idx, id);
    }
  }

  /** Every base layer frame known afterwards was known before, at the same index, or is `f`. */
  ghost predicate BasesFrom(c: Core, f: Frame, layers: map<int, LayerInfo>) {
    forall t | t in layers ::
      || (t in c.layerInfo && layers[t][0] == c.layerInfo[t][0])
      || (f.temporalIdx == 0 && t >= TlOf(c, f) && layers[t][0] == f.Id())
  }

  lemma DecidedBases(c: Core, f: Frame, layers: map<int, LayerInfo>)
    requires f.temporalIdx < MAX_TEMPORAL_LAYERS && !DroppedBaseLayer(c, f)
    requires layers == map t | t in c.layerInfo && t >= TlOf(c, f) - MAX_LAYER_INFO :: c.layerInfo[t]
    ensures var c1 := Refresh(c, f).0;
            c1.layerInfo == layers && BasesFrom(c, f, Decide(c1, f, TlOf(c, f)).0.layerInfo)
  {
    hide CollectReferences, NotePictureId, UpdateLayers, UnwrapAll, Unwrap;
    NotingKeepsTheRest(c, f.Id());
    var tl0 := TlOf(c, f);
    var c1 := Refresh(c, f).0;
    assert Refresh(c, f).1 == tl0;
    if f.isKey && f.temporalIdx == 0 {
      UpdatedBases(layers[tl0 := NO_LAYERS], tl0, 0, f.Id());
    } else if f.temporalIdx == 0 && tl0 - 1 in layers {
      var extended := if tl0 in layers then layers else layers[tl0 := layers[tl0 - 1]];
      UpdatedBases(extended, tl0, 0, f.Id());
    } else {
      UpdatedBases(layers, tl0, f.temporalIdx, f.Id());
    }
  }

  /** What considering a frame leaves of the record, the unwrapper and the base layers. */
  lemma Considered(c: Core, f: Frame)
    requires f.temporalIdx < MAX_TEMPORAL_LAYERS && !DroppedBaseLayer(c, f)
    ensures var c', noted := ManageFrameInternal(c, f).0, NotePictureId(c, f.Id());
            && c'.lastPictureId == noted.lastPictureId
            && (forall x | x in c'.notYetReceived :: x in noted.notYetReceived)
            && c'.tl0Unwrapper == Unwrapper(Some(f.tl0PicIdx % 256), TlOf(c, f))
            && BasesFrom(c, f, c'.layerInfo)
  {
    DecidedBases(c, f, map t | t in c.layerInfo && t >= TlOf(c, f) - MAX_LAYER_INFO :: c.layerInfo[t]);
    hide NotePictureId, Decide, BasesFrom, DroppedBaseLayer;
    var c1 := Refresh(c, f).0;
    assert Refresh(c, f).1 == TlOf(c, f);
    DecidingKeeps(c1, f, TlOf(c, f));
  }

  lemma DecidingKeeps(c: Core, f: Frame, tl0: int)
    requires f.temporalIdx < MAX_TEMPORAL_LAYERS
    ensures var c' := Decide(c, f, tl0).0;
            && c'.lastPictureId == c.lastPictureId && c'.tl0Unwrapper == c.tl0Unwrapper
            && forall x | x in c'.notYetReceived :: x in c.notYetReceived
  {
    hide CollectReferences, UpdateLayers, UnwrapAll, Unwrap, Erase, AheadOrAtMod;
    ErasedIsFewer(c.notYetReceived, f.Id());
  }

  lemma ErasedIsFewer(s: seq<nat>, k: nat)
    ensures forall x | x in Erase(32768, s, k) :: x in s
  {
  }

  lemma NotDroppedBaseLayer(c: Core, f: Frame)
    requires IsBaseDelta(f) ==> AboveLayers(c, f)
    ensures !DroppedBaseLayer(c, f)
  {
  }

  /** Considering a frame close to and in order with all others keeps them noted, unambiguous and in order. */
  lemma ConsideringKeepsInFlight(c: Core, all: seq<Frame>, f: Frame)
    requires f.temporalIdx < MAX_TEMPORAL_LAYERS && AllStashable(all) && !DroppedBaseLayer(c, f)
    requires RecordRecent(NotePictureId(c, f.Id())) && forall g | g in all :: Noted(NotePictureId(c, f.Id()), g.Id())
    requires Unwrapped(256, c.tl0Unwrapper) && forall g | g in all :: TlClose(c, g, f)
    requires forall g, h | g in all && h in all :: TlClose(c, g, h)
    requires forall g | g in all && IsBaseDelta(g) :: AboveLayers(c, g) && (f.temporalIdx == 0 ==> BaseInOrder(c, f, g))
    requires forall g, h | g in all && h in all && IsBaseDelta(g) && IsBaseDelta(h) :: BaseInOrder(c, g, h)
    ensures InFlight(ManageFrameInternal(c, f).0, all)
    ensures forall g | g in all :: TlOf(ManageFrameInternal(c, f).0, g) == TlOf(c, g)
  {
    hide ManageFrameInternal, NotePictureId, Unwrap, DroppedBaseLayer, AheadOfMod, Unwrapped;
    var c' := ManageFrameInternal(c, f).0;
    Considered(c, f);
    FewerRecorded(NotePictureId(c, f.Id()), c', all);
    assert Unwrapped(256, c'.tl0Unwrapper) by {
      TlCloseToItself(c, f);
      TlStays(c, f, f);
    }
    forall g | g in all ensures TlOf(c', g) == TlOf(c, g) {
      TlStays(c, f, g);
    }
    forall g | g in all && IsBaseDelta(g) ensures AboveLayers(c', g) {
      forall t | t in c'.layerInfo && t < TlOf(c', g) ensures c'.layerInfo[t][0] != -1 && AheadOfMod(32768, g.Id(), c'.layerInfo[t][0]) {
      }
    }
  }

  lemma FewerRecorded(c: Core, c': Core, all: seq<Frame>)
    requires c'.lastPictureId == c.lastPictureId && forall x | x in c'.notYetReceived :: x in c.notYetReceived
    requires RecordRecent(c) && forall g | g in all :: Noted(c, g.Id())
    ensures RecordRecent(c') && forall g | g in all :: Noted(c', g.Id())
  {
    if c'.notYetReceived != [] {
      assert c'.notYetReceived[0] in c.notYetReceived;
    }
  }

  lemma TlCloseToItself(c: Core, f: Frame)
    ensures TlClose(c, f, f)
  {
  }

  lemma StepKeepsInFlight(c: Core, all: seq<Frame>, f: Frame)
    requires InFlight(c, all) && f in all
    ensures InFlight(ManageFrameInternal(c, f).0, all)
  {
    hide ManageFrameInternal, NotePictureId, TlClose, BaseInOrder, AboveLayers, Noted, RecordRecent, Unwrapped;
    NotedStays(c, f.Id());
    NotDroppedBaseLayer(c, f);
    ConsideringKeepsInFlight(c, all, f);
  }

  lemma FewerInFlight(c: Core, all: seq<Frame>, some: seq<Frame>)
    requires InFlight(c, all) && forall f | f in some :: f in all
    ensures InFlight(c, some)
  {
    hide TlClose, BaseInOrder, AboveLayers, Noted, RecordRecent, Unwrapped, IsBaseDelta, Stashable;
  }

  /** A frame under consideration that is not handed off makes no other one ready. */
  lemma IdleKeepsStuck(c: Core, all: seq<Frame>, f: Frame, g: Frame)
    requires InFlight(c, all) && f in all && g in all && !Ready(c, f) && !Ready(c, g)
    ensures !Ready(ManageFrameInternal(c, f).0, g)
  {
    hide ManageFrameInternal, NotePictureId, Noted, RecordRecent, Unwrapped, DroppedBaseLayer, AboveLayers, TlClose, Waits, Fits, Ready, ReadyWith, AheadOfMod;
    WhatMakesReady(c, f, g);
    NotDroppedBaseLayer(c, f);
    TlStays(c, f, g);
    NotedStays(c, f.Id());
  }

  // ----- the frame that comes

  /** The base layer index is less than half of 256 from those of the stashed frames. */
  ghost predicate TlFits(c: Core, stash: seq<Frame>, f: Frame) {
    forall g | g in stash :: TlClose(c, g, f)
  }

  /** A base layer frame is newer than those of the base layers before its own, older than the stashed ones of later
      base layers, and newer than the stashed ones of earlier base layers. */
  ghost predicate BaseFits(c: Core, stash: seq<Frame>, f: Frame) {
    f.temporalIdx == 0 ==>
      && (!f.isKey ==> AboveLayers(c, f))
      && (forall g | g in stash && IsBaseDelta(g) :: BaseInOrder(c, f, g) && (!f.isKey ==> BaseInOrder(c, g, f)))
  }

  /** What is asked of a frame before it is considered; nothing of one with a corrupted temporal index. */
  ghost predicate Fitting(c: Core, stash: seq<Frame>, f: Frame) {
    f.temporalIdx < MAX_TEMPORAL_LAYERS ==> IdFits(c, stash, f) && TlFits(c, stash, f) && BaseFits(c, stash, f)
  }

  /** The frames in flight once `f` has come. */
  function With(stash: seq<Frame>, f: Frame): seq<Frame> {
    if f.isKey then stash else stash + [f]
  }

  lemma IncomingInFlight(c: Core, stash: seq<Frame>, f: Frame)
    requires InFlight(c, stash) && Fitting(c, stash, f) && f.temporalIdx < MAX_TEMPORAL_LAYERS
    ensures InFlight(ManageFrameInternal(c, f).0, With(stash, f))
  {
    hide ManageFrameInternal, NotePictureId, BaseInOrder, AboveLayers, Noted, RecordRecent, Unwrapped, IdFits;
    NotingKeepsNoted(c, stash, f);
    NotDroppedBaseLayer(c, f);
    TlCloseToItself(c, f);
    InOrderWithItself(c, f);
    ConsideringKeepsInFlight(c, With(stash, f), f);
  }

  lemma InOrderWithItself(c: Core, f: Frame)
    ensures BaseInOrder(c, f, f)
  {
  }

  lemma MoreRecordedStillWaits(c: Core, c1: Core, info: LayerInfo, g: Frame, more: seq<nat>)
    requires g.temporalIdx < MAX_TEMPORAL_LAYERS && Waits(c, info, g) && c1.notYetReceived == c.notYetReceived + more
    ensures Waits(c1, info, g)
  {
    var l :| 0 <= l <= g.temporalIdx && info[l] != -1 && GapBefore(c, info[l], g.Id());
    var i := UpperBound(32768, c.notYetReceived, info[l]);
    UpperBoundOfMore(c.notYetReceived, more, info[l]);
    assert GapBefore(c1, info[l], g.Id());
  }

  lemma {:induction false} UpperBoundOfMore(s: seq<nat>, more: seq<nat>, k: nat)
    requires UpperBound(32768, s, k) < |s|
    ensures UpperBound(32768, s + more, k) == UpperBound(32768, s, k)
  {
    if !AheadOfMod(32768, s[0], k) {
      assert (s + more)[1..] == s[1..] + more;
      UpperBoundOfMore(s[1..], more, k);
    }
  }

  /** A fitting frame that is not handed off makes no stashed frame ready. */
  lemma IncomingKeepsStuck(c: Core, stash: seq<Frame>, f: Frame, g: Frame)
    requires InFlight(c, stash) && Fitting(c, stash, f) && f.temporalIdx < MAX_TEMPORAL_LAYERS
    requires g in stash && !Ready(c, f) && !Ready(c, g)
    ensures !Ready(ManageFrameInternal(c, f).0, g)
  {
    hide ManageFrameInternal, NotePictureId, Noted, RecordRecent, Unwrapped, DroppedBaseLayer, AboveLayers, TlClose, Waits, Fits, Ready, ReadyWith, AheadOfMod, IdFits, BaseInOrder, Following;
    WhatMakesReady(c, f, g);
    NotDroppedBaseLayer(c, f);
    TlStays(c, f, g);
    NotedStays(c, g.Id());
    NotingKeepsNoted(c, stash, f);
    NotedStays(NotePictureId(c, f.Id()), g.Id());
    var k := NotingAppends(c, stash, f);
    if Forgotten(c, f, g) {
      var more := if c.lastPictureId != -1 && AheadOfMod(32768, f.Id(), c.lastPictureId) then Following(c.lastPictureId, k) else [];
      assert c.notYetReceived + [] == c.notYetReceived;
      MoreRecordedStillWaits(c, NotePictureId(c, f.Id()), InfoFor(c.layerInfo, g, TlOf(c, g)), g, more);
    }
  }

  /** A frame just stashed cannot be handed off at once. */
  lemma StashedIsStuck(c: Core, stash: seq<Frame>, f: Frame)
    requires InFlight(c, stash) && Fitting(c, stash, f) && Stashable(f) && !Ready(c, f)
    ensures !Ready(ManageFrameInternal(c, f).0, f)
  {
    hide ManageFrameInternal, NotePictureId, Noted, RecordRecent, Unwrapped, DroppedBaseLayer, AboveLayers, TlClose, Waits, Fits, Ready, ReadyWith, AheadOfMod, IdFits, BaseInOrder;
    WhatMakesReady(c, f, f);
    NotDroppedBaseLayer(c, f);
    TlCloseToItself(c, f);
    TlStays(c, f, f);
    NotingKeepsNoted(c, stash, f);
    NotedStays(NotePictureId(c, f.Id()), f.Id());
  }

  // ----- retrying

  ghost predicate NoneReady(c: Core, frames: seq<Frame>) {
    forall f | f in frames :: !Ready(c, f)
  }

  ghost predicate AllIn(some: seq<Frame>, all: seq<Frame>) {
    forall f | f in some :: f in all
  }

  lemma {:induction false} PassKeepsInFlight(c: Core, pending: seq<Frame>, all: seq<Frame>)
    requires InFlight(c, all) && AllIn(pending, all)
    ensures InFlight(RetryPass(ManageFrameInternal, c, pending).core, all)
    decreases |pending|
  {
    hide ManageFrameInternal, InFlight;
    if pending != [] {
      StepKeepsInFlight(c, all, pending[0]);
      PassKeepsInFlight(ManageFrameInternal(c, pending[0]).0, pending[1..], all);
    }
  }

  /** A pass that hands nothing off makes nothing ready. */
  lemma {:induction false} IdlePassKeepsStuck(c: Core, pending: seq<Frame>, all: seq<Frame>, g: Frame)
    requires InFlight(c, all) && AllIn(pending, all) && g in all && !Ready(c, g)
    requires RetryPass(ManageFrameInternal, c, pending).handed == []
    ensures !Ready(RetryPass(ManageFrameInternal, c, pending).core, g)
    decreases |pending|
  {
    hide ManageFrameInternal, InFlight;
    if pending != [] {
      StepKeepsInFlight(c, all, pending[0]);
      IdleKeepsStuck(c, all, pending[0], g);
      IdlePassKeepsStuck(ManageFrameInternal(c, pending[0]).0, pending[1..], all, g);
    }
  }

  lemma {:induction false} IdlePassIsFixpoint(c: Core, pending: seq<Frame>, all: seq<Frame>)
    requires InFlight(c, all) && AllIn(pending, all) && RetryPass(ManageFrameInternal, c, pending).handed == []
    ensures NoneReady(RetryPass(ManageFrameInternal, c, pending).core, RetryPass(ManageFrameInternal, c, pending).kept)
    decreases |pending|
  {
    hide ManageFrameInternal, InFlight;
    if pending != [] {
      var f := pending[0];
      StepKeepsInFlight(c, all, f);
      IdleKeepsStuck(c, all, f, f);
      IdlePassKeepsStuck(ManageFrameInternal(c, f).0, pending[1..], all, f);
      IdlePassIsFixpoint(ManageFrameInternal(c, f).0, pending[1..], all);
    }
  }

  lemma {:induction false} RetryIsFixpoint(c: Core, stash: seq<Frame>, all: seq<Frame>)
    requires InFlight(c, all) && AllIn(stash, all)
    ensures var pass := Retry(ManageFrameInternal, c, stash);
            InFlight(pass.core, all) && AllIn(pass.kept, all) && NoneReady(pass.core, pass.kept)
    decreases |stash|
  {
    hide ManageFrameInternal, InFlight;
    var pass := RetryPass(ManageFrameInternal, c, stash);
    PassKeepsInFlight(c, stash, all);
    KeptWasPending(c, stash);
    if pass.handed == [] {
      IdlePassIsFixpoint(c, stash, all);
    } else {
      RetryIsFixpoint(pass.core, pass.kept, all);
    }
  }

  // ----- every run

  ghost predicate Settled(st: State) {
    InFlight(st.core, st.stash) && NoneReady(st.core, st.stash)
  }

  lemma ManageKeepsSettled(st: State, f: Frame)
    requires Settled(st) && Fitting(st.core, st.stash, f)
    ensures Settled(Step(st, Manage(f)).0)
  {
    hide ManageFrameInternal, InFlight, Fitting;
    var (c, decision) := ManageFrameInternal(st.core, f);
    if f.temporalIdx >= MAX_TEMPORAL_LAYERS {
      CorruptedIsDropped(st.core, f);
    } else {
      IncomingInFlight(st.core, st.stash, f);
      match decision
      case HandOff(h) =>
        RetryIsFixpoint(c, st.stash, With(st.stash, f));
        var pass := Retry(ManageFrameInternal, c, st.stash);
        FewerInFlight(pass.core, With(st.stash, f), pass.kept);
      case Stash =>
        StashedIsStashable(st.core, f);
        StashedIsStuck(st.core, st.stash, f);
        forall g | g in st.stash ensures !Ready(c, g) {
          IncomingKeepsStuck(st.core, st.stash, f, g);
        }
        FewerInFlight(c, With(st.stash, f), PushStash(st.stash, f));
      case Drop =>
        forall g | g in st.stash ensures !Ready(c, g) {
          IncomingKeepsStuck(st.core, st.stash, f, g);
        }
        FewerInFlight(c, With(st.stash, f), st.stash);
    }
  }

  lemma CorruptedIsDropped(c: Core, f: Frame)
    requires f.temporalIdx >= MAX_TEMPORAL_LAYERS
    ensures ManageFrameInternal(c, f) == (c, Drop)
  {
  }

  ghost predicate FittingRun(st: State, ops: seq<Op>)
    decreases |ops|
  {
    ops == []
    || ((ops[0].Manage? ==> Fitting(st.core, st.stash, ops[0].frame)) && FittingRun(Step(st, ops[0]).0, ops[1..]))
  }

  /** Over every run of fitting frames, in every state between public calls, no stashed frame is one that would be
      handed off. */
  lemma {:induction false} RunIsSettled(st: State, ops: seq<Op>)
    requires Settled(st) && FittingRun(st, ops)
    ensures Settled(After(st, ops))
    decreases |ops|
  {
    hide InFlight, Fitting, ManageFrameInternal, NoneReady;
    if ops != [] {
      match ops[0] {
        case Manage(f) => ManageKeepsSettled(st, f);
        case ClearUpTo(s) => ClearingKeepsSettled(st, s);
      }
      RunIsSettled(Step(st, ops[0]).0, ops[1..]);
    }
  }

  lemma ClearingKeepsSettled(st: State, s: SeqNum)
    requires Settled(st)
    ensures Settled(Step(st, ClearUpTo(s)).0)
  {
    hide InFlight;
    FewerInFlight(st.core, st.stash, DropWhere(st.stash, StartsBehind(s)));
  }

  lemma NothingIsSettled()
    ensures Settled(INIT)
  {
  }

  /** From the start, in the words of the finder: while the frames fit, none that waits could be handed off. */
  lemma NoReadyFrameIsStashed(ops: seq<Op>)
    requires FittingRun(INIT, ops)
    ensures var st := After(INIT, ops);
            forall f | f in st.stash :: !ManageFrameInternal(st.core, f).1.HandOff?
  {
    hide InFlight, FittingRun;
    NothingIsSettled();
    RunIsSettled(INIT, ops);
    var st := After(INIT, ops);
    forall f | f in st.stash ensures !ManageFrameInternal(st.core, f).1.HandOff? {
      assert !Ready(st.core, f);
    }
  }
}
