/** Stashed VP8 frames are only retried after a frame is handed off. When a stashed frame could be handed off, and
    exactly which frames that are not handed off themselves make it so. */
module Vp8Readiness {
  import opened SequenceNumbers
  import opened Options
  import opened Unwrapping
  import opened StashRetry
  import opened Vp8RefFinderModel

  predicate Ready(c: Core, f: Frame) {
    ManageFrameInternal(c, f).1.HandOff?
  }

  /** The frames that may be stashed. */
  predicate Stashable(f: Frame) {
    !f.isKey && f.temporalIdx < MAX_TEMPORAL_LAYERS
  }

  /** The base layer index of the frame, as it is unwrapped now. */
  function TlOf(c: Core, f: Frame): int {
    Unwrap(256, c.tl0Unwrapper, f.tl0PicIdx % 256).1
  }

  /** The layer info without which the frame is stashed. */
  function Base(f: Frame, tl0: int): int {
    if f.temporalIdx == 0 then tl0 - 1 else tl0
  }

  /** The layer info the frame is compared with. */
  function InfoFor(layers: map<int, LayerInfo>, f: Frame, tl0: int): LayerInfo
    requires Base(f, tl0) in layers
  {
    if f.temporalIdx == 0 && tl0 !in layers then layers[tl0 - 1] else layers[tl0]
  }

  /** The frame is newer than what it replaces, and what it refers to is there. */
  predicate Fits(info: LayerInfo, f: Frame)
    requires f.temporalIdx < MAX_TEMPORAL_LAYERS
  {
    if f.temporalIdx == 0 then !AheadOrAtMod(32768, info[0], f.Id())
    else if f.layerSync then info[f.temporalIdx] == -1 || !AheadOrAtMod(32768, info[f.temporalIdx], f.Id())
    else forall l | 0 <= l <= f.temporalIdx :: info[l] != -1 && AheadOfMod(32768, f.Id(), info[l])
  }

  /** A frame between the last one of some layer and this frame is recorded as still to come. */
  ghost predicate Waits(c: Core, info: LayerInfo, f: Frame)
    requires f.temporalIdx < MAX_TEMPORAL_LAYERS
  {
    f.temporalIdx > 0 && !f.layerSync
    && exists l :: 0 <= l <= f.temporalIdx && info[l] != -1 && GapBefore(c, info[l], f.Id())
  }

  ghost predicate ReadyWith(c: Core, layers: map<int, LayerInfo>, tl0: int, f: Frame)
    requires f.temporalIdx < MAX_TEMPORAL_LAYERS
  {
    Base(f, tl0) in layers && Fits(InfoFor(layers, f, tl0), f) && !Waits(c, InfoFor(layers, f, tl0), f)
  }

  lemma {:induction false} CollectsIff(c: Core, info: LayerInfo, f: Frame, layer: nat, refs: seq<PictureId>)
    requires f.temporalIdx < MAX_TEMPORAL_LAYERS && layer <= f.temporalIdx + 1
    ensures CollectReferences(c, info, f, layer, refs).Refs? <==>
              forall l | layer <= l <= f.temporalIdx ::
                info[l] != -1 && AheadOfMod(32768, f.Id(), info[l]) && !GapBefore(c, info[l], f.Id())
    decreases f.temporalIdx + 1 - layer
  {
    hide GapBefore;
    if layer <= f.temporalIdx && info[layer] != -1 {
      if info[layer] != f.Id() {
        AheadOfIsTotal(32768, info[layer], f.Id());
      }
      CollectsIff(c, info, f, layer + 1, refs + [info[layer]]);
    }
  }

  /** A frame that is no keyframe is handed off exactly if its base layer is known, it fits, and it waits for nothing. */
  lemma ReadyIff(c: Core, f: Frame)
    requires Stashable(f)
    ensures Ready(c, f) <==> ReadyWith(NotePictureId(c, f.Id()), c.layerInfo, TlOf(c, f), f)
  {
    var (c1, tl0) := Refresh(c, f);
    hide NotePictureId, UpdateLayers, UnwrapAll, CollectReferences, GapBefore, Unwrap;
    assert Base(f, tl0) in c.layerInfo <==> Base(f, tl0) in c1.layerInfo;
    if Base(f, tl0) in c1.layerInfo {
      var info := InfoFor(c1.layerInfo, f, tl0);
      assert info == InfoFor(c.layerInfo, f, tl0);
      CollectsIff(c1, info, f, 0, []);
      SameRecordSameGap(c1, NotePictureId(c, f.Id()), info, f);
    }
  }

  lemma SameRecordSameGap(c: Core, d: Core, info: LayerInfo, f: Frame)
    requires c.notYetReceived == d.notYetReceived && f.temporalIdx < MAX_TEMPORAL_LAYERS
    ensures Waits(c, info, f) <==> Waits(d, info, f)
    ensures forall l | 0 <= l < MAX_TEMPORAL_LAYERS && info[l] != -1 :: GapBefore(c, info[l], f.Id()) <==> GapBefore(d, info[l], f.Id())
  {
  }

  // ----- a frame that is not handed off

  /** The frame extends the layer infos by its own base layer, is found to be old, and is dropped. */
  predicate DroppedBaseLayer(c: Core, f: Frame) {
    var tl0 := TlOf(c, f);
    && !f.isKey && f.temporalIdx == 0 && tl0 - 1 in c.layerInfo && tl0 !in c.layerInfo
    && AheadOrAtMod(32768, c.layerInfo[tl0 - 1][0], f.Id())
  }

  /** The layer infos left by a frame that is not handed off. */
  function LayersAfter(c: Core, f: Frame): map<int, LayerInfo> {
    var tl0 := TlOf(c, f);
    var kept := map t | t in c.layerInfo && t >= tl0 - MAX_LAYER_INFO :: c.layerInfo[t];
    if DroppedBaseLayer(c, f) then kept[tl0 := c.layerInfo[tl0 - 1]] else kept
  }

  /** How the base layer index of `g` is unwrapped once that of `f` has been. */
  function TlAfter(c: Core, f: Frame, g: Frame): int {
    Unwrap(256, Unwrapper(Some(f.tl0PicIdx % 256), TlOf(c, f)), g.tl0PicIdx % 256).1
  }

  /** The record of ids not yet received once `f` and then `g` have been considered. */
  function NotedAfter(c: Core, f: Frame, g: Frame): Core {
    NotePictureId(NotePictureId(c, f.Id()), g.Id())
  }

  lemma IdleFrameLeaves(c: Core, f: Frame)
    requires !Ready(c, f) && f.temporalIdx < MAX_TEMPORAL_LAYERS
    ensures var c', noted := ManageFrameInternal(c, f).0, NotePictureId(c, f.Id());
            && c'.layerInfo == LayersAfter(c, f)
            && c'.tl0Unwrapper == Unwrapper(Some(f.tl0PicIdx % 256), TlOf(c, f))
            && c'.lastPictureId == noted.lastPictureId && c'.notYetReceived == noted.notYetReceived
            && c'.unwrapper == c.unwrapper
  {
    hide CollectReferences, NotePictureId, UpdateLayers, UnwrapAll, AheadOrAtMod;
    NotingKeepsTheRest(c, f.Id());
  }

  lemma NotingKeepsTheRest(c: Core, id: PictureId)
    ensures var noted := NotePictureId(c, id);
            noted.layerInfo == c.layerInfo && noted.tl0Unwrapper == c.tl0Unwrapper && noted.unwrapper == c.unwrapper
  {
  }

  lemma SameRecordSameNote(c: Core, d: Core, id: PictureId)
    requires c.notYetReceived == d.notYetReceived && c.lastPictureId == d.lastPictureId
    ensures NotePictureId(c, id).notYetReceived == NotePictureId(d, id).notYetReceived
    ensures NotePictureId(c, id).lastPictureId == NotePictureId(d, id).lastPictureId
  {
  }

  /** The base layer that `g` needs becomes known, by `f` being dropped. */
  ghost predicate KnownByDrop(c: Core, f: Frame, g: Frame)
    requires g.temporalIdx < MAX_TEMPORAL_LAYERS
  {
    var base := Base(g, TlOf(c, g));
    && TlAfter(c, f, g) == TlOf(c, g)
    && base !in c.layerInfo && DroppedBaseLayer(c, f) && base == TlOf(c, f)
    && var info := InfoFor(LayersAfter(c, f), g, TlOf(c, g));
       Fits(info, g) && !Waits(NotedAfter(c, f, g), info, g)
  }

  /** The last id that `g` waits for leaves the record. */
  ghost predicate Forgotten(c: Core, f: Frame, g: Frame)
    requires g.temporalIdx < MAX_TEMPORAL_LAYERS
  {
    var base := Base(g, TlOf(c, g));
    && TlAfter(c, f, g) == TlOf(c, g)
    && base in c.layerInfo && base >= TlOf(c, f) - MAX_LAYER_INFO
    && var info := InfoFor(c.layerInfo, g, TlOf(c, g));
       Fits(info, g) && Waits(NotePictureId(c, g.Id()), info, g) && !Waits(NotedAfter(c, f, g), info, g)
  }

  /** The base layer index of `g` unwraps to another one, which is known. */
  ghost predicate Rewrapped(c: Core, f: Frame, g: Frame)
    requires g.temporalIdx < MAX_TEMPORAL_LAYERS
  {
    TlAfter(c, f, g) != TlOf(c, g) && ReadyWith(NotedAfter(c, f, g), LayersAfter(c, f), TlAfter(c, f, g), g)
  }

  /** Exactly when a frame `f` that is not handed off makes another, or itself, one that would be. */
  lemma WhatMakesReady(c: Core, f: Frame, g: Frame)
    requires !Ready(c, f) && f.temporalIdx < MAX_TEMPORAL_LAYERS
    requires !Ready(c, g) && Stashable(g)
    ensures Ready(ManageFrameInternal(c, f).0, g) <==> KnownByDrop(c, f, g) || Forgotten(c, f, g) || Rewrapped(c, f, g)
  {
    hide Ready, Fits, Waits, NotePictureId, Unwrap, AheadOrAtMod;
    var c' := ManageFrameInternal(c, f).0;
    ReadyIff(c, g);
    ReadyIff(c', g);
    IdleFrameLeaves(c, f);
    SameRecordSameNote(c', NotePictureId(c, f.Id()), g.Id());
    hide ManageFrameInternal;
    var layers, tl0 := LayersAfter(c, f), TlAfter(c, f, g);
    assert TlOf(c', g) == tl0;
    if Base(g, tl0) in layers {
      SameRecordSameGap(NotePictureId(c', g.Id()), NotedAfter(c, f, g), InfoFor(layers, g, tl0), g);
    }
  }

  // ----- a call that hands frames off

  ghost predicate Causes(c: Core, f: Frame, g: Frame) {
    && !Ready(c, f) && !Ready(c, g) && f.temporalIdx < MAX_TEMPORAL_LAYERS && Stashable(g)
    && (KnownByDrop(c, f, g) || Forgotten(c, f, g) || Rewrapped(c, f, g))
  }

  /** A pass over `pending` from `c` on considers frame `f` at state `d`. */
  ghost predicate PassVisits(c: Core, pending: seq<Frame>, d: Core, f: Frame)
    decreases |pending|
  {
    pending != []
    && ((d == c && f == pending[0]) || PassVisits(ManageFrameInternal(c, pending[0]).0, pending[1..], d, f))
  }

  /** Where the last pass of a retry starts, the one that hands nothing off. */
  function LastPass(c: Core, stash: seq<Frame>): (r: (Core, seq<Frame>))
    ensures RetryPass(ManageFrameInternal, r.0, r.1) == RetryPass(ManageFrameInternal, r.0, r.1).(handed := [])
    ensures Retry(ManageFrameInternal, c, stash).core == RetryPass(ManageFrameInternal, r.0, r.1).core
    ensures Retry(ManageFrameInternal, c, stash).kept == RetryPass(ManageFrameInternal, r.0, r.1).kept
    ensures forall f | f in r.1 :: f in stash
    decreases |stash|
  {
    var pass := RetryPass(ManageFrameInternal, c, stash);
    if pass.handed == [] then (c, stash)
    else
      KeptWasPending(c, stash);
      LastPass(pass.core, pass.kept)
  }

  lemma {:induction false} KeptWasPending(c: Core, pending: seq<Frame>)
    ensures forall f | f in RetryPass(ManageFrameInternal, c, pending).kept :: f in pending
    decreases |pending|
  {
    hide ManageFrameInternal;
    if pending != [] {
      KeptWasPending(ManageFrameInternal(c, pending[0]).0, pending[1..]);
    }
  }

  ghost predicate AllStashable(frames: seq<Frame>) {
    forall f | f in frames :: Stashable(f)
  }

  /** What becomes ready in a pass that hands nothing off, does so at one of the frames it considers. */
  lemma {:induction false} ReadyWithinPass(c: Core, pending: seq<Frame>, g: Frame) returns (d: Core, f: Frame)
    requires AllStashable(pending) && RetryPass(ManageFrameInternal, c, pending).handed == []
    requires Stashable(g) && !Ready(c, g) && Ready(RetryPass(ManageFrameInternal, c, pending).core, g)
    ensures PassVisits(c, pending, d, f) && Causes(d, f, g)
    decreases |pending|
  {
    hide ManageFrameInternal, KnownByDrop, Forgotten, Rewrapped;
    d, f := c, pending[0];
    var c1 := ManageFrameInternal(c, pending[0]).0;
    assert Stashable(pending[0]);
    if Ready(c1, g) {
      WhatMakesReady(c, pending[0], g);
    } else {
      d, f := ReadyWithinPass(c1, pending[1..], g);
    }
  }

  lemma {:induction false} ReadyAfterPass(c: Core, pending: seq<Frame>, g: Frame) returns (d: Core, f: Frame)
    requires AllStashable(pending) && RetryPass(ManageFrameInternal, c, pending).handed == []
    requires g in RetryPass(ManageFrameInternal, c, pending).kept && Ready(RetryPass(ManageFrameInternal, c, pending).core, g)
    ensures PassVisits(c, pending, d, f) && Causes(d, f, g)
    decreases |pending|
  {
    hide ManageFrameInternal, KnownByDrop, Forgotten, Rewrapped;
    KeptWasPending(c, pending);
    d, f := c, pending[0];
    var c1 := ManageFrameInternal(c, pending[0]).0;
    if g in RetryPass(ManageFrameInternal, c1, pending[1..]).kept {
      d, f := ReadyAfterPass(c1, pending[1..], g);
    } else if Ready(c1, g) {
      WhatMakesReady(c, g, g);
    } else {
      d, f := ReadyWithinPass(c1, pending[1..], g);
    }
  }

  /** The call considers frame `h` at state `d`: the frame that came, or a stashed one in the last pass. */
  ghost predicate CallVisits(st: State, f: Frame, d: Core, h: Frame) {
    if Ready(st.core, f) then
      var (c, pending) := LastPass(ManageFrameInternal(st.core, f).0, st.stash);
      PassVisits(c, pending, d, h)
    else d == st.core && h == f
  }

  /** Whenever a call leaves a ready frame stashed, a frame it considered without handing it off made it ready in one
      of the three ways. */
  lemma LeftReadyHasCause(st: State, f: Frame, g: Frame) returns (d: Core, h: Frame)
    requires AllStashable(st.stash) && forall x | x in st.stash :: !Ready(st.core, x)
    requires var st' := Step(st, Manage(f)).0; g in st'.stash && Ready(st'.core, g)
    ensures CallVisits(st, f, d, h) && Causes(d, h, g)
  {
    hide KnownByDrop, Forgotten, Rewrapped, PassVisits;
    if Ready(st.core, f) {
      hide ManageFrameInternal;
      var (c, pending) := LastPass(ManageFrameInternal(st.core, f).0, st.stash);
      d, h := ReadyAfterPass(c, pending, g);
    } else {
      d, h := st.core, f;
      if f.temporalIdx < MAX_TEMPORAL_LAYERS {
        if ManageFrameInternal(st.core, f).1.Stash? {
          StashedIsStashable(st.core, f);
        }
        WhatMakesReady(st.core, f, g);
      }
    }
  }

  lemma StashedIsStashable(c: Core, f: Frame)
    requires ManageFrameInternal(c, f).1.Stash?
    ensures Stashable(f)
  {
    hide NotePictureId, UpdateLayers, UnwrapAll, CollectReferences;
  }
}
