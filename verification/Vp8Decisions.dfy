/** When the VP8 finder stashes a frame and when it drops one. */
module Vp8Decisions {
  import opened SequenceNumbers
  import opened Unwrapping
  import opened Vp8RefFinderModel
  import opened Vp8Readiness

  /** The last frame of the layer is there, older than this one, and nothing between the two is still to come. */
  predicate FineAt(c: Core, info: LayerInfo, f: Frame, l: nat)
    requires l < MAX_TEMPORAL_LAYERS
  {
    info[l] != -1 && AheadOfMod(32768, f.Id(), info[l]) && !GapBefore(c, info[l], f.Id())
  }

  /** There is none yet, or something between it and this one is still to come. */
  predicate MissingAt(c: Core, info: LayerInfo, f: Frame, l: nat)
    requires l < MAX_TEMPORAL_LAYERS
  {
    info[l] == -1 || (!AheadOfMod(32768, info[l], f.Id()) && GapBefore(c, info[l], f.Id()))
  }

  /** On the first layer that is not fine something is missing. */
  ghost predicate WaitsForLayer(c: Core, info: LayerInfo, f: Frame)
    requires f.temporalIdx < MAX_TEMPORAL_LAYERS
  {
    exists l: nat :: l <= f.temporalIdx && MissingAt(c, info, f, l) && forall j: nat | j < l :: FineAt(c, info, f, j)
  }

  lemma {:induction false} CollectsMissing(c: Core, info: LayerInfo, f: Frame, layer: nat, refs: seq<PictureId>)
    requires f.temporalIdx < MAX_TEMPORAL_LAYERS && layer <= f.temporalIdx + 1 && forall j: nat | j < layer :: FineAt(c, info, f, j)
    ensures CollectReferences(c, info, f, layer, refs).Missing? <==> WaitsForLayer(c, info, f)
    decreases f.temporalIdx + 1 - layer
  {
    hide GapBefore;
    if layer <= f.temporalIdx {
      if info[layer] != -1 {
        OneAhead(info[layer], f.Id());
      }
      if FineAt(c, info, f, layer) {
        CollectsMissing(c, info, f, layer + 1, refs + [info[layer]]);
      } else {
        FirstNotFine(c, info, f, layer);
      }
    } else {
      assert forall l: nat | l <= f.temporalIdx :: FineAt(c, info, f, l) ==> !MissingAt(c, info, f, l);
    }
  }

  lemma FirstNotFine(c: Core, info: LayerInfo, f: Frame, layer: nat)
    requires layer <= f.temporalIdx < MAX_TEMPORAL_LAYERS && forall j: nat | j < layer :: FineAt(c, info, f, j)
    requires !FineAt(c, info, f, layer)
    ensures WaitsForLayer(c, info, f) <==> MissingAt(c, info, f, layer)
  {
    assert forall l: nat | l <= f.temporalIdx :: FineAt(c, info, f, l) ==> !MissingAt(c, info, f, l);
    hide MissingAt, FineAt;
  }

  /** A frame that fits and waits for a gap to close waits for the first layer that has one. */
  lemma {:induction false} GapMakesWait(c: Core, info: LayerInfo, f: Frame, layer: nat)
    requires layer <= f.temporalIdx < MAX_TEMPORAL_LAYERS
    requires forall l | 0 <= l <= f.temporalIdx :: info[l] != -1 && AheadOfMod(32768, f.Id(), info[l])
    requires forall j: nat | j < layer :: FineAt(c, info, f, j)
    requires exists l :: layer <= l <= f.temporalIdx && GapBefore(c, info[l], f.Id())
    ensures WaitsForLayer(c, info, f)
    decreases f.temporalIdx - layer
  {
    hide GapBefore;
    OneAhead(info[layer], f.Id());
    if GapBefore(c, info[layer], f.Id()) {
      assert MissingAt(c, info, f, layer);
    } else {
      GapMakesWait(c, info, f, layer + 1);
    }
  }

  lemma OneAhead(a: PictureId, b: PictureId)
    ensures !(AheadOfMod(32768, a, b) && AheadOfMod(32768, b, a))
  {
  }

  /** A frame of a temporal layer that there is is stashed exactly if it is no keyframe and the base layer it needs is not known,
      or if it is above the base layer, no layer sync frame, and waits for a frame of some layer. */
  lemma StashedIff(c: Core, f: Frame)
    requires f.temporalIdx < MAX_TEMPORAL_LAYERS
    ensures var tl0, noted := TlOf(c, f), NotePictureId(c, f.Id());
            var known := f.isKey || (Base(f, tl0) in c.layerInfo && Base(f, tl0) >= tl0 - MAX_LAYER_INFO);
            ManageFrameInternal(c, f).1.Stash? <==>
              !known || (!f.isKey && f.temporalIdx > 0 && !f.layerSync && WaitsForLayer(noted, c.layerInfo[tl0], f))
  {
    hide NotePictureId, WaitsForLayer, CollectReferences, UpdateLayers, UnwrapAll, Unwrap;
    NotingKeepsTheRest(c, f.Id());
    var c1, tl0 := Refresh(c, f).0, TlOf(c, f);
    if !f.isKey && f.temporalIdx > 0 && !f.layerSync && tl0 in c1.layerInfo {
      CollectsMissing(c1, c1.layerInfo[tl0], f, 0, []);
      SameWait(c1, NotePictureId(c, f.Id()), c1.layerInfo[tl0], f);
    }
  }

  lemma SameWait(c: Core, d: Core, info: LayerInfo, f: Frame)
    requires f.temporalIdx < MAX_TEMPORAL_LAYERS && c.notYetReceived == d.notYetReceived
    ensures WaitsForLayer(c, info, f) <==> WaitsForLayer(d, info, f)
  {
    SameRecordSameGap(c, d, info, f);
    hide GapBefore;
    assert forall l: nat | l < MAX_TEMPORAL_LAYERS :: MissingAt(c, info, f, l) == MissingAt(d, info, f, l) && FineAt(c, info, f, l) == FineAt(d, info, f, l);
  }

  /** It is dropped exactly if it is neither handed off nor stashed: a keyframe above the base layer, or one that is known to be
      too late. */
  lemma DroppedIff(c: Core, f: Frame)
    requires f.temporalIdx < MAX_TEMPORAL_LAYERS
    ensures var tl0, noted := TlOf(c, f), NotePictureId(c, f.Id());
            var known := Base(f, tl0) in c.layerInfo && Base(f, tl0) >= tl0 - MAX_LAYER_INFO;
            ManageFrameInternal(c, f).1.Drop? <==>
              if f.isKey then f.temporalIdx > 0
              else known && !Fits(InfoFor(c.layerInfo, f, tl0), f)
                   && (f.temporalIdx > 0 && !f.layerSync ==> !WaitsForLayer(noted, c.layerInfo[tl0], f))
  {
    var tl0, noted := TlOf(c, f), NotePictureId(c, f.Id());
    StashedIff(c, f);
    if f.isKey {
      KeyframeDecision(c, f);
    } else {
      ReadyIff(c, f);
      if f.temporalIdx > 0 && !f.layerSync && tl0 in c.layerInfo {
        UpperFrame(noted, c.layerInfo[tl0], f);
      }
    }
    hide ManageFrameInternal, NotePictureId, WaitsForLayer, Unwrap, Fits;
  }

  lemma UpperFrame(c: Core, info: LayerInfo, f: Frame)
    requires 0 < f.temporalIdx < MAX_TEMPORAL_LAYERS && !f.layerSync
    ensures Fits(info, f) && !f.isKey && Waits(c, info, f) ==> WaitsForLayer(c, info, f)
  {
    hide GapBefore;
    if Fits(info, f) && !f.isKey && Waits(c, info, f) {
      GapMakesWait(c, info, f, 0);
    }
  }

  lemma KeyframeDecision(c: Core, f: Frame)
    requires f.isKey && f.temporalIdx < MAX_TEMPORAL_LAYERS
    ensures ManageFrameInternal(c, f).1.Drop? <==> f.temporalIdx > 0
  {
    hide NotePictureId, UpdateLayers;
  }
}
