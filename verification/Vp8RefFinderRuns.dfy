/** Over every run of the VP8 reference finder, references point at frames handed off earlier. */
module Vp8RefFinderRuns {
  import opened SequenceNumbers
  import opened Unwrapping
  import opened StashRetry
  import opened Vp8RefFinderModel

  type History = seq<Handed>

  /** Some frame handed off had picture id `p`. */
  ghost predicate HandedOffId(p: int, history: History) {
    exists j :: 0 <= j < |history| && history[j].frame.Id() == p
  }

  /** How many references a frame has: none for a keyframe, one for a base layer or layer sync frame,
      one per layer up to its own otherwise. */
  function ReferenceCount(f: Frame): nat {
    if f.isKey then 0 else if f.temporalIdx == 0 || f.layerSync then 1 else f.temporalIdx + 1
  }

  /** Each reference of `h` is, as a 15-bit picture id, that of a frame handed off before; and unless the frame is
      a layer sync frame it is one the frame is ahead of. */
  ghost predicate ReferencesHold(h: Handed, history: History) {
    && h.id % 32768 == h.frame.Id()
    && |h.references| == ReferenceCount(h.frame)
    && (forall k | 0 <= k < |h.references| :: HandedOffId(h.references[k] % 32768, history))
    && (h.frame.temporalIdx == 0 || !h.frame.layerSync ==>
          forall k | 0 <= k < |h.references| :: AheadOfMod(32768, h.frame.Id(), h.references[k] % 32768))
  }

  ghost predicate NoDangling(history: History) {
    forall i | 0 <= i < |history| :: ReferencesHold(history[i], history[..i])
  }

  /** A layer info names frames handed off, and always one on the base layer. */
  ghost predicate InfoGrounded(info: LayerInfo, history: History) {
    info[0] != -1 && forall i | 0 <= i < MAX_TEMPORAL_LAYERS :: info[i] == -1 || HandedOffId(info[i], history)
  }

  ghost predicate LayersGrounded(layers: map<int, LayerInfo>, history: History) {
    forall t | t in layers :: InfoGrounded(layers[t], history)
  }

  ghost predicate Grounded(c: Core, history: History) {
    LayersGrounded(c.layerInfo, history) && Unwrapped(32768, c.unwrapper)
  }

  ghost predicate Linked(c: Core, history: History) {
    Grounded(c, history) && NoDangling(history)
  }

  lemma LayersStayGrounded(layers: map<int, LayerInfo>, history: History, h: Handed)
    requires LayersGrounded(layers, history)
    ensures LayersGrounded(layers, history + [h])
  {
    forall t, i | t in layers && 0 <= i < MAX_TEMPORAL_LAYERS && layers[t][i] != -1
      ensures HandedOffId(layers[t][i], history + [h])
    {
      assert InfoGrounded(layers[t], history);
      var j :| 0 <= j < |history| && history[j].frame.Id() == layers[t][i];
      assert (history + [h])[j].frame.Id() == layers[t][i];
    }
  }

  lemma NoDanglingExtend(history: History, h: Handed)
    requires NoDangling(history) && ReferencesHold(h, history)
    ensures NoDangling(history + [h])
  {
    var longer := history + [h];
    forall i | 0 <= i < |longer| ensures ReferencesHold(longer[i], longer[..i]) {
      if i < |history| {
        assert longer[..i] == history[..i];
      } else {
        assert longer[..i] == history;
      }
    }
  }

  lemma {:induction false} UpdateLayersGrounded(layers: map<int, LayerInfo>, tl0: int, idx: nat, id: PictureId, history: History)
    requires idx < MAX_TEMPORAL_LAYERS && LayersGrounded(layers, history) && HandedOffId(id, history)
    ensures LayersGrounded(UpdateLayers(layers, tl0, idx, id), history)
    decreases NewerThan(layers, tl0)
  {
    if !(tl0 !in layers || (layers[tl0][idx] != -1 && AheadOfMod(32768, layers[tl0][idx], id))) {
      var layers' := layers[tl0 := layers[tl0][idx := id]];
      assert tl0 in NewerThan(layers, tl0) && NewerThan(layers', tl0 + 1) == NewerThan(layers, tl0) - {tl0};
      assert InfoGrounded(layers[tl0], history);
      UpdateLayersGrounded(layers', tl0 + 1, idx, id, history);
    }
  }

  /** A keyframe starts its layer info afresh; the first update gives it its base layer. */
  lemma KeyframeLayersGrounded(layers: map<int, LayerInfo>, tl0: int, id: PictureId, history: History)
    requires LayersGrounded(layers, history) && HandedOffId(id, history)
    ensures LayersGrounded(UpdateLayers(layers[tl0 := NO_LAYERS], tl0, 0, id), history)
  {
    var renewed := layers[tl0 := NO_LAYERS];
    var layers' := renewed[tl0 := renewed[tl0][0 := id]];
    assert InfoGrounded(layers'[tl0], history);
    UpdateLayersGrounded(layers', tl0 + 1, 0, id, history);
  }

  lemma {:induction false} UnwrapAllIsCongruent(u: Unwrapper, refs: seq<IdOrNone>)
    requires Unwrapped(32768, u) && forall k | 0 <= k < |refs| :: refs[k] != -1
    ensures var (u', xs) := UnwrapAll(u, refs);
            Unwrapped(32768, u') && forall k | 0 <= k < |refs| :: xs[k] % 32768 == refs[k]
    decreases |refs|
  {
    if refs != [] {
      UnwrapIsCongruent(32768, u, refs[0]);
      UnwrapAllIsCongruent(Unwrap(32768, u, refs[0]).0, refs[1..]);
    }
  }

  /** Handing a frame off with grounded references keeps everything linked. */
  lemma ReleaseIsLinked(c: Core, f: Frame, tl0: int, refs: seq<IdOrNone>, history: History)
    requires f.temporalIdx < MAX_TEMPORAL_LAYERS && |refs| == ReferenceCount(f) && NoDangling(history)
    requires Unwrapped(32768, c.unwrapper)
    requires if f.isKey then f.temporalIdx == 0 && exists base :: LayersGrounded(base, history) && c.layerInfo == base[tl0 := NO_LAYERS]
             else LayersGrounded(c.layerInfo, history)
    requires forall k | 0 <= k < |refs| :: refs[k] != -1 && HandedOffId(refs[k], history)
    requires f.temporalIdx == 0 || !f.layerSync ==> forall k | 0 <= k < |refs| :: AheadOfMod(32768, f.Id(), refs[k])
    ensures var (c', decision) := Release(c, f, tl0, refs);
            Linked(c', history + [decision.handed])
  {
    var (u1, references) := UnwrapAll(c.unwrapper, refs);
    var (u2, id) := Unwrap(32768, u1, f.Id());
    UnwrapAllIsCongruent(c.unwrapper, refs);
    UnwrapIsCongruent(32768, u1, f.Id());
    var h := Handed(f, id, references);
    NoDanglingExtend(history, h);
    var longer := history + [h];
    assert longer[|history|].frame.Id() == f.Id();
    if f.isKey {
      var base :| LayersGrounded(base, history) && c.layerInfo == base[tl0 := NO_LAYERS];
      LayersStayGrounded(base, history, h);
      KeyframeLayersGrounded(base, tl0, f.Id(), longer);
    } else {
      LayersStayGrounded(c.layerInfo, history, h);
      UpdateLayersGrounded(c.layerInfo, tl0, f.temporalIdx, f.Id(), longer);
    }
  }

  lemma {:induction false} CollectedReferencesHold(c: Core, info: LayerInfo, f: Frame, layer: nat, refs: seq<PictureId>, history: History)
    requires f.temporalIdx < MAX_TEMPORAL_LAYERS && layer == |refs| <= f.temporalIdx + 1
    requires InfoGrounded(info, history)
    requires forall k | 0 <= k < |refs| :: HandedOffId(refs[k], history) && AheadOfMod(32768, f.Id(), refs[k])
    ensures var r := CollectReferences(c, info, f, layer, refs);
            r.Refs? ==> |r.refs| == f.temporalIdx + 1
                        && forall k | 0 <= k < |r.refs| :: HandedOffId(r.refs[k], history) && AheadOfMod(32768, f.Id(), r.refs[k])
    decreases f.temporalIdx + 1 - layer
  {
    if layer <= f.temporalIdx && info[layer] != -1 {
      if AheadOfMod(32768, f.Id(), info[layer]) {
        CollectedReferencesHold(c, info, f, layer + 1, refs + [info[layer]], history);
      }
    }
  }

  lemma DecideIsLinked(c: Core, f: Frame, tl0: int, history: History)
    requires f.temporalIdx < MAX_TEMPORAL_LAYERS && Linked(c, history)
    ensures var (c', decision) := Decide(c, f, tl0);
            Linked(c', if decision.HandOff? then history + [decision.handed] else history)
  {
    var base := if f.temporalIdx == 0 then tl0 - 1 else tl0;
    if f.isKey {
      if f.temporalIdx == 0 {
        ReleaseIsLinked(c.(layerInfo := c.layerInfo[tl0 := NO_LAYERS]), f, tl0, [], history);
      }
    } else if base !in c.layerInfo {
    } else if f.temporalIdx == 0 {
      assert InfoGrounded(c.layerInfo[base], history);
      var c1 := if tl0 in c.layerInfo then c else c.(layerInfo := c.layerInfo[tl0 := c.layerInfo[base]]);
      assert InfoGrounded(c1.layerInfo[tl0], history);
      var last := c1.layerInfo[tl0][0];
      if !AheadOrAtMod(32768, last, f.Id()) {
        AheadOfIsTotal(32768, last, f.Id());
        ReleaseIsLinked(c1, f, tl0, [last], history);
      }
    } else {
      assert InfoGrounded(c.layerInfo[tl0], history);
      if f.layerSync {
        ReleaseIsLinked(c, f, tl0, [c.layerInfo[tl0][0]], history);
      } else {
        CollectedReferencesHold(c, c.layerInfo[tl0], f, 0, [], history);
        var r := CollectReferences(c, c.layerInfo[tl0], f, 0, []);
        if r.Refs? {
          ReleaseIsLinked(c, f, tl0, r.refs, history);
        }
      }
    }
  }

  /** Noting the picture id and forgetting old base layers leaves what is known of the others. */
  lemma RefreshIsLinked(c: Core, f: Frame, history: History)
    requires Linked(c, history)
    ensures Linked(Refresh(c, f).0, history)
  {
    var layers := Refresh(c, f).0.layerInfo;
    forall t | t in layers ensures InfoGrounded(layers[t], history) {
      assert InfoGrounded(c.layerInfo[t], history);
    }
  }

  lemma ManageIsLinked(c: Core, f: Frame, history: History)
    requires Linked(c, history)
    ensures var (c', decision) := ManageFrameInternal(c, f);
            Linked(c', if decision.HandOff? then history + [decision.handed] else history)
  {
    if f.temporalIdx < MAX_TEMPORAL_LAYERS {
      RefreshIsLinked(c, f, history);
      DecideIsLinked(Refresh(c, f).0, f, Refresh(c, f).1, history);
    }
  }

  lemma {:induction false} PassIsLinked(c: Core, pending: seq<Frame>, history: History)
    requires Linked(c, history)
    ensures var pass := RetryPass(ManageFrameInternal, c, pending); Linked(pass.core, history + pass.handed)
    decreases |pending|
  {
    if pending == [] {
      assert history + [] == history;
    } else {
      ManageIsLinked(c, pending[0], history);
      var (c1, decision) := ManageFrameInternal(c, pending[0]);
      var rest := RetryPass(ManageFrameInternal, c1, pending[1..]);
      if decision.HandOff? {
        PassIsLinked(c1, pending[1..], history + [decision.handed]);
        Associative(history, [decision.handed], rest.handed);
      } else {
        PassIsLinked(c1, pending[1..], history);
      }
    }
  }

  lemma Associative(a: History, b: History, c: History)
    ensures (a + b) + c == a + (b + c)
  {
  }

  lemma {:induction false} RetryIsLinked(c: Core, stash: seq<Frame>, history: History)
    requires Linked(c, history)
    ensures var pass := Retry(ManageFrameInternal, c, stash); Linked(pass.core, history + pass.handed)
    decreases |stash|
  {
    PassIsLinked(c, stash, history);
    var pass := RetryPass(ManageFrameInternal, c, stash);
    if pass.handed != [] {
      RetryIsLinked(pass.core, pass.kept, history + pass.handed);
      Associative(history, pass.handed, Retry(ManageFrameInternal, pass.core, pass.kept).handed);
    }
  }

  lemma StepIsLinked(st: State, op: Op, history: History)
    requires Linked(st.core, history)
    ensures Linked(Step(st, op).0.core, history + Step(st, op).1)
  {
    assert history + [] == history;
    match op
    case ClearUpTo(s) =>
    case Manage(f) =>
      ManageIsLinked(st.core, f, history);
      var (c, decision) := ManageFrameInternal(st.core, f);
      if decision.HandOff? {
        RetryIsLinked(c, st.stash, history + [decision.handed]);
        Associative(history, [decision.handed], Retry(ManageFrameInternal, c, st.stash).handed);
      }
  }

  lemma {:induction false} RunIsLinked(st: State, ops: seq<Op>, history: History)
    requires Linked(st.core, history)
    ensures Linked(After(st, ops).core, history + HandedOff(st, ops))
    decreases |ops|
  {
    if ops == [] {
      assert history + [] == history;
    } else {
      StepIsLinked(st, ops[0], history);
      RunIsLinked(Step(st, ops[0]).0, ops[1..], history + Step(st, ops[0]).1);
      Associative(history, Step(st, ops[0]).1, HandedOff(Step(st, ops[0]).0, ops[1..]));
    }
  }

  /** Over every run: no reference dangles, and every layer info has a base layer frame. */
  lemma RunReferencesHold(ops: seq<Op>)
    ensures NoDangling(HandedOff(INIT, ops))
    ensures var layers := After(INIT, ops).core.layerInfo;
            forall t | t in layers :: layers[t][0] != -1 && HandedOffId(layers[t][0], HandedOff(INIT, ops))
  {
    RunIsLinked(INIT, ops, []);
    assert [] + HandedOff(INIT, ops) == HandedOff(INIT, ops);
    var layers := After(INIT, ops).core.layerInfo;
    forall t | t in layers ensures layers[t][0] != -1 && HandedOffId(layers[t][0], HandedOff(INIT, ops)) {
      assert InfoGrounded(layers[t], HandedOff(INIT, ops));
    }
  }

  /** At most 100 picture ids are recorded as not yet received for any one frame. */
  lemma GapIsShort(lastPictureId: IdOrNone, id: PictureId)
    ensures var last := LastConsidered(lastPictureId, id);
            AheadOfMod(32768, id, last) ==> DiffMod(32768, last, id) <= MAX_NOT_YET_RECEIVED
  {
  }

  /** The stash never holds more than 101 frames. */
  lemma {:induction false} StashIsBounded(st: State, ops: seq<Op>)
    requires |st.stash| <= MAX_STASHED_FRAMES + 1
    ensures |After(st, ops).stash| <= MAX_STASHED_FRAMES + 1
    decreases |ops|
  {
    if ops != [] {
      StashIsBounded(Step(st, ops[0]).0, ops[1..]);
    }
  }
}
