/** Which frames a VP8 frame refers to, from what has happened: the frames that were considered, with the base layer index each was
    taken to have, and which of them were handed off. */
module Vp8References {
  import opened SequenceNumbers
  import opened Options
  import opened OrderedNumbers
  import opened Unwrapping
  import opened StashRetry
  import opened Vp8RefFinderModel
  import opened Vp8RefFinderRuns
  import opened Vp8Readiness
  import opened Vp8Missing

  /** A frame was considered, with its base layer index unwrapped to `tl0`. */
  datatype Event = Event(frame: Frame, tl0: int, decision: Decision<Handed>)

  type Trace = seq<Event>

  // ----- what has happened

  /** The frame starts the base layer anew. */
  predicate StartsBase(e: Event, t: int) {
    e.frame.isKey && e.frame.temporalIdx == 0 && e.tl0 == t
  }

  predicate ContinuesBase(e: Event, t: int) {
    !e.frame.isKey && e.frame.temporalIdx == 0 && e.tl0 == t
  }

  /** Base layer `t` is known: a keyframe has started it, or a base layer frame continued the one before, which was known; and no
      frame of a base layer more than 50 on has been considered since. */
  predicate Known(trace: Trace, t: int) {
    trace != [] &&
    var rest, e := trace[..|trace| - 1], trace[|trace| - 1];
    && t >= e.tl0 - 50
    && (StartsBase(e, t) || Known(rest, t) || (ContinuesBase(e, t) && Known(rest, t - 1)))
  }

  /** The frame that was last handed off on layer `k` as far as base layer `t` goes, or -1. A keyframe knows none yet. A base layer
      that becomes known inherits what the one before has. A frame handed off is the last one on its layer for its own base layer
      and for those that are known further on, up to the first that has a newer one. */
  function Last(trace: Trace, t: int, k: nat): IdOrNone
    decreases |trace|, 2
  {
    if trace == [] then -1
    else
      var e := trace[|trace| - 1];
      if e.decision.HandOff? && e.frame.temporalIdx == k && Reaches(trace, t) then e.frame.Id() else Before(trace, t, k)
  }

  /** The same, without what was handed off in the last event. */
  function Before(trace: Trace, t: int, k: nat): IdOrNone
    requires trace != []
    decreases |trace|, 0
  {
    var rest, e := trace[..|trace| - 1], trace[|trace| - 1];
    if StartsBase(e, t) then -1
    else if ContinuesBase(e, t) && !Known(rest, t) then Last(rest, t - 1, k)
    else Last(rest, t, k)
  }

  /** The base layers from that of the last event to `t` are known, and none has a newer frame on its layer. */
  predicate Reaches(trace: Trace, t: int)
    requires trace != []
    decreases |trace|, 1
  {
    var e := trace[|trace| - 1];
    e.tl0 <= t && forall u | e.tl0 <= u <= t :: Known(trace, u) && !Newer(Before(trace, u, e.frame.temporalIdx), e.frame.Id())
  }

  predicate Newer(last: IdOrNone, id: PictureId) {
    last != -1 && AheadOfMod(32768, last, id)
  }

  // ----- what the finder knows

  /** The layer infos when a frame is decided on. */
  function Prepared(c: Core, f: Frame): map<int, LayerInfo> {
    var tl0 := TlOf(c, f);
    var kept := map t | t in c.layerInfo && t >= tl0 - MAX_LAYER_INFO :: c.layerInfo[t];
    Extended(kept, f, tl0)
  }

  lemma DecidedFrom(c: Core, f: Frame)
    requires f.temporalIdx < MAX_TEMPORAL_LAYERS
    ensures var (c', decision) := ManageFrameInternal(c, f);
            && c'.layerInfo == (if decision.HandOff? then UpdateLayers(Prepared(c, f), TlOf(c, f), f.temporalIdx, f.Id()) else Prepared(c, f))
            && c'.tl0Unwrapper == Unwrapper(Some(f.tl0PicIdx % 256), TlOf(c, f))
  {
    hide NotePictureId, UpdateLayers, AheadOrAtMod, Decide;
    NotingKeepsTheRest(c, f.Id());
    DecisionLeaves(Refresh(c, f).0, f, TlOf(c, f));
  }

  /** The layer infos a frame is decided on, once old ones are forgotten. */
  function Extended(layers: map<int, LayerInfo>, f: Frame, tl0: int): map<int, LayerInfo> {
    if f.isKey then (if f.temporalIdx == 0 then layers[tl0 := NO_LAYERS] else layers)
    else if f.temporalIdx == 0 && tl0 - 1 in layers && tl0 !in layers then layers[tl0 := layers[tl0 - 1]]
    else layers
  }

  lemma DecisionLeaves(c: Core, f: Frame, tl0: int)
    requires f.temporalIdx < MAX_TEMPORAL_LAYERS
    ensures var (c', decision) := Decide(c, f, tl0);
            && c'.tl0Unwrapper == c.tl0Unwrapper
            && c'.layerInfo == (if decision.HandOff? then UpdateLayers(Extended(c.layerInfo, f, tl0), tl0, f.temporalIdx, f.Id())
                                else Extended(c.layerInfo, f, tl0))
  {
    hide CollectReferences, UpdateLayers, UnwrapAll, AheadOrAtMod;
    var layers := c.layerInfo;
    if !f.isKey && f.temporalIdx == 0 && tl0 - 1 in layers {
      var c1 := if tl0 in layers then c else c.(layerInfo := layers[tl0 := layers[tl0 - 1]]);
      assert c1.layerInfo == Extended(layers, f, tl0);
    }
  }

  /** What handing off a frame on layer `k` of base layer `tl0` does to each layer of each base layer. */
  lemma {:induction false} UpdatedAt(layers: map<int, LayerInfo>, tl0: int, k: nat, id: PictureId, t: int)
    requires k < MAX_TEMPORAL_LAYERS && t in layers
    ensures var r := UpdateLayers(layers, tl0, k, id);
            && r.Keys == layers.Keys
            && r[t] == if tl0 <= t && forall u | tl0 <= u <= t :: u in layers && !Newer(layers[u][k], id) then layers[t][k := id]
                       else layers[t]
    decreases NewerThan(layers, tl0)
  {
    hide AheadOfMod;
    if tl0 in layers && !Newer(layers[tl0][k], id) {
      var layers' := layers[tl0 := layers[tl0][k := id]];
      assert tl0 in NewerThan(layers, tl0) && NewerThan(layers', tl0 + 1) == NewerThan(layers, tl0) - {tl0};
      UpdatedAt(layers', tl0 + 1, k, id, t);
      assert forall u | tl0 + 1 <= u <= t && u in layers :: layers'[u] == layers[u];
    }
  }

  /** The finder knows what has happened. */
  ghost predicate Knows(c: Core, trace: Trace) {
    && (forall t :: t in c.layerInfo <==> Known(trace, t))
    && (forall t, k | t in c.layerInfo && 0 <= k < MAX_TEMPORAL_LAYERS :: c.layerInfo[t][k] == Last(trace, t, k))
    && c.tl0Unwrapper == if trace == [] then NEW_UNWRAPPER
                         else Unwrapper(Some(trace[|trace| - 1].frame.tl0PicIdx % 256), trace[|trace| - 1].tl0)
  }

  function EventOf(c: Core, f: Frame): Event {
    Event(f, TlOf(c, f), ManageFrameInternal(c, f).1)
  }

  lemma PreparedIs(c: Core, f: Frame, trace: Trace)
    requires Knows(c, trace)
    ensures var more := trace + [EventOf(c, f)];
            && (forall t :: t in Prepared(c, f) <==> Known(more, t))
            && forall t, k | t in Prepared(c, f) && 0 <= k < MAX_TEMPORAL_LAYERS :: Prepared(c, f)[t][k] == Before(more, t, k)
  {
    var e := EventOf(c, f);
    var more := trace + [e];
    assert more[..|trace|] == trace && more[|more| - 1] == e;
    hide ManageFrameInternal, Unwrap;
    forall t ensures t in Prepared(c, f) <==> Known(more, t) {
      PreparedKeys(c, f, trace, t);
    }
    hide Known, Prepared, Knows;
    forall t, k | t in Prepared(c, f) && 0 <= k < MAX_TEMPORAL_LAYERS ensures Prepared(c, f)[t][k] == Before(more, t, k) {
      PreparedAt(c, f, trace, t, k);
    }
  }

  lemma PreparedKeys(c: Core, f: Frame, trace: Trace, t: int)
    requires Knows(c, trace)
    ensures t in Prepared(c, f) <==> Known(trace + [EventOf(c, f)], t)
  {
    var e := EventOf(c, f);
    var more := trace + [e];
    assert more[..|trace|] == trace && more[|more| - 1] == e;
    hide ManageFrameInternal, Unwrap, Last;
  }

  lemma PreparedAt(c: Core, f: Frame, trace: Trace, t: int, k: nat)
    requires Knows(c, trace) && t in Prepared(c, f) && k < MAX_TEMPORAL_LAYERS
    ensures Prepared(c, f)[t][k] == Before(trace + [EventOf(c, f)], t, k)
  {
    var e := EventOf(c, f);
    var more := trace + [e];
    assert more[..|trace|] == trace && more[|more| - 1] == e;
    hide ManageFrameInternal, Unwrap, Known, Last;
  }

  lemma ConsideringKnows(c: Core, f: Frame, trace: Trace)
    requires Knows(c, trace) && f.temporalIdx < MAX_TEMPORAL_LAYERS
    ensures Knows(ManageFrameInternal(c, f).0, trace + [EventOf(c, f)])
  {
    var e := EventOf(c, f);
    var more, layers := trace + [e], Prepared(c, f);
    var (c', decision) := ManageFrameInternal(c, f);
    DecidedFrom(c, f);
    PreparedIs(c, f, trace);
    assert more[|more| - 1] == e;
    hide ManageFrameInternal, Unwrap, Known, Prepared, UpdateLayers;
    if decision.HandOff? {
      forall t | t in layers
        ensures t in c'.layerInfo && forall k | 0 <= k < MAX_TEMPORAL_LAYERS :: c'.layerInfo[t][k] == Last(more, t, k)
      {
        UpdatedAt(layers, e.tl0, f.temporalIdx, f.Id(), t);
        assert Reaches(more, t) <==> e.tl0 <= t && forall u | e.tl0 <= u <= t :: u in layers && !Newer(layers[u][f.temporalIdx], f.Id());
      }
      SameKeys(layers, e.tl0, f.temporalIdx, f.Id());
    }
  }

  lemma {:induction false} SameKeys(layers: map<int, LayerInfo>, tl0: int, k: nat, id: PictureId)
    requires k < MAX_TEMPORAL_LAYERS
    ensures UpdateLayers(layers, tl0, k, id).Keys == layers.Keys
    decreases NewerThan(layers, tl0)
  {
    if tl0 in layers && !Newer(layers[tl0][k], id) {
      var layers' := layers[tl0 := layers[tl0][k := id]];
      assert tl0 in NewerThan(layers, tl0) && NewerThan(layers', tl0 + 1) == NewerThan(layers, tl0) - {tl0};
      SameKeys(layers', tl0 + 1, k, id);
    }
  }

  // ----- what a frame refers to

  lemma {:induction false} CollectedAre(c: Core, info: LayerInfo, f: Frame, layer: nat, refs: seq<PictureId>)
    requires f.temporalIdx < MAX_TEMPORAL_LAYERS && layer <= f.temporalIdx + 1
    ensures var r := CollectReferences(c, info, f, layer, refs);
            r.Refs? ==> && r.refs == refs + info[layer..f.temporalIdx + 1]
                        && forall l | layer <= l <= f.temporalIdx :: info[l] != -1 && AheadOfMod(32768, f.Id(), info[l])
    decreases f.temporalIdx + 1 - layer
  {
    hide GapBefore, AheadOfMod;
    if CollectReferences(c, info, f, layer, refs).Refs? && layer <= f.temporalIdx {
      CollectedAre(c, info, f, layer + 1, refs + [info[layer]]);
      assert refs + [info[layer]] + info[layer + 1..f.temporalIdx + 1] == refs + info[layer..f.temporalIdx + 1];
    } else {
      assert refs + info[f.temporalIdx + 1..f.temporalIdx + 1] == refs;
    }
  }

  /** The picture ids a frame handed off refers to. */
  function ReferredTo(layers: map<int, LayerInfo>, f: Frame, tl0: int): seq<IdOrNone>
    requires f.temporalIdx < MAX_TEMPORAL_LAYERS && tl0 in layers
  {
    layers[tl0][..ReferenceCount(f)]
  }

  /** What is handed off, from the layer infos it was decided on. */
  lemma HandedFrom(c: Core, f: Frame, tl0: int)
    requires f.temporalIdx < MAX_TEMPORAL_LAYERS
    ensures var (c', decision), layers := Decide(c, f, tl0), Extended(c.layerInfo, f, tl0);
            decision.HandOff? ==>
              && tl0 in layers && !Newer(layers[tl0][f.temporalIdx], f.Id())
              && decision == Release(c, f, tl0, ReferredTo(layers, f, tl0)).1
              && (f.isKey ==> f.temporalIdx == 0)
              && (f.temporalIdx > 0 && !f.layerSync ==> forall l | 0 <= l <= f.temporalIdx :: layers[tl0][l] != -1)
  {
    hide UpdateLayers, UnwrapAll, GapBefore, CollectReferences;
    var layers := c.layerInfo;
    if f.isKey {
      assert NO_LAYERS[..0] == [];
    } else if f.temporalIdx == 0 {
      if tl0 - 1 in layers {
        var info := Extended(layers, f, tl0)[tl0];
        assert info[..1] == [info[0]];
        NotBoth(info[0], f.Id());
      }
    } else if tl0 in layers {
      var info := layers[tl0];
      if f.layerSync {
        assert info[..1] == [info[0]];
        NotBoth(info[f.temporalIdx], f.Id());
      } else {
        CollectedAre(c, info, f, 0, []);
        assert [] + info[0..f.temporalIdx + 1] == info[..f.temporalIdx + 1];
        NotBoth(info[f.temporalIdx], f.Id());
      }
    }
  }

  lemma NotBoth(last: IdOrNone, id: PictureId)
    ensures last != -1 && (!AheadOrAtMod(32768, last, id) || AheadOfMod(32768, id, last)) ==> !Newer(last, id)
  {
  }

  /** If event `i` handed a frame off, that is the last one on its layer for its base layer now; and the references it was given
      are, layer by layer from the base layer on, the last ones before it: those of all layers up to its own, only the base
      layer's if it is a layer sync frame, the one of the base layer before if it is itself a base layer frame. */
  ghost predicate RefersToLast(trace: Trace, i: nat)
    requires i < |trace|
  {
    var e, more := trace[i], trace[..i + 1];
    e.decision.HandOff? ==>
      var h := e.decision.handed;
      && h.frame == e.frame && h.id % 32768 == e.frame.Id()
      && Last(more, e.tl0, e.frame.temporalIdx) == e.frame.Id()
      && |h.references| == ReferenceCount(e.frame)
      && forall k | 0 <= k < |h.references| :: h.references[k] % 32768 == Before(more, e.tl0, k)
  }

  /** The base layer index is the one of the frame modulo 256 that is nearest to that of the event before. */
  ghost predicate Unwraps(trace: Trace, i: nat)
    requires i < |trace|
  {
    && trace[i].tl0 % 256 == trace[i].frame.tl0PicIdx % 256
    && if i == 0 then trace[i].tl0 < 256 else -128 <= trace[i].tl0 - trace[i - 1].tl0 <= 128
  }

  /** What an event adds to the history of picture ids. */
  function NotesOf(e: Event): Log {
    [Comes(e.frame.Id())] + if e.decision.HandOff? then [Leaves(e.frame.Id())] else []
  }

  function LogOf(trace: Trace): Log {
    if trace == [] then [] else LogOf(trace[..|trace| - 1]) + NotesOf(trace[|trace| - 1])
  }

  ghost predicate Records(c: Core, log: Log) {
    Record(c.lastPictureId, c.notYetReceived) == Recorded(log)
  }

  /** The event is what the finder does when it knows what has happened before. */
  ghost predicate Follows(trace: Trace, i: nat)
    requires i < |trace|
  {
    exists c :: Knows(c, trace[..i]) && Records(c, LogOf(trace[..i])) && trace[i] == EventOf(c, trace[i].frame)
  }

  ghost predicate EventRight(trace: Trace, i: nat)
    requires i < |trace|
  {
    RefersToLast(trace, i) && Unwraps(trace, i) && trace[i].frame.temporalIdx < MAX_TEMPORAL_LAYERS && Follows(trace, i)
  }

  lemma IndexUnwraps(c: Core, f: Frame, trace: Trace)
    requires Knows(c, trace) && (trace != [] ==> Unwraps(trace, |trace| - 1))
    ensures Unwraps(trace + [EventOf(c, f)], |trace|)
  {
    var more := trace + [EventOf(c, f)];
    assert more[|trace|] == EventOf(c, f) && (trace != [] ==> more[|trace| - 1] == trace[|trace| - 1]);
    UnwrapIsCongruent(256, c.tl0Unwrapper, f.tl0PicIdx % 256);
    if trace != [] {
      UnwrapIsNearest(256, c.tl0Unwrapper, f.tl0PicIdx % 256);
    }
    hide Unwrap, ManageFrameInternal, Known, Last;
  }

  function HandedIn(trace: Trace): seq<Handed> {
    if trace == [] then []
    else
      HandedIn(trace[..|trace| - 1])
      + if trace[|trace| - 1].decision.HandOff? then [trace[|trace| - 1].decision.handed] else []
  }

  ghost predicate AllRight(c: Core, trace: Trace) {
    && Knows(c, trace) && Linked(c, HandedIn(trace)) && Records(c, LogOf(trace))
    && (forall i: nat | i < |trace| :: EventRight(trace, i))
  }

  lemma ReferencesAre(c: Core, f: Frame, tl0: int, refs: seq<IdOrNone>)
    requires f.temporalIdx < MAX_TEMPORAL_LAYERS && Unwrapped(32768, c.unwrapper)
    requires forall k | 0 <= k < |refs| :: refs[k] != -1
    ensures var h := Release(c, f, tl0, refs).1.handed;
            && h.frame == f && h.id % 32768 == f.Id() && |h.references| == |refs|
            && forall k | 0 <= k < |refs| :: h.references[k] % 32768 == refs[k]
  {
    UnwrapAllIsCongruent(c.unwrapper, refs);
    UnwrapIsCongruent(32768, UnwrapAll(c.unwrapper, refs).0, f.Id());
    hide UnwrapAll, Unwrap, UpdateLayers;
  }

  /** Base layers known have a base layer frame. */
  lemma PreparedGrounded(c: Core, f: Frame, history: History)
    requires Linked(c, history) && f.temporalIdx < MAX_TEMPORAL_LAYERS && !f.isKey && TlOf(c, f) in Prepared(c, f)
    ensures Prepared(c, f)[TlOf(c, f)][0] != -1
  {
    hide NoDangling, HandedOffId, Unwrap;
    assert forall t | t in c.layerInfo :: InfoGrounded(c.layerInfo[t], history);
  }

  lemma ReferredToAre(layers: map<int, LayerInfo>, f: Frame, tl0: int)
    requires f.temporalIdx < MAX_TEMPORAL_LAYERS && tl0 in layers
    requires !f.isKey ==> layers[tl0][0] != -1
    requires f.temporalIdx > 0 && !f.layerSync ==> forall l | 0 <= l <= f.temporalIdx :: layers[tl0][l] != -1
    ensures var refs := ReferredTo(layers, f, tl0);
            |refs| == ReferenceCount(f) <= MAX_TEMPORAL_LAYERS && forall k | 0 <= k < |refs| :: refs[k] == layers[tl0][k] != -1
  {
  }

  /** A frame handed off, in terms of the layer infos it was decided on. */
  lemma HandedOffFrom(c: Core, f: Frame, trace: Trace)
    requires Linked(c, HandedIn(trace)) && f.temporalIdx < MAX_TEMPORAL_LAYERS && ManageFrameInternal(c, f).1.HandOff?
    ensures var h, layers, tl0 := ManageFrameInternal(c, f).1.handed, Prepared(c, f), TlOf(c, f);
            && tl0 in layers && !Newer(layers[tl0][f.temporalIdx], f.Id())
            && h.frame == f && h.id % 32768 == f.Id() && |h.references| == ReferenceCount(f) <= MAX_TEMPORAL_LAYERS
            && forall k | 0 <= k < |h.references| :: h.references[k] % 32768 == layers[tl0][k]
  {
    var layers, tl0 := Prepared(c, f), TlOf(c, f);
    DecideSame(c, f);
    var c1 := Refresh(c, f).0;
    assert Unwrapped(32768, c1.unwrapper);
    hide ManageFrameInternal, Refresh;
    HandedFrom(c1, f, tl0);
    if !f.isKey {
      PreparedGrounded(c, f, HandedIn(trace));
    }
    hide Prepared, Decide, Release, Linked, Extended, Newer;
    ReferredToAre(layers, f, tl0);
    ReferencesAre(c1, f, tl0, ReferredTo(layers, f, tl0));
  }

  lemma HandedOffRightly(c: Core, f: Frame, trace: Trace)
    requires Knows(c, trace) && Linked(c, HandedIn(trace)) && f.temporalIdx < MAX_TEMPORAL_LAYERS
    ensures RefersToLast(trace + [EventOf(c, f)], |trace|)
  {
    var e := EventOf(c, f);
    var more := trace + [e];
    assert more[..|trace| + 1] == more && more[|trace|] == e && more[|more| - 1] == e;
    if e.decision.HandOff? {
      PreparedIs(c, f, trace);
      HandedOffFrom(c, f, trace);
      hide ManageFrameInternal, Prepared, Known, Linked, Knows, Before, Reaches, Unwrap;
      OwnIsReached(more);
    }
  }

  lemma DecideSame(c: Core, f: Frame)
    requires f.temporalIdx < MAX_TEMPORAL_LAYERS
    ensures var c1 := Refresh(c, f).0;
            && ManageFrameInternal(c, f) == Decide(c1, f, TlOf(c, f)) && Prepared(c, f) == Extended(c1.layerInfo, f, TlOf(c, f))
            && c1.unwrapper == c.unwrapper
  {
    hide Decide, NotePictureId;
    NotingKeepsTheRest(c, f.Id());
  }

  lemma OwnIsReached(more: Trace)
    requires more != []
    requires var e := more[|more| - 1]; Known(more, e.tl0) && !Newer(Before(more, e.tl0, e.frame.temporalIdx), e.frame.Id())
    ensures Reaches(more, more[|more| - 1].tl0)
  {
    hide Before, Known;
  }

  // ----- what the finder takes for not yet received

  /** What is recorded of picture ids when a frame has been decided on. */
  lemma RecordFrom(c: Core, f: Frame)
    requires f.temporalIdx < MAX_TEMPORAL_LAYERS
    ensures var (c', decision), noted := ManageFrameInternal(c, f), NotePictureId(c, f.Id());
            && c'.lastPictureId == noted.lastPictureId
            && c'.notYetReceived == if decision.HandOff? then Erase(32768, noted.notYetReceived, f.Id()) else noted.notYetReceived
  {
    DecideSame(c, f);
    hide NotePictureId, Prepared, ManageFrameInternal, Unwrap;
    var c1 := Refresh(c, f).0;
    hide Refresh;
    DecisionRecords(c1, f, TlOf(c, f));
  }

  lemma DecisionRecords(c: Core, f: Frame, tl0: int)
    requires f.temporalIdx < MAX_TEMPORAL_LAYERS
    ensures var (c', decision) := Decide(c, f, tl0);
            && c'.lastPictureId == c.lastPictureId
            && c'.notYetReceived == if decision.HandOff? then Erase(32768, c.notYetReceived, f.Id()) else c.notYetReceived
  {
    hide CollectReferences, UpdateLayers, UnwrapAll, AheadOrAtMod, Erase, Unwrap;
  }

  lemma NotedLikeCore(c: Core, id: PictureId)
    ensures var noted := NotePictureId(c, id);
            Record(noted.lastPictureId, noted.notYetReceived) == Noted(Record(c.lastPictureId, c.notYetReceived), Comes(id))
  {
    hide FillGap, LowerBound, AheadOfMod, LastConsidered;
  }

  lemma ConsideringRecords(c: Core, f: Frame, log: Log)
    requires Records(c, log) && f.temporalIdx < MAX_TEMPORAL_LAYERS
    ensures Records(ManageFrameInternal(c, f).0, log + NotesOf(EventOf(c, f)))
  {
    var id, decision := f.Id(), ManageFrameInternal(c, f).1;
    RecordFrom(c, f);
    NotedLikeCore(c, id);
    RecordedOfMore(log, Comes(id));
    NotesAre(c, f);
    hide NotePictureId, ManageFrameInternal, Recorded, Erase, NotesOf;
    if decision.HandOff? {
      RecordedOfMore(log + [Comes(id)], Leaves(id));
      assert log + [Comes(id), Leaves(id)] == (log + [Comes(id)]) + [Leaves(id)];
    }
  }

  lemma NotesAre(c: Core, f: Frame)
    ensures NotesOf(EventOf(c, f)) == if ManageFrameInternal(c, f).1.HandOff? then [Comes(f.Id()), Leaves(f.Id())] else [Comes(f.Id())]
  {
    hide ManageFrameInternal;
  }

  lemma LogOfMore(trace: Trace, e: Event)
    ensures LogOf(trace + [e]) == LogOf(trace) + NotesOf(e)
  {
    assert (trace + [e])[..|trace|] == trace;
    hide NotesOf;
  }

  // ----- every run

  /** What considering the frame adds to what has happened; a frame of a temporal layer out of range leaves no trace. */
  function Considered(c: Core, f: Frame): Trace {
    if f.temporalIdx < MAX_TEMPORAL_LAYERS then [EventOf(c, f)] else []
  }

  function PassTrace(c: Core, pending: seq<Frame>): Trace
    decreases |pending|
  {
    if pending == [] then []
    else Considered(c, pending[0]) + PassTrace(ManageFrameInternal(c, pending[0]).0, pending[1..])
  }

  function RetryTrace(c: Core, stash: seq<Frame>): Trace
    decreases |stash|
  {
    var pass := RetryPass(ManageFrameInternal, c, stash);
    PassTrace(c, stash) + if pass.handed == [] then [] else RetryTrace(pass.core, pass.kept)
  }

  function StepTrace(st: State, op: Op): Trace {
    match op
    case ClearUpTo(_) => []
    case Manage(f) =>
      var (c, decision) := ManageFrameInternal(st.core, f);
      Considered(st.core, f) + if decision.HandOff? then RetryTrace(c, st.stash) else []
  }

  /** All frames that a run considers, in order, stashed ones as often as they are retried. */
  function RunTrace(st: State, ops: seq<Op>): Trace
    decreases |ops|
  {
    if ops == [] then [] else StepTrace(st, ops[0]) + RunTrace(Step(st, ops[0]).0, ops[1..])
  }

  lemma HandedInMore(trace: Trace, e: Event)
    ensures HandedIn(trace + [e]) == HandedIn(trace) + if e.decision.HandOff? then [e.decision.handed] else []
  {
    assert (trace + [e])[..|trace|] == trace;
  }

  lemma {:induction false} HandedInJoin(a: Trace, b: Trace)
    ensures HandedIn(a + b) == HandedIn(a) + HandedIn(b)
  {
    if b == [] {
      assert a + b == a;
    } else {
      var k := |b| - 1;
      HandedInJoin(a, b[..k]);
      HandedInMore(a + b[..k], b[k]);
      assert a + b == (a + b[..k]) + [b[k]];
    }
  }

  lemma CorruptedLeavesNothing(c: Core, f: Frame)
    requires f.temporalIdx >= MAX_TEMPORAL_LAYERS
    ensures ManageFrameInternal(c, f) == (c, Drop)
  {
  }

  lemma StillRight(trace: Trace, e: Event)
    requires forall i: nat | i < |trace| :: EventRight(trace, i)
    requires EventRight(trace + [e], |trace|)
    ensures forall i: nat | i < |trace + [e]| :: EventRight(trace + [e], i)
  {
    var more := trace + [e];
    hide Last, Before, Knows, Records, LogOf, EventOf;
    forall i: nat | i < |trace| ensures EventRight(more, i) <==> EventRight(trace, i) {
      assert more[i] == trace[i] && more[..i] == trace[..i] && more[..i + 1] == trace[..i + 1];
    }
    hide EventRight;
  }

  lemma ConsideringRight(c: Core, f: Frame, trace: Trace)
    requires AllRight(c, trace)
    ensures AllRight(ManageFrameInternal(c, f).0, trace + Considered(c, f))
    ensures var decision := ManageFrameInternal(c, f).1;
            HandedIn(Considered(c, f)) == if decision.HandOff? then [decision.handed] else []
  {
    hide ManageFrameInternal, Knows, Linked, RefersToLast, Unwraps, HandedIn, Unwrap, Records, LogOf, NotesOf;
    if f.temporalIdx < MAX_TEMPORAL_LAYERS {
      ConsideringRecords(c, f, LogOf(trace));
      LogOfMore(trace, EventOf(c, f));
      HandedInMore(trace, EventOf(c, f));
      HandedInOne(EventOf(c, f));
      ConsideringKnows(c, f, trace);
      HandedOffRightly(c, f, trace);
      assert trace != [] ==> EventRight(trace, |trace| - 1);
      IndexUnwraps(c, f, trace);
      LastFollows(c, f, trace);
      ManageIsLinked(c, f, HandedIn(trace));
      StillRight(trace, EventOf(c, f));
      assert HandedIn(trace) + [] == HandedIn(trace);
    } else {
      CorruptedLeavesNothing(c, f);
      HandedInNone();
      assert trace + [] == trace;
    }
  }

  lemma LastFollows(c: Core, f: Frame, trace: Trace)
    requires Knows(c, trace) && Records(c, LogOf(trace))
    ensures Follows(trace + [EventOf(c, f)], |trace|) && (trace + [EventOf(c, f)])[|trace|].frame == f
  {
    var more := trace + [EventOf(c, f)];
    assert more[..|trace|] == trace && more[|trace|] == EventOf(c, f);
    hide Knows, Records, LogOf, ManageFrameInternal, Unwrap;
  }

  lemma HandedInOne(e: Event)
    ensures HandedIn([e]) == if e.decision.HandOff? then [e.decision.handed] else []
  {
    HandedInMore([], e);
    assert [] + [e] == [e];
  }

  lemma HandedInNone()
    ensures HandedIn([]) == []
  {
  }

  lemma TracesJoin(a: Trace, b: Trace, c: Trace)
    ensures (a + b) + c == a + (b + c)
  {
  }

  lemma {:induction false} PassRight(c: Core, pending: seq<Frame>, trace: Trace)
    requires AllRight(c, trace)
    ensures var pass := RetryPass(ManageFrameInternal, c, pending);
            AllRight(pass.core, trace + PassTrace(c, pending)) && HandedIn(PassTrace(c, pending)) == pass.handed
    decreases |pending|
  {
    hide *;
    PassOnce(c, pending);
    if pending == [] {
      HandedInNone();
      assert trace + [] == trace;
    } else {
      var c1 := ManageFrameInternal(c, pending[0]).0;
      var first, rest := Considered(c, pending[0]), PassTrace(c1, pending[1..]);
      ConsideringRight(c, pending[0], trace);
      PassRight(c1, pending[1..], trace + first);
      TracesJoin(trace, first, rest);
      HandedInJoin(first, rest);
    }
  }

  /** The first step of a pass. */
  lemma PassOnce(c: Core, pending: seq<Frame>)
    ensures var pass, trace := RetryPass(ManageFrameInternal, c, pending), PassTrace(c, pending);
            if pending == [] then pass.core == c && pass.handed == [] && trace == []
            else
              var (c1, decision) := ManageFrameInternal(c, pending[0]);
              var rest := RetryPass(ManageFrameInternal, c1, pending[1..]);
              && pass.core == rest.core && pass.handed == (if decision.HandOff? then [decision.handed] else []) + rest.handed
              && trace == Considered(c, pending[0]) + PassTrace(c1, pending[1..])
  {
    hide ManageFrameInternal, Considered;
    if pending != [] {
      var rest := RetryPass(ManageFrameInternal, ManageFrameInternal(c, pending[0]).0, pending[1..]);
      assert [] + rest.handed == rest.handed;
    }
  }

  lemma {:induction false} RetryRight(c: Core, stash: seq<Frame>, trace: Trace)
    requires AllRight(c, trace)
    ensures var pass := Retry(ManageFrameInternal, c, stash);
            AllRight(pass.core, trace + RetryTrace(c, stash)) && HandedIn(RetryTrace(c, stash)) == pass.handed
    decreases |stash|
  {
    hide AllRight, ManageFrameInternal, PassTrace, RetryPass;
    var pass := RetryPass(ManageFrameInternal, c, stash);
    var first := PassTrace(c, stash);
    PassRight(c, stash, trace);
    if pass.handed == [] {
      assert first + [] == first;
    } else {
      RetryRight(pass.core, pass.kept, trace + first);
      TracesJoin(trace, first, RetryTrace(pass.core, pass.kept));
      HandedInJoin(first, RetryTrace(pass.core, pass.kept));
    }
  }

  lemma StepRight(st: State, op: Op, trace: Trace)
    requires AllRight(st.core, trace)
    ensures AllRight(Step(st, op).0.core, trace + StepTrace(st, op)) && HandedIn(StepTrace(st, op)) == Step(st, op).1
  {
    hide AllRight, ManageFrameInternal, Considered, RetryTrace, Retry;
    match op
    case ClearUpTo(s) => assert trace + [] == trace;
    case Manage(f) =>
      var (c, decision) := ManageFrameInternal(st.core, f);
      var first := Considered(st.core, f);
      ConsideringRight(st.core, f, trace);
      if decision.HandOff? {
        RetryRight(c, st.stash, trace + first);
        TracesJoin(trace, first, RetryTrace(c, st.stash));
        HandedInJoin(first, RetryTrace(c, st.stash));
      } else {
        assert first + [] == first;
      }
  }

  lemma {:induction false} RunRight(st: State, ops: seq<Op>, trace: Trace)
    requires AllRight(st.core, trace)
    ensures AllRight(After(st, ops).core, trace + RunTrace(st, ops)) && HandedIn(RunTrace(st, ops)) == HandedOff(st, ops)
    decreases |ops|
  {
    hide AllRight, Step, StepTrace;
    if ops == [] {
      assert trace + [] == trace;
    } else {
      StepRight(st, ops[0], trace);
      RunRight(Step(st, ops[0]).0, ops[1..], trace + StepTrace(st, ops[0]));
      TracesJoin(trace, StepTrace(st, ops[0]), RunTrace(Step(st, ops[0]).0, ops[1..]));
      HandedInJoin(StepTrace(st, ops[0]), RunTrace(Step(st, ops[0]).0, ops[1..]));
    }
  }

  lemma NothingHappened()
    ensures AllRight(INIT.core, [])
  {
  }

  /** Over every run each frame handed off refers, layer by layer, to the frame last handed off on that layer as far as its base
      layer goes, and becomes the last one on its own. */
  lemma RunRefersToLast(ops: seq<Op>)
    ensures HandedIn(RunTrace(INIT, ops)) == HandedOff(INIT, ops)
    ensures forall i: nat | i < |RunTrace(INIT, ops)| :: EventRight(RunTrace(INIT, ops), i)
  {
    hide EventRight, RunTrace, Knows, Linked;
    NothingHappened();
    RunRight(INIT, ops, []);
    assert [] + RunTrace(INIT, ops) == RunTrace(INIT, ops);
  }

  lemma RunRecords(ops: seq<Op>)
    ensures Records(After(INIT, ops).core, LogOf(RunTrace(INIT, ops)))
  {
    hide EventRight, RunTrace, Knows, Linked, Records;
    NothingHappened();
    RunRight(INIT, ops, []);
    assert [] + RunTrace(INIT, ops) == RunTrace(INIT, ops);
  }

  // ----- what the last one is

  /** From event `j` on the base layer stays known and is not started anew, and no other frame on the layer is handed off that
      belongs to it or to an earlier base layer. */
  ghost predicate StaysLast(trace: Trace, t: int, k: nat, j: nat) {
    forall i: nat | j < i < |trace| ::
      && Known(trace[..i], t) && !StartsBase(trace[i], t)
      && !(trace[i].decision.HandOff? && trace[i].frame.temporalIdx == k && trace[i].tl0 <= t)
  }

  /** The last frame handed off on a layer of a base layer is the last one. */
  lemma {:induction false} LastIsLatest(trace: Trace, t: int, k: nat, j: nat)
    requires j < |trace| && StaysLast(trace, t, k, j)
    ensures Last(trace, t, k) == Last(trace[..j + 1], t, k)
    decreases |trace|
  {
    hide Last, Known;
    var n := |trace| - 1;
    if j == n {
      assert trace[..j + 1] == trace;
    } else {
      var rest := trace[..n];
      forall i: nat | j < i < |rest| ensures rest[..i] == trace[..i] && rest[i] == trace[i] {
      }
      assert StaysLast(rest, t, k, j);
      LastIsLatest(rest, t, k, j);
      assert rest[..j + 1] == trace[..j + 1];
      LastStays(trace, t, k);
    }
  }

  lemma LastStays(trace: Trace, t: int, k: nat)
    requires trace != []
    requires var rest, e := trace[..|trace| - 1], trace[|trace| - 1];
             Known(rest, t) && !StartsBase(e, t) && !(e.decision.HandOff? && e.frame.temporalIdx == k && e.tl0 <= t)
    ensures Last(trace, t, k) == Last(trace[..|trace| - 1], t, k)
  {
    hide Known;
  }

  /** A base layer that becomes known with a base layer frame has that frame on its base layer, and inherits all other layers. */
  lemma NewBaseInherits(trace: Trace, e: Event, k: nat)
    requires ContinuesBase(e, e.tl0) && !Known(trace, e.tl0)
    ensures Before(trace + [e], e.tl0, k) == Last(trace, e.tl0 - 1, k)
    ensures k > 0 ==> Last(trace + [e], e.tl0, k) == Last(trace, e.tl0 - 1, k)
  {
    var more := trace + [e];
    assert more[..|trace|] == trace && more[|more| - 1] == e;
    hide Known, Reaches;
  }
}
