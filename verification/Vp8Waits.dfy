/** When a VP8 frame is stashed, dropped or handed off over a run, from what has happened alone. */
module Vp8Waits {
  import opened SequenceNumbers
  import opened OrderedNumbers
  import opened Unwrapping
  import opened Vp8RefFinderModel
  import opened Vp8Readiness
  import opened Vp8Decisions
  import opened Vp8Missing
  import opened Vp8References

  /** An id between `last` and that of the frame is still to come. */
  ghost predicate GapLeft(log: Log, last: PictureId, id: PictureId) {
    exists x: PictureId :: InGap(log, last, id, x)
  }

  ghost predicate InGap(log: Log, last: PictureId, id: PictureId, x: PictureId) {
    StillToCome(log, x) && AheadOfMod(32768, x, last) && AheadOfMod(32768, id, x)
  }

  /** What has happened to picture ids when event `i` is decided. */
  ghost function LogAt(trace: Trace, i: nat): Log
    requires i < |trace|
  {
    LogOf(trace[..i]) + [Comes(trace[i].frame.Id())]
  }

  /** The frames last handed off, layer by layer, that the frame is compared with: those of its own base layer, or of the one
      before if that is not known yet. */
  function ComparedWith(trace: Trace, i: nat): LayerInfo
    requires i < |trace|
  {
    var e := trace[i];
    var t := if e.frame.temporalIdx == 0 && !Known(trace[..i], e.tl0) then e.tl0 - 1 else e.tl0;
    seq(MAX_TEMPORAL_LAYERS, k requires 0 <= k < MAX_TEMPORAL_LAYERS => Last(trace[..i], t, k))
  }

  /** The base layer the frame needs is known, and not more than 50 back. */
  predicate NeededIsKnown(trace: Trace, i: nat)
    requires i < |trace|
  {
    var e := trace[i];
    Known(trace[..i], Base(e.frame, e.tl0)) && Base(e.frame, e.tl0) >= e.tl0 - 50
  }

  /** The layer has a frame older than this one, and nothing between the two is still to come. */
  ghost predicate LayerFine(trace: Trace, i: nat, l: nat)
    requires i < |trace| && l < MAX_TEMPORAL_LAYERS
  {
    var last, id := ComparedWith(trace, i)[l], trace[i].frame.Id();
    last != -1 && AheadOfMod(32768, id, last) && !GapLeft(LogAt(trace, i), last, id)
  }

  /** The layer has none, or something between an older one and this one is still to come. */
  ghost predicate LayerMissing(trace: Trace, i: nat, l: nat)
    requires i < |trace| && l < MAX_TEMPORAL_LAYERS
  {
    var last, id := ComparedWith(trace, i)[l], trace[i].frame.Id();
    last == -1 || (!AheadOfMod(32768, last, id) && GapLeft(LogAt(trace, i), last, id))
  }

  /** On the first layer that is not fine something is missing. */
  ghost predicate LayersMissing(trace: Trace, i: nat)
    requires i < |trace| && trace[i].frame.temporalIdx < MAX_TEMPORAL_LAYERS
  {
    exists l: nat :: l <= trace[i].frame.temporalIdx && LayerMissing(trace, i, l) && forall j: nat | j < l :: LayerFine(trace, i, j)
  }

  predicate RefersToAllLayers(f: Frame) {
    !f.isKey && f.temporalIdx > 0 && !f.layerSync
  }

  /** A delta frame is stashed if the base layer it needs is not known, or if it refers to all layers and one is missing; it is
      dropped if it needs neither but is too old for what it is compared with, as is a keyframe above the base layer. */
  ghost predicate DecidedByHistory(trace: Trace, i: nat)
    requires i < |trace| && trace[i].frame.temporalIdx < MAX_TEMPORAL_LAYERS
  {
    var f, decision := trace[i].frame, trace[i].decision;
    && (decision.Stash? <==> !f.isKey && (!NeededIsKnown(trace, i) || (RefersToAllLayers(f) && LayersMissing(trace, i))))
    && (decision.Drop? <==>
          if f.isKey then f.temporalIdx > 0
          else NeededIsKnown(trace, i) && !Fits(ComparedWith(trace, i), f) && !(RefersToAllLayers(f) && LayersMissing(trace, i)))
  }

  // ----- gaps

  lemma OlderToo(newest: PictureId, id: PictureId, x: PictureId, y: PictureId)
    requires id == newest || !Moves(newest, id)
    requires DiffMod(32768, x, newest) <= DiffMod(32768, y, newest) <= 100 && AheadOfMod(32768, id, x)
    ensures AheadOfMod(32768, id, y)
  {
  }

  lemma GapIff(notYet: seq<nat>, newest: PictureId, last: PictureId, id: PictureId)
    requires Ordered(notYet, newest) && (id == newest || !Moves(newest, id))
    ensures var i := UpperBound(32768, notYet, last);
            i < |notYet| && AheadOfMod(32768, id, notYet[i])
            <==> exists j :: 0 <= j < |notYet| && AheadOfMod(32768, notYet[j], last) && AheadOfMod(32768, id, notYet[j])
  {
    var i := UpperBound(32768, notYet, last);
    if j :| 0 <= j < |notYet| && AheadOfMod(32768, notYet[j], last) && AheadOfMod(32768, id, notYet[j]) {
      OlderToo(newest, id, notYet[j], notYet[i]);
    }
    hide UpperBound, AheadOfMod, DiffMod, Moves;
  }

  /** The newest id once a frame has been considered is its own, or one it does not move. */
  lemma NewestNow(log: Log, id: PictureId)
    ensures var newest := Newest(log + [Comes(id)]); newest != -1 && (id == newest || !Moves(newest, id))
  {
    NewestOfMore(log, Comes(id));
    hide Moves, Newest;
  }

  lemma GapIsLeft(c: Core, log: Log, last: PictureId, id: PictureId)
    requires Agrees(Record(c.lastPictureId, c.notYetReceived), log + [Comes(id)])
    ensures GapBefore(c, last, id) <==> GapLeft(log + [Comes(id)], last, id)
  {
    var more, notYet := log + [Comes(id)], c.notYetReceived;
    NewestNow(log, id);
    GapIff(notYet, c.lastPictureId, last, id);
    hide StillToCome, Newest, Moves, AheadOfMod, DiffMod, UpperBound;
    if GapLeft(more, last, id) {
      var x :| InGap(more, last, id, x);
      assert x in notYet;
    }
    forall j | 0 <= j < |notYet| && AheadOfMod(32768, notYet[j], last) && AheadOfMod(32768, id, notYet[j])
      ensures GapLeft(more, last, id)
    {
      assert notYet[j] in notYet && InGap(more, last, id, notYet[j]);
    }
  }

  // ----- one event

  /** What the finder compares the frame with is what has happened. */
  lemma InfoIs(c: Core, trace: Trace, i: nat)
    requires i < |trace| && Knows(c, trace[..i]) && trace[i] == EventOf(c, trace[i].frame)
    requires Base(trace[i].frame, trace[i].tl0) in c.layerInfo
    ensures InfoFor(c.layerInfo, trace[i].frame, trace[i].tl0) == ComparedWith(trace, i)
  {
    hide ManageFrameInternal, Unwrap, Known, Last;
  }

  lemma KnownIs(c: Core, trace: Trace, i: nat)
    requires i < |trace| && Knows(c, trace[..i])
    ensures var e := trace[i];
            NeededIsKnown(trace, i) <==> Base(e.frame, e.tl0) in c.layerInfo && Base(e.frame, e.tl0) >= e.tl0 - MAX_LAYER_INFO
  {
    hide Known, Last;
  }

  lemma LayersAre(c: Core, trace: Trace, i: nat, info: LayerInfo)
    requires i < |trace| && trace[i].frame.temporalIdx < MAX_TEMPORAL_LAYERS && info == ComparedWith(trace, i)
    requires Agrees(Record(c.lastPictureId, c.notYetReceived), LogAt(trace, i))
    ensures LayersMissing(trace, i) <==> WaitsForLayer(c, info, trace[i].frame)
  {
    var f := trace[i].frame;
    hide ComparedWith, Agrees, GapBefore, GapLeft, LogOf, AheadOfMod;
    forall l: nat | l < MAX_TEMPORAL_LAYERS
      ensures LayerFine(trace, i, l) <==> FineAt(c, info, f, l)
      ensures LayerMissing(trace, i, l) <==> MissingAt(c, info, f, l)
    {
      if info[l] != -1 {
        GapIsLeft(c, LogOf(trace[..i]), info[l], f.Id());
      }
    }
    hide LayerFine, FineAt, LayerMissing, MissingAt;
  }

  lemma EventIsDecided(c: Core, trace: Trace, i: nat)
    requires i < |trace| && trace[i].frame.temporalIdx < MAX_TEMPORAL_LAYERS && trace[i] == EventOf(c, trace[i].frame)
    requires Knows(c, trace[..i])
    requires var noted := NotePictureId(c, trace[i].frame.Id());
             Agrees(Record(noted.lastPictureId, noted.notYetReceived), LogAt(trace, i))
    ensures DecidedByHistory(trace, i)
  {
    var f, tl0 := trace[i].frame, trace[i].tl0;
    var noted := NotePictureId(c, f.Id());
    StashedIff(c, f);
    DroppedIff(c, f);
    KnownIs(c, trace, i);
    assert trace[i].decision == ManageFrameInternal(c, f).1 && tl0 == TlOf(c, f);
    hide ManageFrameInternal, NotePictureId, WaitsForLayer, LayersMissing, NeededIsKnown, ComparedWith, Unwrap, Knows, Fits, Agrees, LogAt;
    if Base(f, tl0) in c.layerInfo {
      InfoIs(c, trace, i);
      LayersAre(noted, trace, i, InfoFor(c.layerInfo, f, tl0));
    }
  }

  // ----- every run

  lemma {:induction false} LogPrefix(trace: Trace, i: nat)
    requires i < |trace|
    ensures LogAt(trace, i) <= LogOf(trace)
  {
    var k := |trace| - 1;
    assert trace == trace[..k] + [trace[k]];
    LogOfMore(trace[..k], trace[k]);
    if i < k {
      LogPrefix(trace[..k], i);
      assert trace[..k][..i] == trace[..i];
    } else {
      assert NotesOf(trace[k])[0] == Comes(trace[k].frame.Id());
    }
    hide LogOf, NotesOf;
  }

  lemma PacedPrefix(log: Log, more: Log)
    requires log <= more && Paced(more)
    ensures Paced(log)
  {
    hide TooFar;
    forall i: nat | i < |log| && log[i].Comes? ensures !TooFar(log[..i], log[i].id) {
      assert log[..i] == more[..i] && log[i] == more[i];
    }
  }

  /** Over every run whose picture ids are paced each frame is stashed, dropped or handed off as what has happened before says. */
  lemma RunIsDecidedByHistory(ops: seq<Op>, i: nat)
    requires i < |RunTrace(INIT, ops)| && Paced(LogOf(RunTrace(INIT, ops)))
    ensures RunTrace(INIT, ops)[i].frame.temporalIdx < MAX_TEMPORAL_LAYERS && DecidedByHistory(RunTrace(INIT, ops), i)
  {
    hide *;
    RunRefersToLast(ops);
    var trace := RunTrace(INIT, ops);
    assert EventRight(trace, i);
    var c := StateBefore(trace, i);
    LogPrefix(trace, i);
    PacedPrefix(LogAt(trace, i), LogOf(trace));
    RecordedIsStillToCome(LogAt(trace, i));
    NotedIsRecorded(c, trace, i);
    EventIsDecided(c, trace, i);
  }

  lemma StateBefore(trace: Trace, i: nat) returns (c: Core)
    requires i < |trace| && EventRight(trace, i)
    ensures Knows(c, trace[..i]) && Records(c, LogOf(trace[..i])) && trace[i] == EventOf(c, trace[i].frame)
    ensures trace[i].frame.temporalIdx < MAX_TEMPORAL_LAYERS
  {
    hide Knows, Records, LogOf, EventOf, RefersToLast, Unwraps;
    c :| Knows(c, trace[..i]) && Records(c, LogOf(trace[..i])) && trace[i] == EventOf(c, trace[i].frame);
  }

  lemma NotedIsRecorded(c: Core, trace: Trace, i: nat)
    requires i < |trace| && Records(c, LogOf(trace[..i]))
    ensures var noted := NotePictureId(c, trace[i].frame.Id());
            Record(noted.lastPictureId, noted.notYetReceived) == Recorded(LogAt(trace, i))
  {
    NotedLikeCore(c, trace[i].frame.Id());
    RecordedOfMore(LogOf(trace[..i]), Comes(trace[i].frame.Id()));
    hide NotePictureId, Noted, LogOf, Recorded;
  }

  /** What is on record after such a run is what is still to come. */
  lemma RunRecordsStillToCome(ops: seq<Op>)
    requires Paced(LogOf(RunTrace(INIT, ops)))
    ensures var c := After(INIT, ops).core;
            Agrees(Record(c.lastPictureId, c.notYetReceived), LogOf(RunTrace(INIT, ops)))
  {
    hide *;
    RunRecords(ops);
    RecordedIsStillToCome(LogOf(RunTrace(INIT, ops)));
    RecordsMeans(After(INIT, ops).core, LogOf(RunTrace(INIT, ops)));
  }

  lemma RecordsMeans(c: Core, log: Log)
    requires Records(c, log)
    ensures Record(c.lastPictureId, c.notYetReceived) == Recorded(log)
  {
    hide Recorded;
  }
}
