/** The VP8 reference finder (rtp_vp8_ref_finder.cpp) as a state machine. */
module Vp8RefFinderModel {
  import opened SequenceNumbers
  import opened OrderedNumbers
  import opened Unwrapping
  import opened StashRetry

  const MAX_LAYER_INFO := 50
  const MAX_NOT_YET_RECEIVED := 100
  const MAX_TEMPORAL_LAYERS := 5

  /** A 15-bit picture id. */
  type PictureId = x: int | 0 <= x < 32768

  datatype Frame = Frame(
    isKey: bool, pictureId: nat, tl0PicIdx: nat, temporalIdx: nat, layerSync: bool, firstSeqNum: SeqNum, payload: seq<nat>)
  {
    function Id(): PictureId { pictureId % 32768 }
  }

  /** A frame handed off: its picture id, and the unwrapped id and references it was given. */
  datatype Handed = Handed(frame: Frame, id: int, references: seq<int>)

  /** A picture id, or -1 for none. */
  type IdOrNone = x: int | -1 <= x < 32768 witness -1

  const NO_LAYERS: seq<IdOrNone> := [-1, -1, -1, -1, -1]

  /** Per temporal layer the last completed frame. */
  type LayerInfo = s: seq<IdOrNone> | |s| == MAX_TEMPORAL_LAYERS witness NO_LAYERS

  datatype Core = Core(
    lastPictureId: IdOrNone, notYetReceived: seq<nat>, layerInfo: map<int, LayerInfo>,
    tl0Unwrapper: Unwrapper, unwrapper: Unwrapper)

  datatype State = State(core: Core, stash: seq<Frame>)

  const INIT := State(Core(-1, [], map[], NEW_UNWRAPPER, NEW_UNWRAPPER), [])

  function PlusId(p: PictureId, k: int): PictureId {
    (p + k) % 32768
  }

  /** The loop that records every picture id after `last` up to and including `id`. */
  function FillGap(notYet: seq<nat>, last: PictureId, id: PictureId): seq<nat>
    decreases DiffMod(32768, last, id)
  {
    if last == id then notYet
    else
      var next := PlusId(last, 1);
      FillGap(Insert(32768, notYet, next), next, id)
  }

  /** `last_picture_id_` once the ids too old to wait for are given up. */
  function LastConsidered(lastPictureId: IdOrNone, id: PictureId): PictureId {
    var last := if lastPictureId == -1 then id else lastPictureId;
    var oldId := PlusId(id, -MAX_NOT_YET_RECEIVED);
    if AheadOfMod(32768, oldId, last) then oldId else last
  }

  /** The frame's own id enters the record: too old ids leave it, a gap before the frame joins it. */
  function NotePictureId(c: Core, id: PictureId): Core {
    var kept := c.notYetReceived[LowerBound(32768, c.notYetReceived, PlusId(id, -MAX_NOT_YET_RECEIVED))..];
    var last := LastConsidered(c.lastPictureId, id);
    if AheadOfMod(32768, id, last) then c.(lastPictureId := id, notYetReceived := FillGap(kept, last, id))
    else c.(lastPictureId := last, notYetReceived := kept)
  }

  /** The keys from `tl0` on: what UpdateLayers may still visit. */
  function NewerThan(layers: map<int, LayerInfo>, tl0: int): set<int> {
    set t | t in layers && t >= tl0
  }

  /** UpdateLayerInfoVp8: this base layer and the newer ones that follow without a gap. */
  function UpdateLayers(layers: map<int, LayerInfo>, tl0: int, temporalIdx: nat, id: PictureId): map<int, LayerInfo>
    requires temporalIdx < MAX_TEMPORAL_LAYERS
    decreases NewerThan(layers, tl0)
  {
    if tl0 !in layers || (layers[tl0][temporalIdx] != -1 && AheadOfMod(32768, layers[tl0][temporalIdx], id)) then layers
    else
      var layers' := layers[tl0 := layers[tl0][temporalIdx := id]];
      assert tl0 in NewerThan(layers, tl0) && NewerThan(layers', tl0 + 1) == NewerThan(layers, tl0) - {tl0};
      UpdateLayers(layers', tl0 + 1, temporalIdx, id)
  }

  function UnwrapAll(u: Unwrapper, refs: seq<IdOrNone>): (r: (Unwrapper, seq<int>))
    ensures |r.1| == |refs|
    decreases |refs|
  {
    if refs == [] then (u, [])
    else
      var (u1, x) := Unwrap(32768, u, if refs[0] == -1 then 65535 else refs[0]);
      var (u2, xs) := UnwrapAll(u1, refs[1..]);
      (u2, [x] + xs)
  }

  /** The frame is complete: the layers move on to it and its ids are unwrapped. */
  function Release(c: Core, f: Frame, tl0: int, refs: seq<IdOrNone>): (Core, Decision<Handed>)
    requires f.temporalIdx < MAX_TEMPORAL_LAYERS
  {
    var (u1, references) := UnwrapAll(c.unwrapper, refs);
    var (u2, id) := Unwrap(32768, u1, f.Id());
    (c.(layerInfo := UpdateLayers(c.layerInfo, tl0, f.temporalIdx, f.Id()),
        notYetReceived := Erase(32768, c.notYetReceived, f.Id()), unwrapper := u2),
     HandOff(Handed(f, id, references)))
  }

  /** What the references of a frame above the base layer come to. */
  datatype References = Missing | Obsolete | Refs(refs: seq<PictureId>)

  /** Whether some frame between the last one of the layer and this frame is still to come. */
  function GapBefore(c: Core, last: nat, id: PictureId): bool {
    var i := UpperBound(32768, c.notYetReceived, last);
    i < |c.notYetReceived| && AheadOfMod(32768, id, c.notYetReceived[i])
  }

  /** The loop over the layers from `layer` to that of the frame, after collecting `refs`. */
  function CollectReferences(c: Core, info: LayerInfo, f: Frame, layer: nat, refs: seq<PictureId>): References
    requires f.temporalIdx < MAX_TEMPORAL_LAYERS && layer <= f.temporalIdx + 1
    decreases f.temporalIdx + 1 - layer
  {
    if layer == f.temporalIdx + 1 then Refs(refs)
    else if info[layer] == -1 then Missing
    else if AheadOfMod(32768, info[layer], f.Id()) then Obsolete
    else if GapBefore(c, info[layer], f.Id()) then Missing
    else if !AheadOfMod(32768, f.Id(), info[layer]) then Obsolete
    else CollectReferences(c, info, f, layer + 1, refs + [info[layer]])
  }

  /** The decision once the picture id is noted and old base layers are forgotten. */
  function Decide(c: Core, f: Frame, tl0: int): (Core, Decision<Handed>)
    requires f.temporalIdx < MAX_TEMPORAL_LAYERS
  {
    if f.isKey then
      if f.temporalIdx != 0 then (c, Drop)
      else Release(c.(layerInfo := c.layerInfo[tl0 := NO_LAYERS]), f, tl0, [])
    else
      var base := if f.temporalIdx == 0 then tl0 - 1 else tl0;
      if base !in c.layerInfo then (c, Stash)
      else if f.temporalIdx == 0 then
        var c1 := if tl0 in c.layerInfo then c else c.(layerInfo := c.layerInfo[tl0 := c.layerInfo[base]]);
        var last := c1.layerInfo[tl0][0];
        if AheadOrAtMod(32768, last, f.Id()) then (c1, Drop) else Release(c1, f, tl0, [last])
      else if f.layerSync then
        var last := c.layerInfo[tl0][f.temporalIdx];
        if last != -1 && AheadOrAtMod(32768, last, f.Id()) then (c, Drop)
        else Release(c, f, tl0, [c.layerInfo[tl0][0]])
      else
        match CollectReferences(c, c.layerInfo[tl0], f, 0, [])
        case Missing => (c, Stash)
        case Obsolete => (c, Drop)
        case Refs(refs) => Release(c, f, tl0, refs)
  }

  /** The picture id is noted, the base layer index unwrapped, and base layers too old are forgotten. */
  function Refresh(c: Core, f: Frame): (Core, int) {
    var (u, tl0) := Unwrap(256, c.tl0Unwrapper, f.tl0PicIdx % 256);
    var layers := map t | t in c.layerInfo && t >= tl0 - MAX_LAYER_INFO :: c.layerInfo[t];
    (NotePictureId(c, f.Id()).(tl0Unwrapper := u, layerInfo := layers), tl0)
  }

  /** ManageFrameInternal. */
  function ManageFrameInternal(c: Core, f: Frame): (Core, Decision<Handed>) {
    if f.temporalIdx >= MAX_TEMPORAL_LAYERS then (c, Drop)
    else
      var (c1, tl0) := Refresh(c, f);
      Decide(c1, f, tl0)
  }

  /** The frames that start behind `s`. */
  function StartsBehind(s: SeqNum): Frame -> bool {
    (f: Frame) => AheadOf(s, f.firstSeqNum)
  }

  datatype Op = Manage(frame: Frame) | ClearUpTo(seqNum: SeqNum)

  function Step(st: State, op: Op): (State, seq<Handed>) {
    match op
    case ClearUpTo(s) => (st.(stash := DropWhere(st.stash, StartsBehind(s))), [])
    case Manage(f) =>
      var (c, decision) := ManageFrameInternal(st.core, f);
      match decision
      case Stash => (State(c, PushStash(st.stash, f)), [])
      case Drop => (st.(core := c), [])
      case HandOff(h) =>
        var pass := Retry(ManageFrameInternal, c, st.stash);
        (State(pass.core, pass.kept), [h] + pass.handed)
  }

  /** All frames a run hands off, in order. */
  function HandedOff(st: State, ops: seq<Op>): seq<Handed>
    decreases |ops|
  {
    if ops == [] then [] else Step(st, ops[0]).1 + HandedOff(Step(st, ops[0]).0, ops[1..])
  }

  function After(st: State, ops: seq<Op>): State
    decreases |ops|
  {
    if ops == [] then st else After(Step(st, ops[0]).0, ops[1..])
  }
}
