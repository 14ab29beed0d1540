/** RtpVp8RefFinder (rtp_vp8_ref_finder.cpp): its fields updated in place, proved to do what the state machine of
    Vp8RefFinderModel says. */
module Vp8RefFinder {
  import opened SequenceNumbers
  import opened OrderedNumbers
  import opened Unwrapping
  import opened StashRetry
  import opened Vp8RefFinderModel
  import Model = Vp8RefFinderModel
  import Runs = Vp8RefFinderRuns

  lemma FillGapStep(notYet: seq<nat>, last: PictureId, id: PictureId)
    requires last != id
    ensures var next := PlusId(last, 1);
            && DiffMod(32768, next, id) == DiffMod(32768, last, id) - 1
            && FillGap(notYet, last, id) == FillGap(Insert(32768, notYet, next), next, id)
  {
  }

  class RtpVp8RefFinder {
    var lastPictureId: IdOrNone
    var notYetReceivedFrames: seq<nat>
    var stashedFrames: seq<Frame>
    var layerInfo: map<int, LayerInfo>
    var unwrapper: Unwrapper
    var tl0Unwrapper: Unwrapper

    ghost function Tracked(): Core
      reads this
    {
      Core(lastPictureId, notYetReceivedFrames, layerInfo, tl0Unwrapper, unwrapper)
    }

    ghost function View(): State
      reads this
    {
      State(Tracked(), stashedFrames)
    }

    constructor ()
      ensures View() == INIT
    {
      lastPictureId, notYetReceivedFrames, stashedFrames, layerInfo := -1, [], [], map[];
      unwrapper, tl0Unwrapper := NEW_UNWRAPPER, NEW_UNWRAPPER;
    }

    /** Records the picture ids skipped before `id`, at most 100 of them. */
    method NoteGap(id: PictureId) returns (ghost recorded: nat)
      modifies this`lastPictureId, this`notYetReceivedFrames
      ensures Tracked() == NotePictureId(old(Tracked()), id)
      ensures recorded <= MAX_NOT_YET_RECEIVED
    {
      if lastPictureId == -1 {
        lastPictureId := id;
      }
      var oldPictureId := PlusId(id, -MAX_NOT_YET_RECEIVED);
      notYetReceivedFrames := notYetReceivedFrames[LowerBound(32768, notYetReceivedFrames, oldPictureId)..];
      if AheadOfMod(32768, oldPictureId, lastPictureId) {
        lastPictureId := oldPictureId;
      }
      Runs.GapIsShort(old(lastPictureId), id);
      assert lastPictureId == LastConsidered(old(lastPictureId), id);
      if AheadOfMod(32768, id, lastPictureId) {
        recorded := FillGapTo(id);
      } else {
        recorded := 0;
      }
    }

    /** Records every picture id after the last one up to `id`. */
    method FillGapTo(id: PictureId) returns (ghost recorded: nat)
      requires 0 <= lastPictureId
      modifies this`lastPictureId, this`notYetReceivedFrames
      ensures lastPictureId == id
      ensures notYetReceivedFrames == FillGap(old(notYetReceivedFrames), old(lastPictureId), id)
      ensures recorded == DiffMod(32768, old(lastPictureId), id)
    {
      recorded := 0;
      ghost var target := FillGap(notYetReceivedFrames, lastPictureId, id);
      while lastPictureId != id
        invariant 0 <= lastPictureId
        invariant DiffMod(32768, lastPictureId, id) + recorded == DiffMod(32768, old(lastPictureId), id)
        invariant FillGap(notYetReceivedFrames, lastPictureId, id) == target
        decreases DiffMod(32768, lastPictureId, id)
      {
        FillGapStep(notYetReceivedFrames, lastPictureId, id);
        lastPictureId := PlusId(lastPictureId, 1);
        notYetReceivedFrames := Insert(32768, notYetReceivedFrames, lastPictureId);
        recorded := recorded + 1;
      }
    }

    method UpdateLayerInfoVp8(id: PictureId, unwrappedTl0: int, temporalIdx: nat)
      requires temporalIdx < MAX_TEMPORAL_LAYERS
      modifies this`layerInfo, this`notYetReceivedFrames
      ensures layerInfo == UpdateLayers(old(layerInfo), unwrappedTl0, temporalIdx, id)
      ensures notYetReceivedFrames == Erase(32768, old(notYetReceivedFrames), id)
    {
      var tl0 := unwrappedTl0;
      while tl0 in layerInfo
        invariant notYetReceivedFrames == old(notYetReceivedFrames)
        invariant UpdateLayers(layerInfo, tl0, temporalIdx, id) == UpdateLayers(old(layerInfo), unwrappedTl0, temporalIdx, id)
        decreases NewerThan(layerInfo, tl0)
      {
        if layerInfo[tl0][temporalIdx] != -1 && AheadOfMod(32768, layerInfo[tl0][temporalIdx], id) {
          break;
        }
        ghost var before := layerInfo;
        layerInfo := layerInfo[tl0 := layerInfo[tl0][temporalIdx := id]];
        assert tl0 in NewerThan(before, tl0) && NewerThan(layerInfo, tl0 + 1) == NewerThan(before, tl0) - {tl0};
        tl0 := tl0 + 1;
      }
      notYetReceivedFrames := Erase(32768, notYetReceivedFrames, id);
    }

    method UnwrapPictureIds(id: PictureId, refs: seq<IdOrNone>) returns (unwrappedId: int, references: seq<int>)
      modifies this`unwrapper
      ensures var (u1, xs) := UnwrapAll(old(unwrapper), refs);
              references == xs && (unwrapper, unwrappedId) == Unwrap(32768, u1, id)
    {
      hide Unwrap;
      references := [];
      var i := 0;
      ghost var target := UnwrapAll(unwrapper, refs);
      assert refs[0..] == refs && [] + target.1 == target.1;
      while i < |refs|
        invariant 0 <= i <= |refs|
        invariant target.0 == UnwrapAll(unwrapper, refs[i..]).0
        invariant target.1 == references + UnwrapAll(unwrapper, refs[i..]).1
      {
        var r := Unwrap(32768, unwrapper, if refs[i] == -1 then 65535 else refs[i]);
        assert refs[i..][1..] == refs[i + 1..];
        assert references + ([r.1] + UnwrapAll(r.0, refs[i + 1..]).1) == (references + [r.1]) + UnwrapAll(r.0, refs[i + 1..]).1;
        unwrapper, references := r.0, references + [r.1];
        i := i + 1;
      }
      assert references + [] == references;
      var r := Unwrap(32768, unwrapper, id);
      unwrapper, unwrappedId := r.0, r.1;
    }

    method ReleaseFrame(frame: Frame, unwrappedTl0: int, refs: seq<IdOrNone>) returns (decision: Decision<Handed>)
      requires frame.temporalIdx < MAX_TEMPORAL_LAYERS
      modifies this`layerInfo, this`notYetReceivedFrames, this`unwrapper
      ensures (Tracked(), decision) == Release(old(Tracked()), frame, unwrappedTl0, refs)
    {
      UpdateLayerInfoVp8(frame.Id(), unwrappedTl0, frame.temporalIdx);
      var id, references := UnwrapPictureIds(frame.Id(), refs);
      decision := HandOff(Handed(frame, id, references));
    }

    /** The references of a frame above the base layer, one per layer up to its own. */
    method FindReferences(info: LayerInfo, frame: Frame) returns (found: References)
      requires frame.temporalIdx < MAX_TEMPORAL_LAYERS
      ensures found == CollectReferences(Tracked(), info, frame, 0, [])
    {
      var refs: seq<PictureId> := [];
      var layer := 0;
      while layer <= frame.temporalIdx
        invariant 0 <= layer <= frame.temporalIdx + 1
        invariant CollectReferences(Tracked(), info, frame, layer, refs) == CollectReferences(Tracked(), info, frame, 0, [])
      {
        if info[layer] == -1 {
          return Missing;
        }
        if AheadOfMod(32768, info[layer], frame.Id()) {
          return Obsolete;
        }
        var it := UpperBound(32768, notYetReceivedFrames, info[layer]);
        if it < |notYetReceivedFrames| && AheadOfMod(32768, frame.Id(), notYetReceivedFrames[it]) {
          return Missing;
        }
        if !AheadOfMod(32768, frame.Id(), info[layer]) {
          return Obsolete;
        }
        refs := refs + [info[layer]];
        layer := layer + 1;
      }
      return Refs(refs);
    }

    method ManageFrameInternal(frame: Frame) returns (decision: Decision<Handed>)
      modifies this`lastPictureId, this`notYetReceivedFrames, this`layerInfo, this`unwrapper, this`tl0Unwrapper
      ensures (Tracked(), decision) == Model.ManageFrameInternal(old(Tracked()), frame)
    {
      hide Decide, NotePictureId, Unwrap;
      if frame.temporalIdx >= MAX_TEMPORAL_LAYERS {
        return Drop;
      }
      ghost var recorded := NoteGap(frame.Id());
      var r := Unwrap(256, tl0Unwrapper, frame.tl0PicIdx % 256);
      tl0Unwrapper := r.0;
      var oldTl0PicIdx := r.1 - MAX_LAYER_INFO;
      layerInfo := map t | t in layerInfo && t >= oldTl0PicIdx :: layerInfo[t];
      assert (Tracked(), r.1) == Refresh(old(Tracked()), frame);
      decision := DecideFrame(frame, r.1);
    }

    method DecideFrame(frame: Frame, unwrappedTl0: int) returns (decision: Decision<Handed>)
      requires frame.temporalIdx < MAX_TEMPORAL_LAYERS
      modifies this`notYetReceivedFrames, this`layerInfo, this`unwrapper
      ensures (Tracked(), decision) == Decide(old(Tracked()), frame, unwrappedTl0)
    {
      if frame.isKey {
        if frame.temporalIdx != 0 {
          return Drop;
        }
        layerInfo := layerInfo[unwrappedTl0 := NO_LAYERS];
        decision := ReleaseFrame(frame, unwrappedTl0, []);
        return;
      }
      var base := if frame.temporalIdx == 0 then unwrappedTl0 - 1 else unwrappedTl0;
      if base !in layerInfo {
        return Stash;
      }
      if frame.temporalIdx == 0 {
        if unwrappedTl0 !in layerInfo {
          layerInfo := layerInfo[unwrappedTl0 := layerInfo[base]];
        }
        var lastPidOnLayer := layerInfo[unwrappedTl0][0];
        if AheadOrAtMod(32768, lastPidOnLayer, frame.Id()) {
          return Drop;
        }
        decision := ReleaseFrame(frame, unwrappedTl0, [lastPidOnLayer]);
      } else if frame.layerSync {
        var lastPidOnLayer := layerInfo[unwrappedTl0][frame.temporalIdx];
        if lastPidOnLayer != -1 && AheadOrAtMod(32768, lastPidOnLayer, frame.Id()) {
          return Drop;
        }
        decision := ReleaseFrame(frame, unwrappedTl0, [layerInfo[unwrappedTl0][0]]);
      } else {
        var found := FindReferences(layerInfo[unwrappedTl0], frame);
        match found
        case Missing => decision := Stash;
        case Obsolete => decision := Drop;
        case Refs(refs) => decision := ReleaseFrame(frame, unwrappedTl0, refs);
      }
    }

    /** One pass over the stash: erases what is handed off or dropped. */
    method RetryOnce() returns (handed: seq<Handed>)
      modifies this
      ensures Pass(Tracked(), stashedFrames, handed) == RetryPass(Model.ManageFrameInternal, old(Tracked()), old(stashedFrames))
    {
      hide Passing, Model.ManageFrameInternal, RetryPass;
      handed := [];
      var it := 0;
      ghost var target := RetryPass(Model.ManageFrameInternal, Tracked(), stashedFrames);
      PassBegins(Model.ManageFrameInternal, Tracked(), stashedFrames);
      while it < |stashedFrames|
        invariant it <= |stashedFrames|
        invariant Passing(Model.ManageFrameInternal, target, Tracked(), stashedFrames, it, handed)
        decreases |stashedFrames| - it
      {
        PassStep(Model.ManageFrameInternal, target, Tracked(), stashedFrames, it, handed);
        var decision := ManageFrameInternal(stashedFrames[it]);
        match decision
        case Stash =>
          it := it + 1;
        case HandOff(h) =>
          handed := handed + [h];
          stashedFrames := Without(stashedFrames, it);
        case Drop =>
          stashedFrames := Without(stashedFrames, it);
      }
      PassEnds(Model.ManageFrameInternal, target, Tracked(), stashedFrames, handed);
    }

    /** Retries the stash until a pass hands nothing off. */
    method RetryStashedFrames(res: seq<Handed>) returns (res': seq<Handed>)
      modifies this
      ensures var pass := Retry(Model.ManageFrameInternal, old(Tracked()), old(stashedFrames));
              View() == State(pass.core, pass.kept) && res' == res + pass.handed
    {
      hide Model.ManageFrameInternal, RetryPass, Retry;
      res' := res;
      var completeFrame := true;
      ghost var target := Retry(Model.ManageFrameInternal, Tracked(), stashedFrames);
      while completeFrame
        invariant var rest := if completeFrame then Retry(Model.ManageFrameInternal, Tracked(), stashedFrames)
                              else Pass(Tracked(), stashedFrames, []);
                  target.core == rest.core && target.kept == rest.kept && res + target.handed == res' + rest.handed
        decreases |stashedFrames|, completeFrame
      {
        RetryStep(Model.ManageFrameInternal, Tracked(), stashedFrames, res');
        var handed := RetryOnce();
        completeFrame := handed != [];
        res' := res' + handed;
      }
    }

    method ManageFrame(frame: Frame) returns (res: seq<Handed>)
      modifies this
      ensures (View(), res) == Step(old(View()), Manage(frame))
    {
      hide Model.ManageFrameInternal, Retry, RetryPass;
      var decision := ManageFrameInternal(frame);
      match decision
      case Stash =>
        if |stashedFrames| > MAX_STASHED_FRAMES {
          stashedFrames := stashedFrames[..|stashedFrames| - 1];
        }
        stashedFrames := [frame] + stashedFrames;
        res := [];
      case HandOff(h) =>
        res := RetryStashedFrames([h]);
      case Drop =>
        res := [];
    }

    method ClearTo(seqNum: SeqNum)
      modifies this`stashedFrames
      ensures View() == Step(old(View()), ClearUpTo(seqNum)).0
    {
      stashedFrames := EraseWhere(stashedFrames, StartsBehind(seqNum));
    }
  }
}
