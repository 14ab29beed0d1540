/** RtpSeqNumOnlyRefFinder (rtp_seq_num_only_ref_finder.cc): its fields updated in place by erase and advance
    loops, proved to do what the state machine of SeqNumRefFinderModel says. */
module SeqNumRefFinder {
  import opened SequenceNumbers
  import opened OrderedNumbers
  import opened Unwrapping
  import opened StashRetry
  import opened SeqNumRefFinderModel
  import Model = SeqNumRefFinderModel

  class SeqNumOnlyRefFinder {
    var lastSeqNumGop: seq<Gop>
    var stashedPadding: seq<SeqNum>
    var stashedFrames: seq<Frame>
    var unwrapper: Unwrapper

    ghost function Tracked(): Core
      reads this
    {
      Core(lastSeqNumGop, stashedPadding, unwrapper)
    }

    ghost function View(): State
      reads this
    {
      State(Tracked(), stashedFrames)
    }

    constructor ()
      ensures View() == INIT
    {
      lastSeqNumGop, stashedPadding, stashedFrames := [], [], [];
      unwrapper := NEW_UNWRAPPER;
    }

    method UnwrapNumber(v: SeqNum) returns (x: int)
      modifies this`unwrapper
      ensures (unwrapper, x) == Unwrap(65536, old(unwrapper), v)
    {
      var u := Unwrap(65536, unwrapper, v);
      unwrapper, x := u.0, u.1;
    }

    /** Advances the group `seqNum` belongs to over continuous padding, and renews an ageing keyframe number. */
    method UpdateLastPictureIdWithPadding(seqNum: SeqNum)
      modifies this`lastSeqNumGop, this`stashedPadding
      ensures Tracked() == UpdateWithPadding(old(Tracked()), seqNum)
    {
      var ub := UpperBound(65536, Keys(lastSeqNumGop), seqNum);
      if ub == 0 {
        return;
      }
      var it := ub - 1;
      var nextSeqNum := Plus(lastSeqNumGop[it].lastWithPadding, 1);
      var paddingIt := LowerBound(65536, stashedPadding, nextSeqNum);
      ghost var target := AdvancePadding(lastSeqNumGop[it].lastWithPadding, stashedPadding, paddingIt);
      while paddingIt < |stashedPadding| && stashedPadding[paddingIt] == nextSeqNum
        invariant |lastSeqNumGop| == |old(lastSeqNumGop)| && paddingIt <= |stashedPadding|
        invariant lastSeqNumGop == old(lastSeqNumGop)[it := old(lastSeqNumGop)[it].(lastWithPadding := lastSeqNumGop[it].lastWithPadding)]
        invariant nextSeqNum == Plus(lastSeqNumGop[it].lastWithPadding, 1)
        invariant AdvancePadding(lastSeqNumGop[it].lastWithPadding, stashedPadding, paddingIt) == target
        decreases |stashedPadding|
      {
        lastSeqNumGop := lastSeqNumGop[it := lastSeqNumGop[it].(lastWithPadding := nextSeqNum)];
        nextSeqNum := Plus(nextSeqNum, 1);
        stashedPadding := stashedPadding[..paddingIt] + stashedPadding[paddingIt + 1..];
      }
      if ForwardDiff(lastSeqNumGop[it].key, seqNum) > 10000 {
        var save := lastSeqNumGop[it];
        lastSeqNumGop := [Gop(seqNum, save.last, save.lastWithPadding)];
      }
    }

    /** Forgets keyframes more than 100 behind `lastSeqNum`, but never the last one. */
    method CleanUpKeyframes(lastSeqNum: SeqNum)
      requires lastSeqNumGop != []
      modifies this`lastSeqNumGop
      ensures lastSeqNumGop == CleanGop(old(lastSeqNumGop), lastSeqNum)
    {
      var cleanTo := LowerBound(65536, Keys(lastSeqNumGop), Plus(lastSeqNum, -100));
      var it := 0;
      while it < cleanTo && |lastSeqNumGop| > 1
        invariant it <= cleanTo <= |old(lastSeqNumGop)| && it < |old(lastSeqNumGop)|
        invariant lastSeqNumGop == old(lastSeqNumGop)[it..]
      {
        lastSeqNumGop := lastSeqNumGop[1..];
        it := it + 1;
      }
    }

    method ManageFrameInternal(frame: Frame) returns (decision: Decision<Handed>)
      modifies this`lastSeqNumGop, this`stashedPadding, this`unwrapper
      ensures (Tracked(), decision) == Model.ManageFrameInternal(old(Tracked()), frame)
    {
      if frame.kind == Key {
        lastSeqNumGop := InsertGop(lastSeqNumGop, frame.lastSeqNum);
      }
      if lastSeqNumGop == [] {
        return Stash;
      }
      CleanUpKeyframes(frame.lastSeqNum);
      decision := ConsiderFrame(frame);
    }

    /** Finds the group the frame continues and releases it if it follows without a gap. */
    method ConsiderFrame(frame: Frame) returns (decision: Decision<Handed>)
      modifies this`lastSeqNumGop, this`stashedPadding, this`unwrapper
      ensures (Tracked(), decision) == Consider(old(Tracked()), frame)
    {
      var ub := UpperBound(65536, Keys(lastSeqNumGop), frame.lastSeqNum);
      if ub == 0 {
        return Drop;
      }
      ChosenGopIsNotAhead(lastSeqNumGop, frame.lastSeqNum);
      var it := ub - 1;
      if frame.kind == Delta && Plus(frame.firstSeqNum, -1) != lastSeqNumGop[it].lastWithPadding {
        return Stash;
      }
      assert AheadOrAt(frame.lastSeqNum, lastSeqNumGop[it].key);
      var handed := ReleaseFrame(it, frame);
      return HandOff(handed);
    }

    /** Gives `frame` its reference to group `it` and moves the group on to it. */
    method ReleaseFrame(it: nat, frame: Frame) returns (handed: Handed)
      requires it < |lastSeqNumGop|
      modifies this`lastSeqNumGop, this`stashedPadding, this`unwrapper
      ensures (Tracked(), HandOff(handed)) == Release(old(Tracked()), it, frame)
    {
      var lastPictureIdGop := lastSeqNumGop[it].last;
      var reference := UnwrapNumber(lastPictureIdGop);
      if AheadOf(frame.lastSeqNum, lastPictureIdGop) {
        lastSeqNumGop := lastSeqNumGop[it := Gop(lastSeqNumGop[it].key, frame.lastSeqNum, frame.lastSeqNum)];
      }
      assert lastSeqNumGop == old(lastSeqNumGop)[it := lastSeqNumGop[it]];
      UpdateLastPictureIdWithPadding(frame.lastSeqNum);
      var id := UnwrapNumber(frame.lastSeqNum);
      handed := Handed(frame, id, if frame.kind == Delta then 1 else 0, reference);
    }

    /** One pass over the stash: erases what is handed off or dropped. */
    method RetryOnce() returns (handed: seq<Handed>)
      modifies this
      ensures Pass(Tracked(), stashedFrames, handed) == RetryPass(Model.ManageFrameInternal, old(Tracked()), old(stashedFrames))
    {
      hide Passing, Model.ManageFrameInternal, RetryPass;
      handed := [];
      var it := 0;
      ghost var target := RetryPass(Model.ManageFrameInternal, Tracked(), stashedFrames);
      PassBegins(Model.ManageFrameInternal, Tracked(), stashedFrames);
      while it < |stashedFrames|
        invariant it <= |stashedFrames|
        invariant Passing(Model.ManageFrameInternal, target, Tracked(), stashedFrames, it, handed)
        decreases |stashedFrames| - it
      {
        PassStep(Model.ManageFrameInternal, target, Tracked(), stashedFrames, it, handed);
        var decision := ManageFrameInternal(stashedFrames[it]);
        match decision
        case Stash =>
          it := it + 1;
        case HandOff(h) =>
          handed := handed + [h];
          stashedFrames := Without(stashedFrames, it);
        case Drop =>
          stashedFrames := Without(stashedFrames, it);
      }
      PassEnds(Model.ManageFrameInternal, target, Tracked(), stashedFrames, handed);
    }

    /** Retries the stash until a pass hands nothing off. */
    method RetryStashedFrames(res: seq<Handed>) returns (res': seq<Handed>)
      modifies this
      ensures var pass := Retry(Model.ManageFrameInternal, old(Tracked()), old(stashedFrames));
              View() == State(pass.core, pass.kept) && res' == res + pass.handed
    {
      hide Model.ManageFrameInternal, RetryPass, Retry;
      res' := res;
      var completeFrame := true;
      ghost var target := Retry(Model.ManageFrameInternal, Tracked(), stashedFrames);
      while completeFrame
        invariant var rest := if completeFrame then Retry(Model.ManageFrameInternal, Tracked(), stashedFrames) else Pass(Tracked(), stashedFrames, []);
                  target.core == rest.core && target.kept == rest.kept && res + target.handed == res' + rest.handed
        decreases |stashedFrames|, completeFrame
      {
        RetryStep(Model.ManageFrameInternal, Tracked(), stashedFrames, res');
        var handed := RetryOnce();
        completeFrame := handed != [];
        res' := res' + handed;
      }
    }

    method ManageFrame(frame: Frame) returns (res: seq<Handed>)
      modifies this
      ensures (View(), res) == Model.ManageFrame(old(View()), frame)
    {
      hide Model.ManageFrameInternal, Retry, RetryPass;
      var decision := ManageFrameInternal(frame);
      match decision
      case Stash =>
        if |stashedFrames| > MAX_STASHED_FRAMES {
          stashedFrames := stashedFrames[..|stashedFrames| - 1];
        }
        stashedFrames := [frame] + stashedFrames;
        res := [];
      case HandOff(h) =>
        res := RetryStashedFrames([h]);
      case Drop =>
        res := [];
    }

    method PaddingReceived(seqNum: SeqNum) returns (res: seq<Handed>)
      modifies this
      ensures (View(), res) == Model.PaddingReceived(old(View()), seqNum)
    {
      stashedPadding := StashPadding(stashedPadding, seqNum);
      UpdateLastPictureIdWithPadding(seqNum);
      ghost var pass := Retry(Model.ManageFrameInternal, Tracked(), stashedFrames);
      assert [] + pass.handed == pass.handed;
      res := RetryStashedFrames([]);
    }

    method ClearTo(seqNum: SeqNum)
      modifies this`stashedFrames
      ensures View() == Model.ClearTo(old(View()), seqNum)
    {
      stashedFrames := EraseWhere(stashedFrames, StartsBehind(seqNum));
    }
  }
}
