/** Between public calls no stashed frame could be handed off: RetryStashedFrames reaches a fixpoint, and
    forgetting old keyframes can only turn a stashed frame into one to drop. */
module SeqNumStash {
  import opened SequenceNumbers
  import opened OrderedNumbers
  import opened Unwrapping
  import opened StashRetry
  import opened SeqNumRefFinderModel

  ghost predicate HalfApart(gop: seq<Gop>, i: int, j: int)
    requires 0 <= i < j < |gop|
  {
    0 < ForwardDiff(gop[i].key, gop[j].key) < 32768
  }

  /** The tracked keyframes, oldest first, lie within half the number space. */
  ghost predicate InHalf(gop: seq<Gop>) {
    forall i, j | 0 <= i < j < |gop| :: HalfApart(gop, i, j)
  }

  /** The decision to hand off a frame that is no keyframe, given the tracked keyframes. */
  ghost predicate Continues(gop: seq<Gop>, f: Frame) {
    gop != [] &&
    var cleaned := CleanGop(gop, f.lastSeqNum);
    var ub := UpperBound(65536, Keys(cleaned), f.lastSeqNum);
    ub > 0 && (f.kind == Delta ==> Plus(f.firstSeqNum, -1) == cleaned[ub - 1].lastWithPadding)
  }

  /** The frame cannot be handed off now nor after forgetting any number of the oldest keyframes. */
  ghost predicate Stuck(gop: seq<Gop>, f: Frame) {
    f.kind != Key && forall k | 0 <= k <= |gop| :: !Continues(gop[k..], f)
  }

  lemma StuckIsNotHandedOff(c: Core, f: Frame)
    requires Stuck(c.gop, f)
    ensures !ManageFrameInternal(c, f).1.HandOff?
  {
    assert c.gop[0..] == c.gop;
  }

  lemma SuffixIsStuck(gop: seq<Gop>, f: Frame, n: nat)
    requires Stuck(gop, f) && n <= |gop|
    ensures Stuck(gop[n..], f)
  {
    forall k | 0 <= k <= |gop| - n ensures !Continues(gop[n..][k..], f) {
      assert gop[n..][k..] == gop[n + k..];
    }
  }

  /** Going forward within half the space, once ahead of `s` means ahead for good. */
  lemma NoReturn(x: SeqNum, y: SeqNum, z: SeqNum, s: SeqNum)
    requires 0 < ForwardDiff(x, y) < 32768 && 0 < ForwardDiff(y, z) < 32768 && 0 < ForwardDiff(x, z) < 32768
    requires !AheadOf(x, s) && AheadOf(y, s)
    ensures AheadOf(z, s)
  {
  }

  lemma BetweenIsRecent(x: SeqNum, y: SeqNum, s: SeqNum)
    requires 0 < ForwardDiff(x, y) < 32768 && !AheadOf(x, s) && !AheadOf(y, s)
    requires !AheadOf(Plus(s, -100), x)
    ensures !AheadOf(Plus(s, -100), y)
  {
  }

  /** The keyframes at or behind `s` come first, then those ahead of it. */
  lemma AheadIsSuffix(gop: seq<Gop>, s: SeqNum)
    requires InHalf(gop) && UpperBound(65536, Keys(gop), s) > 0
    ensures forall j | 0 <= j < |gop| :: AheadOf(gop[j].key, s) <==> j >= UpperBound(65536, Keys(gop), s)
  {
    var ub := UpperBound(65536, Keys(gop), s);
    assert !AheadOf(Keys(gop)[0], s);
    assert ub < |gop| ==> AheadOf(Keys(gop)[ub], s);
    forall j | 0 <= j < |gop| ensures AheadOf(gop[j].key, s) <==> j >= ub {
      if j < ub {
        assert !AheadOf(Keys(gop)[j], s);
      } else if j > ub {
        assert HalfApart(gop, 0, ub) && HalfApart(gop, 0, j) && HalfApart(gop, ub, j);
        NoReturn(gop[0].key, gop[ub].key, gop[j].key, s);
      }
    }
  }

  /** The first keyframe kept, when others are, is not too old for the frame. */
  lemma FirstKeptIsRecent(gop: seq<Gop>, s: SeqNum)
    requires gop != [] && |CleanGop(gop, s)| > 1
    ensures !AheadOf(Plus(s, -100), CleanGop(gop, s)[0].key)
  {
    var i := LowerBound(65536, Keys(gop), Plus(s, -100));
    assert i < |gop| && !AheadOf(Plus(s, -100), Keys(gop)[i]);
  }

  /** While the group of the frame is kept, the frame finds it again. */
  lemma GroupKept(gop: seq<Gop>, s: SeqNum, k: nat)
    requires InHalf(gop)
    requires |gop| > 1 ==> !AheadOf(Plus(s, -100), gop[0].key)
    requires k < UpperBound(65536, Keys(gop), s)
    ensures CleanGop(gop[k..], s) == gop[k..]
    ensures UpperBound(65536, Keys(gop[k..]), s) == UpperBound(65536, Keys(gop), s) - k
  {
    var ub := UpperBound(65536, Keys(gop), s);
    AheadIsSuffix(gop, s);
    if k > 0 {
      assert HalfApart(gop, 0, k);
      BetweenIsRecent(gop[0].key, gop[k].key, s);
    }
    SearchRest(gop[k..], s, ub - k);
  }

  lemma SearchRest(rest: seq<Gop>, s: SeqNum, n: nat)
    requires rest != [] && n <= |rest|
    requires |rest| > 1 ==> !AheadOf(Plus(s, -100), rest[0].key)
    requires forall j | 0 <= j < |rest| :: AheadOf(rest[j].key, s) <==> j >= n
    ensures CleanGop(rest, s) == rest && UpperBound(65536, Keys(rest), s) == n
  {
    assert |rest| > 1 ==> !AheadOf(Plus(s, -100), Keys(rest)[0]);
    UpperBoundUnique(65536, Keys(rest), s, n);
  }

  /** Once the group is forgotten, everything left is ahead of the frame. */
  lemma GroupForgotten(gop: seq<Gop>, s: SeqNum, k: nat)
    requires InHalf(gop) && 0 < UpperBound(65536, Keys(gop), s) <= k < |gop|
    ensures UpperBound(65536, Keys(CleanGop(gop[k..], s)), s) == 0
  {
    var rest := gop[k..];
    var keys := Keys(CleanGop(rest, s));
    AheadIsSuffix(gop, s);
    assert keys[0] == gop[k + CleanCount(rest, s)].key;
  }

  /** Forgetting more of the oldest keyframes leaves the frame its group, or none. */
  lemma ForgettingOldest(gop: seq<Gop>, f: Frame, k: nat)
    requires InHalf(gop) && k < |gop|
    requires |gop| > 1 ==> !AheadOf(Plus(f.lastSeqNum, -100), gop[0].key)
    requires var ub := UpperBound(65536, Keys(gop), f.lastSeqNum);
             ub > 0 && f.kind == Delta && Plus(f.firstSeqNum, -1) != gop[ub - 1].lastWithPadding
    ensures !Continues(gop[k..], f)
  {
    hide *;
    var ub := UpperBound(65536, Keys(gop), f.lastSeqNum);
    if k < ub {
      GroupKept(gop, f.lastSeqNum, k);
      assert gop[k..][ub - k - 1] == gop[ub - 1];
      WrongPredecessor(gop[k..], f);
    } else {
      GroupForgotten(gop, f.lastSeqNum, k);
      NoGroup(gop[k..], f);
    }
  }

  lemma NoGroup(gop: seq<Gop>, f: Frame)
    requires gop != [] && UpperBound(65536, Keys(CleanGop(gop, f.lastSeqNum)), f.lastSeqNum) == 0
    ensures !Continues(gop, f)
  {
  }

  lemma WrongPredecessor(gop: seq<Gop>, f: Frame)
    requires gop != [] && f.kind == Delta && CleanGop(gop, f.lastSeqNum) == gop
    requires var ub := UpperBound(65536, Keys(gop), f.lastSeqNum);
             ub > 0 && Plus(f.firstSeqNum, -1) != gop[ub - 1].lastWithPadding
    ensures !Continues(gop, f)
  {
    hide UpperBound, LowerBound, CleanGop, CleanCount, Keys;
  }

  /** A frame just stashed stays stuck. */
  lemma StashedIsStuck(c: Core, f: Frame)
    requires InHalf(c.gop) && f.kind != Key && ManageFrameInternal(c, f).1.Stash?
    ensures Stuck(ManageFrameInternal(c, f).0.gop, f)
  {
    hide InHalf, UpperBound, LowerBound, Release, Continues;
    if c.gop != [] {
      var cleaned := CleanGop(c.gop, f.lastSeqNum);
      CleanKeepsInHalf(c.gop, f.lastSeqNum);
      if |cleaned| > 1 {
        FirstKeptIsRecent(c.gop, f.lastSeqNum);
      }
      forall k: nat | k <= |cleaned| ensures !Continues(cleaned[k..], f) {
        if k < |cleaned| {
          ForgettingOldest(cleaned, f, k);
        } else {
          assert cleaned[k..] == [];
          NoKeyframeNoGroup(f);
        }
      }
    } else {
      NoKeyframeNoGroup(f);
    }
  }

  lemma NoKeyframeNoGroup(f: Frame)
    ensures !Continues([], f)
  {
  }

  /** A frame that is not handed off only forgets keyframes, the oldest first. */
  lemma ForgetCount(c: Core, f: Frame) returns (n: nat)
    requires f.kind != Key && !ManageFrameInternal(c, f).1.HandOff?
    ensures n <= |c.gop| && ManageFrameInternal(c, f).0 == c.(gop := c.gop[n..])
  {
    if c.gop == [] {
      n := 0;
    } else {
      n := CleanCount(c.gop, f.lastSeqNum);
    }
  }

  lemma SuffixInHalf(gop: seq<Gop>, n: nat)
    requires InHalf(gop) && n <= |gop|
    ensures InHalf(gop[n..])
  {
    forall i, j | 0 <= i < j < |gop| - n ensures HalfApart(gop[n..], i, j) {
      assert HalfApart(gop, n + i, n + j);
    }
  }

  /** Only the keys matter. */
  lemma SameKeysInHalf(gop: seq<Gop>, gop': seq<Gop>)
    requires InHalf(gop) && |gop| == |gop'| && forall i | 0 <= i < |gop| :: gop[i].key == gop'[i].key
    ensures InHalf(gop')
  {
    forall i, j | 0 <= i < j < |gop| ensures HalfApart(gop', i, j) {
      assert HalfApart(gop, i, j);
    }
  }

  lemma NotHandedOffForgets(c: Core, f: Frame, g: Frame)
    requires InHalf(c.gop) && f.kind != Key && !ManageFrameInternal(c, f).1.HandOff?
    ensures InHalf(ManageFrameInternal(c, f).0.gop)
    ensures Stuck(c.gop, g) ==> Stuck(ManageFrameInternal(c, f).0.gop, g)
  {
    hide ManageFrameInternal, Stuck;
    var n := ForgetCount(c, f);
    SuffixInHalf(c.gop, n);
    if Stuck(c.gop, g) {
      SuffixIsStuck(c.gop, g, n);
    }
  }

  lemma ReleaseKeepsInHalf(c: Core, i: nat, f: Frame)
    requires i < |c.gop| && InHalf(c.gop)
    ensures InHalf(Release(c, i, f).0.gop)
  {
    var e := c.gop[i];
    var e' := if AheadOf(f.lastSeqNum, e.last) then e.(last := f.lastSeqNum, lastWithPadding := f.lastSeqNum) else e;
    SameKeysInHalf(c.gop, c.gop[i := e']);
    UpdateKeepsInHalf(c.(gop := c.gop[i := e'], unwrapper := Unwrap(65536, c.unwrapper, e.last).0), f.lastSeqNum);
  }

  lemma CleanKeepsInHalf(gop: seq<Gop>, s: SeqNum)
    requires InHalf(gop) && gop != []
    ensures InHalf(CleanGop(gop, s))
  {
    SuffixInHalf(gop, CleanCount(gop, s));
  }

  lemma ManageKeepsInHalf(c: Core, f: Frame)
    requires InHalf(if f.kind == Key then InsertGop(c.gop, f.lastSeqNum) else c.gop)
    ensures InHalf(ManageFrameInternal(c, f).0.gop)
  {
    var gop := if f.kind == Key then InsertGop(c.gop, f.lastSeqNum) else c.gop;
    if gop != [] {
      CleanKeepsInHalf(gop, f.lastSeqNum);
      ConsiderKeepsInHalf(c.(gop := CleanGop(gop, f.lastSeqNum)), f);
    }
  }

  lemma ConsiderKeepsInHalf(c: Core, f: Frame)
    requires InHalf(c.gop)
    ensures InHalf(Consider(c, f).0.gop)
  {
    var ub := UpperBound(65536, Keys(c.gop), f.lastSeqNum);
    if ub > 0 {
      ReleaseKeepsInHalf(c, ub - 1, f);
    }
  }

  lemma UpdateKeepsInHalf(c: Core, s: SeqNum)
    requires InHalf(c.gop)
    ensures InHalf(UpdateWithPadding(c, s).gop)
  {
    if |UpdateWithPadding(c, s).gop| == |c.gop| > 1 {
      SameKeysInHalf(c.gop, UpdateWithPadding(c, s).gop);
    }
  }

  ghost predicate NoKeyframes(frames: seq<Frame>) {
    forall i | 0 <= i < |frames| :: frames[i].kind != Key
  }

  ghost predicate AllStuck(gop: seq<Gop>, frames: seq<Frame>) {
    forall i | 0 <= i < |frames| :: Stuck(gop, frames[i])
  }

  lemma PrependStuck(gop: seq<Gop>, f: Frame, frames: seq<Frame>)
    requires Stuck(gop, f) && AllStuck(gop, frames)
    ensures AllStuck(gop, [f] + frames)
  {
  }

  lemma {:induction false} PassKeepsInHalf(c: Core, pending: seq<Frame>)
    requires InHalf(c.gop) && NoKeyframes(pending)
    ensures InHalf(RetryPass(ManageFrameInternal, c, pending).core.gop) && NoKeyframes(RetryPass(ManageFrameInternal, c, pending).kept)
    decreases |pending|
  {
    hide InHalf, ManageFrameInternal;
    if pending != [] {
      ManageKeepsInHalf(c, pending[0]);
      PassKeepsInHalf(ManageFrameInternal(c, pending[0]).0, pending[1..]);
    }
  }

  /** A pass that hands nothing off keeps stuck frames stuck. */
  lemma {:induction false} IdlePassKeepsStuck(c: Core, pending: seq<Frame>, f: Frame)
    requires InHalf(c.gop) && NoKeyframes(pending) && RetryPass(ManageFrameInternal, c, pending).handed == [] && Stuck(c.gop, f)
    ensures Stuck(RetryPass(ManageFrameInternal, c, pending).core.gop, f)
    decreases |pending|
  {
    hide Stuck, InHalf, ManageFrameInternal;
    if pending != [] {
      NotHandedOffForgets(c, pending[0], f);
      IdlePassKeepsStuck(ManageFrameInternal(c, pending[0]).0, pending[1..], f);
    }
  }

  /** After a pass that hands nothing off, every frame it keeps is stuck. */
  lemma {:induction false} IdlePassIsFixpoint(c: Core, pending: seq<Frame>)
    requires InHalf(c.gop) && NoKeyframes(pending) && RetryPass(ManageFrameInternal, c, pending).handed == []
    ensures AllStuck(RetryPass(ManageFrameInternal, c, pending).core.gop, RetryPass(ManageFrameInternal, c, pending).kept)
    decreases |pending|
  {
    hide Stuck, InHalf, ManageFrameInternal;
    if pending != [] {
      var f := pending[0];
      var (c1, decision) := ManageFrameInternal(c, f);
      NotHandedOffForgets(c, f, f);
      IdlePassIsFixpoint(c1, pending[1..]);
      var rest := RetryPass(ManageFrameInternal, c1, pending[1..]);
      if decision.Stash? {
        StashedIsStuck(c, f);
        IdlePassKeepsStuck(c1, pending[1..], f);
        PrependStuck(rest.core.gop, f, rest.kept);
      }
    }
  }

  lemma {:induction false} RetryIsFixpoint(c: Core, stash: seq<Frame>)
    requires InHalf(c.gop) && NoKeyframes(stash)
    ensures var pass := Retry(ManageFrameInternal, c, stash);
            InHalf(pass.core.gop) && AllStuck(pass.core.gop, pass.kept) && |pass.kept| <= |stash|
    decreases |stash|
  {
    var pass := RetryPass(ManageFrameInternal, c, stash);
    PassKeepsInHalf(c, stash);
    if pass.handed == [] {
      IdlePassIsFixpoint(c, stash);
    } else {
      RetryIsFixpoint(pass.core, pass.kept);
    }
  }

  /** Between public calls: no stashed frame could be handed off, and at most 101 are stashed. */
  ghost predicate Settled(st: State) {
    && InHalf(st.core.gop)
    && AllStuck(st.core.gop, st.stash)
    && |st.stash| <= MAX_STASHED_FRAMES + 1
  }

  /** A keyframe keeps the tracked keyframes within half the number space. */
  ghost predicate KeyFits(st: State, op: Op) {
    op.Manage? && op.frame.kind == Key ==> InHalf(InsertGop(st.core.gop, op.frame.lastSeqNum))
  }

  lemma ManageFrameKeepsSettled(st: State, f: Frame)
    requires Settled(st) && KeyFits(st, Manage(f))
    ensures Settled(ManageFrame(st, f).0)
  {
    var (c, decision) := ManageFrameInternal(st.core, f);
    if f.kind == Key {
      KeyframeIsHandedOff(st.core, f);
    }
    ManageKeepsInHalf(st.core, f);
    match decision
    case HandOff(h) =>
      RetryIsFixpoint(c, st.stash);
    case _ =>
      forall i | 0 <= i < |st.stash| ensures Stuck(c.gop, st.stash[i]) {
        NotHandedOffForgets(st.core, f, st.stash[i]);
      }
      if decision.Stash? {
        StashedIsStuck(st.core, f);
      }
  }

  lemma StepKeepsSettled(st: State, op: Op)
    requires Settled(st) && KeyFits(st, op)
    ensures Settled(Step(st, op).0)
  {
    match op
    case Manage(f) => ManageFrameKeepsSettled(st, f);
    case PaddingIn(s) =>
      var c := st.core.(padding := StashPadding(st.core.padding, s));
      UpdateKeepsInHalf(c, s);
      RetryIsFixpoint(UpdateWithPadding(c, s), st.stash);
    case ClearUpTo(s) =>
      var kept := Step(st, op).0.stash;
      forall i | 0 <= i < |kept| ensures Stuck(st.core.gop, kept[i]) {
        assert kept[i] in st.stash;
      }
  }

  ghost predicate FittingRun(st: State, ops: seq<Op>)
    decreases |ops|
  {
    ops == [] || (KeyFits(st, ops[0]) && FittingRun(Step(st, ops[0]).0, ops[1..]))
  }

  /** In every state a run reaches between public calls, no stashed frame is one that would be handed off. */
  lemma {:induction false} RunIsSettled(st: State, ops: seq<Op>)
    requires Settled(st) && FittingRun(st, ops)
    ensures Settled(After(st, ops))
    ensures forall f | f in After(st, ops).stash :: !ManageFrameInternal(After(st, ops).core, f).1.HandOff?
    decreases |ops|
  {
    if ops == [] {
      forall f | f in st.stash ensures !ManageFrameInternal(st.core, f).1.HandOff? {
        var i :| 0 <= i < |st.stash| && st.stash[i] == f;
        StuckIsNotHandedOff(st.core, f);
      }
    } else {
      StepKeepsSettled(st, ops[0]);
      RunIsSettled(Step(st, ops[0]).0, ops[1..]);
    }
  }
}
