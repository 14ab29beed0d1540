/** What becomes of the frames a reference finder is given: each is handed off unaltered, waits in the stash, or is given up. */
module StashConservation {
  import opened SequenceNumbers
  import opened StashRetry
  import BySeqNum = SeqNumRefFinderModel
  import SeqNumDelivery
  import Vp8 = Vp8RefFinderModel

  // ----- passes over a stash

  function Frames<F, H>(handed: seq<H>, frameOf: H -> F): seq<F> {
    seq(|handed|, i requires 0 <= i < |handed| => frameOf(handed[i]))
  }

  /** What is handed off is the frame itself. */
  ghost predicate Faithful<C(!new), F(!new), H>(manage: Manager<C, F, H>, frameOf: H -> F) {
    forall c, f :: manage(c, f).1.HandOff? ==> frameOf(manage(c, f).1.handed) == f
  }

  /** The frames dropped in a pass. */
  function PassDrops<C, F, H>(manage: Manager<C, F, H>, c: C, pending: seq<F>): seq<F>
    decreases |pending|
  {
    if pending == [] then []
    else
      (if manage(c, pending[0]).1.Drop? then [pending[0]] else []) + PassDrops(manage, manage(c, pending[0]).0, pending[1..])
  }

  function RetryDrops<C, F, H>(manage: Manager<C, F, H>, c: C, stash: seq<F>): seq<F>
    decreases |stash|
  {
    var pass := RetryPass(manage, c, stash);
    PassDrops(manage, c, stash) + if pass.handed == [] then [] else RetryDrops(manage, pass.core, pass.kept)
  }

  lemma FramesJoin<F, H>(a: seq<H>, b: seq<H>, frameOf: H -> F)
    ensures Frames(a + b, frameOf) == Frames(a, frameOf) + Frames(b, frameOf)
  {
  }

  lemma NoFrames<F, H>(frameOf: H -> F)
    ensures Frames([], frameOf) == []
  {
  }

  lemma FaithfulTo<C(!new), F(!new), H>(manage: Manager<C, F, H>, frameOf: H -> F, c: C, f: F)
    requires Faithful(manage, frameOf) && manage(c, f).1.HandOff?
    ensures Frames([manage(c, f).1.handed], frameOf) == [f]
  {
    assert frameOf(manage(c, f).1.handed) == f;
  }

  /** What is split into three parts, twice, can be put together part by part. */
  lemma PartsAdd<F>(a: seq<F>, k: seq<F>, h: seq<F>, d: seq<F>, a': seq<F>, k': seq<F>, h': seq<F>, d': seq<F>)
    requires multiset(a) == multiset(k) + multiset(h) + multiset(d)
    requires multiset(a') == multiset(k') + multiset(h') + multiset(d')
    ensures multiset(a + a') == multiset(k + k') + multiset(h + h') + multiset(d + d')
  {
    forall x ensures multiset(a + a')[x] == (multiset(k + k') + multiset(h + h') + multiset(d + d'))[x] {
      assert multiset(a)[x] == (multiset(k) + multiset(h) + multiset(d))[x];
    }
  }

  /** The first step of a pass. */
  lemma PassOnce<C, F, H>(manage: Manager<C, F, H>, c: C, pending: seq<F>)
    requires pending != []
    ensures var pass, (c', decision) := RetryPass(manage, c, pending), manage(c, pending[0]);
            var rest := RetryPass(manage, c', pending[1..]);
            && pass.kept == (if decision.Stash? then [pending[0]] else []) + rest.kept
            && pass.handed == (if decision.HandOff? then [decision.handed] else []) + rest.handed
            && PassDrops(manage, c, pending)
               == (if decision.Drop? then [pending[0]] else []) + PassDrops(manage, c', pending[1..])
  {
    var rest := RetryPass(manage, manage(c, pending[0]).0, pending[1..]);
    assert [] + rest.kept == rest.kept && [] + rest.handed == rest.handed;
  }

  lemma {:induction false} PassAccounts<C(!new), F(!new), H>(manage: Manager<C, F, H>, frameOf: H -> F, c: C, pending: seq<F>)
    requires Faithful(manage, frameOf)
    ensures var pass := RetryPass(manage, c, pending);
            multiset(pending) == multiset(pass.kept) + multiset(Frames(pass.handed, frameOf)) + multiset(PassDrops(manage, c, pending))
    decreases |pending|
  {
    hide *;
    if pending == [] {
      EmptyPass(manage, frameOf, c);
    } else {
      var c', rest := manage(c, pending[0]).0, pending[1..];
      var pass := RetryPass(manage, c', rest);
      PassAccounts(manage, frameOf, c', rest);
      var k, h, d := PassParts(manage, frameOf, c, pending);
      PartsAdd([pending[0]], k, h, d, rest, pass.kept, Frames(pass.handed, frameOf), PassDrops(manage, c', rest));
      assert pending == [pending[0]] + rest;
    }
  }

  lemma EmptyPass<C, F, H>(manage: Manager<C, F, H>, frameOf: H -> F, c: C)
    ensures var pass := RetryPass(manage, c, []);
            pass.kept == [] && Frames(pass.handed, frameOf) == [] && PassDrops(manage, c, []) == []
  {
  }

  /** Where the first frame of a pass goes. */
  lemma PassParts<C(!new), F(!new), H>(manage: Manager<C, F, H>, frameOf: H -> F, c: C, pending: seq<F>)
    returns (k: seq<F>, h: seq<F>, d: seq<F>)
    requires Faithful(manage, frameOf) && pending != []
    ensures multiset([pending[0]]) == multiset(k) + multiset(h) + multiset(d)
    ensures var pass, c' := RetryPass(manage, c, pending), manage(c, pending[0]).0;
            var rest := RetryPass(manage, c', pending[1..]);
            && pass.kept == k + rest.kept && Frames(pass.handed, frameOf) == h + Frames(rest.handed, frameOf)
            && PassDrops(manage, c, pending) == d + PassDrops(manage, c', pending[1..])
  {
    hide *;
    var (c', decision) := manage(c, pending[0]);
    var handed := if decision.HandOff? then [decision.handed] else [];
    PassOnce(manage, c, pending);
    FramesJoin(handed, RetryPass(manage, c', pending[1..]).handed, frameOf);
    NoFrames(frameOf);
    var one := [pending[0]];
    match decision
    case Stash => return one, [], [];
    case Drop => return [], [], one;
    case HandOff(_) =>
      FaithfulTo(manage, frameOf, c, pending[0]);
      return [], one, [];
  }

  lemma {:induction false} RetryAccounts<C(!new), F(!new), H>(manage: Manager<C, F, H>, frameOf: H -> F, c: C, stash: seq<F>)
    requires Faithful(manage, frameOf)
    ensures var all := Retry(manage, c, stash);
            multiset(stash) == multiset(all.kept) + multiset(Frames(all.handed, frameOf)) + multiset(RetryDrops(manage, c, stash))
    decreases |stash|
  {
    hide Faithful, Frames, RetryPass, PassDrops;
    var pass := RetryPass(manage, c, stash);
    PassAccounts(manage, frameOf, c, stash);
    if pass.handed != [] {
      RetryAccounts(manage, frameOf, pass.core, pass.kept);
      FramesJoin(pass.handed, Retry(manage, pass.core, pass.kept).handed, frameOf);
    }
  }

  // ----- order

  ghost predicate Subsequence<F(!new)>(a: seq<F>, b: seq<F>)
    decreases |b|
  {
    a == [] || (b != [] && ((a[0] == b[0] && Subsequence(a[1..], b[1..])) || Subsequence(a, b[1..])))
  }

  lemma {:induction false} SameIsSubsequence<F(!new)>(a: seq<F>)
    ensures Subsequence(a, a)
  {
    if a != [] {
      SameIsSubsequence(a[1..]);
    }
  }

  lemma {:induction false} SubsequenceOfMore<F(!new)>(a: seq<F>, b: seq<F>, c: seq<F>)
    requires Subsequence(a, b) && Subsequence(b, c)
    ensures Subsequence(a, c)
    decreases |c|
  {
    if a != [] {
      if b[0] == c[0] && Subsequence(b[1..], c[1..]) {
        if a[0] == b[0] && Subsequence(a[1..], b[1..]) {
          SubsequenceOfMore(a[1..], b[1..], c[1..]);
        } else {
          SubsequenceOfMore(a, b[1..], c[1..]);
        }
      } else {
        SubsequenceOfMore(a, b, c[1..]);
      }
    }
  }

  lemma {:induction false} PrefixIsSubsequence<F(!new)>(a: seq<F>, n: nat)
    requires n <= |a|
    ensures Subsequence(a[..n], a)
  {
    if n > 0 {
      PrefixIsSubsequence(a[1..], n - 1);
      assert a[..n][1..] == a[1..][..n - 1];
    }
  }

  lemma {:induction false} ClearedIsSubsequence<F(!new)>(stash: seq<F>, drop: F -> bool)
    ensures Subsequence(DropWhere(stash, drop), stash)
  {
    if stash != [] {
      ClearedIsSubsequence(stash[1..], drop);
      var rest := DropWhere(stash[1..], drop);
      assert [] + rest == rest && ([stash[0]] + rest)[1..] == rest;
    }
  }

  lemma {:induction false} PassKeepsOrder<C(!new), F(!new), H>(manage: Manager<C, F, H>, c: C, pending: seq<F>)
    ensures Subsequence(RetryPass(manage, c, pending).kept, pending)
    decreases |pending|
  {
    if pending != [] {
      var rest := RetryPass(manage, manage(c, pending[0]).0, pending[1..]);
      PassKeepsOrder(manage, manage(c, pending[0]).0, pending[1..]);
      assert ([pending[0]] + rest.kept)[1..] == rest.kept;
    }
  }

  lemma {:induction false} RetryKeepsOrder<C(!new), F(!new), H>(manage: Manager<C, F, H>, c: C, stash: seq<F>)
    ensures Subsequence(Retry(manage, c, stash).kept, stash)
    decreases |stash|
  {
    hide RetryPass, Subsequence;
    var pass := RetryPass(manage, c, stash);
    PassKeepsOrder(manage, c, stash);
    if pass.handed != [] {
      RetryKeepsOrder(manage, pass.core, pass.kept);
      SubsequenceOfMore(Retry(manage, pass.core, pass.kept).kept, pass.kept, stash);
    }
  }

  lemma PushKeepsOrder<F(!new)>(stash: seq<F>, f: F, arrived: seq<F>)
    requires Subsequence(stash, arrived)
    ensures Subsequence(PushStash(stash, f), [f] + arrived)
    ensures Subsequence(stash, [f] + arrived)
  {
    var pushed := PushStash(stash, f);
    assert pushed[0] == f;
    var n := |pushed| - 1;
    assert pushed[1..] == stash[..n];
    PrefixIsSubsequence(stash, n);
    SubsequenceOfMore(stash[..n], stash, arrived);
    assert ([f] + arrived)[1..] == arrived;
  }

  /** What is cleared of a stash. */
  function Cleared<F>(stash: seq<F>, drop: F -> bool): (r: seq<F>)
    ensures forall f | f in r :: drop(f)
  {
    if stash == [] then [] else (if drop(stash[0]) then [stash[0]] else []) + Cleared(stash[1..], drop)
  }

  lemma ClearOnce<F>(stash: seq<F>, drop: F -> bool) returns (k: seq<F>, d: seq<F>)
    requires stash != []
    ensures multiset([stash[0]]) == multiset(k) + multiset(d)
    ensures DropWhere(stash, drop) == k + DropWhere(stash[1..], drop) && Cleared(stash, drop) == d + Cleared(stash[1..], drop)
  {
    if drop(stash[0]) {
      return [], [stash[0]];
    } else {
      return [stash[0]], [];
    }
  }

  lemma NothingCleared<F>(drop: F -> bool)
    ensures DropWhere([], drop) == [] && Cleared([], drop) == []
  {
  }

  lemma {:induction false} ClearingAccounts<F>(stash: seq<F>, drop: F -> bool)
    ensures multiset(stash) == multiset(DropWhere(stash, drop)) + multiset(Cleared(stash, drop))
  {
    hide *;
    if stash == [] {
      NothingCleared(drop);
    } else {
      var rest := stash[1..];
      ClearingAccounts(rest, drop);
      var k, d := ClearOnce(stash, drop);
      PartsAdd([stash[0]], k, d, [], rest, DropWhere(rest, drop), Cleared(rest, drop), []);
      assert stash == [stash[0]] + rest;
    }
  }

  /** The one frame that has to make room: the oldest, if there are more than 100. */
  function PushedOut<F>(stash: seq<F>): seq<F> {
    if |stash| > 100 then [stash[|stash| - 1]] else []
  }

  lemma PushAccounts<F>(stash: seq<F>, f: F)
    ensures multiset([f]) + multiset(stash) == multiset(PushStash(stash, f)) + multiset(PushedOut(stash))
  {
    if |stash| > 100 {
      assert stash == stash[..|stash| - 1] + [stash[|stash| - 1]];
    }
  }

  // ----- one frame that comes

  /** What managing a frame leaves, hands off and gives up. */
  datatype Turn<+C, +F, +H> = Turn(core: C, stash: seq<F>, handed: seq<H>, givenUp: seq<F>)

  function ManageTurn<C, F, H>(manage: Manager<C, F, H>, c: C, stash: seq<F>, f: F): Turn<C, F, H> {
    var (c', decision) := manage(c, f);
    match decision
    case Stash => Turn(c', PushStash(stash, f), [], PushedOut(stash))
    case Drop => Turn(c', stash, [], [f])
    case HandOff(h) =>
      var all := Retry(manage, c', stash);
      Turn(all.core, all.kept, [h] + all.handed, RetryDrops(manage, c', stash))
  }

  /** The accounts of one step and of the rest of a run add up. */
  lemma AccountsAdd<F>(came: seq<F>, stash: seq<F>, left: seq<F>, handed: seq<F>, given: seq<F>,
                       later: seq<F>, last: seq<F>, handedLater: seq<F>, givenLater: seq<F>)
    requires multiset(came) + multiset(stash) == multiset(left) + multiset(handed) + multiset(given)
    requires multiset(later) + multiset(left) == multiset(last) + multiset(handedLater) + multiset(givenLater)
    ensures multiset(later + came) + multiset(stash)
            == multiset(last) + multiset(handed + handedLater) + multiset(given + givenLater)
  {
    forall x ensures (multiset(later + came) + multiset(stash))[x]
                     == (multiset(last) + multiset(handed + handedLater) + multiset(given + givenLater))[x]
    {
      assert (multiset(came) + multiset(stash))[x] == (multiset(left) + multiset(handed) + multiset(given))[x];
      assert (multiset(later) + multiset(left))[x] == (multiset(last) + multiset(handedLater) + multiset(givenLater))[x];
    }
  }

  lemma TurnAccounts<C(!new), F(!new), H>(manage: Manager<C, F, H>, frameOf: H -> F, c: C, stash: seq<F>, f: F)
    requires Faithful(manage, frameOf)
    ensures var t := ManageTurn(manage, c, stash, f);
            multiset([f]) + multiset(stash) == multiset(t.stash) + multiset(Frames(t.handed, frameOf)) + multiset(t.givenUp)
  {
    var (c', decision) := manage(c, f);
    match decision
    case Stash => PushAccounts(stash, f);
    case Drop =>
    case HandOff(h) =>
      hide Faithful, Retry, RetryDrops, Frames;
      FaithfulTo(manage, frameOf, c, f);
      RetryAccounts(manage, frameOf, c', stash);
      FramesJoin([h], Retry(manage, c', stash).handed, frameOf);
  }

  lemma TurnKeepsOrder<C(!new), F(!new), H>(manage: Manager<C, F, H>, c: C, stash: seq<F>, f: F, before: seq<F>)
    requires Subsequence(stash, before)
    ensures Subsequence(ManageTurn(manage, c, stash, f).stash, [f] + before)
  {
    hide Subsequence, Retry, RetryDrops, PushStash;
    var (c', decision) := manage(c, f);
    PushKeepsOrder(stash, f, before);
    if decision.HandOff? {
      RetryKeepsOrder(manage, c', stash);
      SubsequenceOfMore(Retry(manage, c', stash).kept, stash, [f] + before);
    }
  }

  lemma {:induction false} SameCleared<F(!new)>(stash: seq<F>, drop: F -> bool, drop': F -> bool)
    requires forall f :: drop(f) <==> drop'(f)
    ensures Cleared(stash, drop) == Cleared(stash, drop')
  {
    if stash != [] {
      SameCleared(stash[1..], drop, drop');
    }
  }

  // ----- the sequence number finder

  /** What an operation gives up: the frames it decides to drop, the one that makes room, and those it is told to clear. */
  function SeqNumGivesUp(st: BySeqNum.State, op: BySeqNum.Op): seq<BySeqNum.Frame> {
    match op
    case Manage(f) => ManageTurn(BySeqNum.ManageFrameInternal, st.core, st.stash, f).givenUp
    case PaddingIn(s) =>
      var c := BySeqNum.UpdateWithPadding(st.core.(padding := BySeqNum.StashPadding(st.core.padding, s)), s);
      RetryDrops(BySeqNum.ManageFrameInternal, c, st.stash)
    case ClearUpTo(s) => Cleared(st.stash, (f: BySeqNum.Frame) => AheadOf(s, f.firstSeqNum))
  }

  function SeqNumGivenUp(st: BySeqNum.State, ops: seq<BySeqNum.Op>): seq<BySeqNum.Frame>
    decreases |ops|
  {
    if ops == [] then [] else SeqNumGivesUp(st, ops[0]) + SeqNumGivenUp(BySeqNum.Step(st, ops[0]).0, ops[1..])
  }

  function SeqNumBrings(op: BySeqNum.Op): seq<BySeqNum.Frame> {
    if op.Manage? then [op.frame] else []
  }

  /** The frames that came, the newest first. */
  function SeqNumCame(ops: seq<BySeqNum.Op>): seq<BySeqNum.Frame> {
    if ops == [] then [] else SeqNumCame(ops[1..]) + SeqNumBrings(ops[0])
  }

  function SeqNumFrame(h: BySeqNum.Handed): BySeqNum.Frame {
    h.frame
  }

  lemma SeqNumIsFaithful()
    ensures Faithful(BySeqNum.ManageFrameInternal, SeqNumFrame)
  {
    hide BySeqNum.UpdateWithPadding, BySeqNum.CleanGop, BySeqNum.InsertGop, BySeqNum.Keys;
  }

  lemma SeqNumStepIsTurn(st: BySeqNum.State, f: BySeqNum.Frame)
    ensures var t := ManageTurn(BySeqNum.ManageFrameInternal, st.core, st.stash, f);
            BySeqNum.Step(st, BySeqNum.Manage(f)) == (BySeqNum.State(t.core, t.stash), t.handed)
  {
    hide BySeqNum.ManageFrameInternal, Retry, PushStash;
  }

  lemma SeqNumClearing(st: BySeqNum.State, s: SeqNum)
    ensures var drop := (f: BySeqNum.Frame) => AheadOf(s, f.firstSeqNum);
            var st' := BySeqNum.Step(st, BySeqNum.ClearUpTo(s)).0;
            && multiset(st.stash) == multiset(st'.stash) + multiset(Cleared(st.stash, drop))
            && Subsequence(st'.stash, st.stash)
  {
    var drop := (f: BySeqNum.Frame) => AheadOf(s, f.firstSeqNum);
    ClearingAccounts(st.stash, BySeqNum.StartsBehind(s));
    SameCleared(st.stash, BySeqNum.StartsBehind(s), drop);
    ClearedIsSubsequence(st.stash, BySeqNum.StartsBehind(s));
    hide Subsequence, DropWhere, Cleared;
  }

  lemma SeqNumStepAccounts(st: BySeqNum.State, op: BySeqNum.Op)
    ensures var (st', handed) := BySeqNum.Step(st, op);
            multiset(SeqNumBrings(op)) + multiset(st.stash)
            == multiset(st'.stash) + multiset(Frames(handed, SeqNumFrame)) + multiset(SeqNumGivesUp(st, op))
  {
    hide BySeqNum.ManageFrameInternal, BySeqNum.UpdateWithPadding, BySeqNum.StashPadding, Faithful, RetryDrops, Retry, Frames, Cleared, Subsequence, ManageTurn;
    SeqNumIsFaithful();
    match op
    case Manage(f) =>
      SeqNumStepIsTurn(st, f);
      TurnAccounts(BySeqNum.ManageFrameInternal, SeqNumFrame, st.core, st.stash, f);
    case PaddingIn(s) =>
      var c := BySeqNum.UpdateWithPadding(st.core.(padding := BySeqNum.StashPadding(st.core.padding, s)), s);
      RetryAccounts(BySeqNum.ManageFrameInternal, SeqNumFrame, c, st.stash);
    case ClearUpTo(s) =>
      SeqNumClearing(st, s);
      NoFrames(SeqNumFrame);
  }

  lemma SeqNumStepKeepsOrder(st: BySeqNum.State, op: BySeqNum.Op, before: seq<BySeqNum.Frame>)
    requires Subsequence(st.stash, before)
    ensures Subsequence(BySeqNum.Step(st, op).0.stash, SeqNumBrings(op) + before)
  {
    hide BySeqNum.ManageFrameInternal, BySeqNum.UpdateWithPadding, BySeqNum.StashPadding, Retry, Subsequence, ManageTurn, Cleared;
    assert [] + before == before;
    match op
    case Manage(f) =>
      SeqNumStepIsTurn(st, f);
      TurnKeepsOrder(BySeqNum.ManageFrameInternal, st.core, st.stash, f, before);
    case PaddingIn(s) =>
      var c := BySeqNum.UpdateWithPadding(st.core.(padding := BySeqNum.StashPadding(st.core.padding, s)), s);
      RetryKeepsOrder(BySeqNum.ManageFrameInternal, c, st.stash);
      SubsequenceOfMore(Retry(BySeqNum.ManageFrameInternal, c, st.stash).kept, st.stash, before);
    case ClearUpTo(s) =>
      SeqNumClearing(st, s);
      SubsequenceOfMore(BySeqNum.Step(st, op).0.stash, st.stash, before);
  }

  /** Over every run each frame that came is handed off unaltered, stashed or given up: one of these, and once. */
  lemma {:induction false} SeqNumRunAccounts(st: BySeqNum.State, ops: seq<BySeqNum.Op>)
    ensures multiset(SeqNumCame(ops)) + multiset(st.stash)
            == multiset(BySeqNum.After(st, ops).stash) + multiset(Frames(SeqNumDelivery.HandedOff(st, ops), SeqNumFrame))
               + multiset(SeqNumGivenUp(st, ops))
    decreases |ops|
  {
    hide BySeqNum.Step, SeqNumGivesUp, Frames, SeqNumBrings;
    if ops == [] {
      NoFrames(SeqNumFrame);
    } else {
      var (st', handed) := BySeqNum.Step(st, ops[0]);
      SeqNumStepAccounts(st, ops[0]);
      SeqNumRunAccounts(st', ops[1..]);
      FramesJoin(handed, SeqNumDelivery.HandedOff(st', ops[1..]), SeqNumFrame);
      AccountsAdd(SeqNumBrings(ops[0]), st.stash, st'.stash, Frames(handed, SeqNumFrame), SeqNumGivesUp(st, ops[0]),
                  SeqNumCame(ops[1..]), BySeqNum.After(st', ops[1..]).stash, Frames(SeqNumDelivery.HandedOff(st', ops[1..]), SeqNumFrame),
                  SeqNumGivenUp(st', ops[1..]));
    }
  }

  /** And the stash lists what is left of them newest first. */
  lemma {:induction false} SeqNumRunKeepsOrder(st: BySeqNum.State, ops: seq<BySeqNum.Op>, before: seq<BySeqNum.Frame>)
    requires Subsequence(st.stash, before)
    ensures Subsequence(BySeqNum.After(st, ops).stash, SeqNumCame(ops) + before)
    decreases |ops|
  {
    hide BySeqNum.Step, Subsequence, SeqNumBrings;
    if ops == [] {
      assert SeqNumCame(ops) + before == before;
    } else {
      SeqNumStepKeepsOrder(st, ops[0], before);
      SeqNumRunKeepsOrder(BySeqNum.Step(st, ops[0]).0, ops[1..], SeqNumBrings(ops[0]) + before);
      assert SeqNumCame(ops[1..]) + (SeqNumBrings(ops[0]) + before) == SeqNumCame(ops) + before;
    }
  }

  // ----- the VP8 finder

  /** What an operation gives up: the frames it decides to drop, the one that makes room, and those it is told to clear. */
  function Vp8GivesUp(st: Vp8.State, op: Vp8.Op): seq<Vp8.Frame> {
    match op
    case Manage(f) => ManageTurn(Vp8.ManageFrameInternal, st.core, st.stash, f).givenUp
    case ClearUpTo(s) => Cleared(st.stash, (f: Vp8.Frame) => AheadOf(s, f.firstSeqNum))
  }

  function Vp8GivenUp(st: Vp8.State, ops: seq<Vp8.Op>): seq<Vp8.Frame>
    decreases |ops|
  {
    if ops == [] then [] else Vp8GivesUp(st, ops[0]) + Vp8GivenUp(Vp8.Step(st, ops[0]).0, ops[1..])
  }

  function Vp8Brings(op: Vp8.Op): seq<Vp8.Frame> {
    if op.Manage? then [op.frame] else []
  }

  /** The frames that came, the newest first. */
  function Vp8Came(ops: seq<Vp8.Op>): seq<Vp8.Frame> {
    if ops == [] then [] else Vp8Came(ops[1..]) + Vp8Brings(ops[0])
  }

  function Vp8Frame(h: Vp8.Handed): Vp8.Frame {
    h.frame
  }

  lemma Vp8IsFaithful()
    ensures Faithful(Vp8.ManageFrameInternal, Vp8Frame)
  {
    hide Vp8.Refresh, Vp8.CollectReferences, Vp8.UpdateLayers, Vp8.UnwrapAll, AheadOrAtMod;
  }

  lemma Vp8StepIsTurn(st: Vp8.State, f: Vp8.Frame)
    ensures var t := ManageTurn(Vp8.ManageFrameInternal, st.core, st.stash, f);
            Vp8.Step(st, Vp8.Manage(f)) == (Vp8.State(t.core, t.stash), t.handed)
  {
    hide Vp8.ManageFrameInternal, Retry, PushStash;
  }

  lemma Vp8Clearing(st: Vp8.State, s: SeqNum)
    ensures var drop := (f: Vp8.Frame) => AheadOf(s, f.firstSeqNum);
            var st' := Vp8.Step(st, Vp8.ClearUpTo(s)).0;
            && multiset(st.stash) == multiset(st'.stash) + multiset(Cleared(st.stash, drop))
            && Subsequence(st'.stash, st.stash)
  {
    var drop := (f: Vp8.Frame) => AheadOf(s, f.firstSeqNum);
    ClearingAccounts(st.stash, Vp8.StartsBehind(s));
    SameCleared(st.stash, Vp8.StartsBehind(s), drop);
    ClearedIsSubsequence(st.stash, Vp8.StartsBehind(s));
    hide Subsequence, DropWhere, Cleared;
  }

  lemma Vp8StepAccounts(st: Vp8.State, op: Vp8.Op)
    ensures var (st', handed) := Vp8.Step(st, op);
            multiset(Vp8Brings(op)) + multiset(st.stash)
            == multiset(st'.stash) + multiset(Frames(handed, Vp8Frame)) + multiset(Vp8GivesUp(st, op))
  {
    hide Vp8.ManageFrameInternal, Faithful, RetryDrops, Retry, Frames, Cleared, Subsequence, ManageTurn;
    Vp8IsFaithful();
    match op
    case Manage(f) =>
      Vp8StepIsTurn(st, f);
      TurnAccounts(Vp8.ManageFrameInternal, Vp8Frame, st.core, st.stash, f);
    case ClearUpTo(s) =>
      Vp8Clearing(st, s);
      NoFrames(Vp8Frame);
  }

  lemma Vp8StepKeepsOrder(st: Vp8.State, op: Vp8.Op, before: seq<Vp8.Frame>)
    requires Subsequence(st.stash, before)
    ensures Subsequence(Vp8.Step(st, op).0.stash, Vp8Brings(op) + before)
  {
    hide Vp8.ManageFrameInternal, Retry, Subsequence, ManageTurn, Cleared;
    assert [] + before == before;
    match op
    case Manage(f) =>
      Vp8StepIsTurn(st, f);
      TurnKeepsOrder(Vp8.ManageFrameInternal, st.core, st.stash, f, before);
    case ClearUpTo(s) =>
      Vp8Clearing(st, s);
      SubsequenceOfMore(Vp8.Step(st, op).0.stash, st.stash, before);
  }

  /** Over every run each frame that came is handed off unaltered, stashed or given up: one of these, and once. */
  lemma {:induction false} Vp8RunAccounts(st: Vp8.State, ops: seq<Vp8.Op>)
    ensures multiset(Vp8Came(ops)) + multiset(st.stash)
            == multiset(Vp8.After(st, ops).stash) + multiset(Frames(Vp8.HandedOff(st, ops), Vp8Frame))
               + multiset(Vp8GivenUp(st, ops))
    decreases |ops|
  {
    hide Vp8.Step, Vp8GivesUp, Frames, Vp8Brings;
    if ops == [] {
      NoFrames(Vp8Frame);
    } else {
      var (st', handed) := Vp8.Step(st, ops[0]);
      Vp8StepAccounts(st, ops[0]);
      Vp8RunAccounts(st', ops[1..]);
      FramesJoin(handed, Vp8.HandedOff(st', ops[1..]), Vp8Frame);
      AccountsAdd(Vp8Brings(ops[0]), st.stash, st'.stash, Frames(handed, Vp8Frame), Vp8GivesUp(st, ops[0]),
                  Vp8Came(ops[1..]), Vp8.After(st', ops[1..]).stash, Frames(Vp8.HandedOff(st', ops[1..]), Vp8Frame),
                  Vp8GivenUp(st', ops[1..]));
    }
  }

  /** And the stash lists what is left of them newest first. */
  lemma {:induction false} Vp8RunKeepsOrder(st: Vp8.State, ops: seq<Vp8.Op>, before: seq<Vp8.Frame>)
    requires Subsequence(st.stash, before)
    ensures Subsequence(Vp8.After(st, ops).stash, Vp8Came(ops) + before)
    decreases |ops|
  {
    hide Vp8.Step, Subsequence, Vp8Brings;
    if ops == [] {
      assert Vp8Came(ops) + before == before;
    } else {
      Vp8StepKeepsOrder(st, ops[0], before);
      Vp8RunKeepsOrder(Vp8.Step(st, ops[0]).0, ops[1..], Vp8Brings(ops[0]) + before);
      assert Vp8Came(ops[1..]) + (Vp8Brings(ops[0]) + before) == Vp8Came(ops) + before;
    }
  }
}
