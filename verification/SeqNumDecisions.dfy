/** When the sequence-number-only finder hands a frame off, stashes it or drops it, given the keyframes it tracks; and how
    renewing the keyframe of a long group makes it drop frames. */
module SeqNumDecisions {
  import opened SequenceNumbers
  import opened OrderedNumbers
  import opened SeqNumRefFinderModel
  import opened SeqNumStash
  import opened SeqNumDelivery

  /** The keyframe is the last one tracked that is not ahead of the frame. */
  ghost predicate GroupOf(gop: seq<Gop>, s: SeqNum, i: nat) {
    i < |gop| && !AheadOf(gop[i].key, s) && forall j | i < j < |gop| :: AheadOf(gop[j].key, s)
  }

  /** The frame starts right behind what has come of its group. */
  ghost predicate ContinuesGroup(gop: seq<Gop>, f: Frame) {
    exists i: nat :: GroupOf(gop, f.lastSeqNum, i) && Plus(f.firstSeqNum, -1) == gop[i].lastWithPadding
  }

  /** The keyframes still tracked when a frame is considered: without the oldest ones as long as they are more than 100 behind the
      frame and not the only one. */
  lemma KeptAre(gop: seq<Gop>, s: SeqNum) returns (n: nat)
    requires gop != []
    ensures n < |gop| && CleanGop(gop, s) == gop[n..]
    ensures forall i | 0 <= i < n :: AheadOf(Plus(s, -100), gop[i].key)
    ensures n + 1 < |gop| ==> !AheadOf(Plus(s, -100), gop[n].key)
  {
    n := CleanCount(gop, s);
    var i := LowerBound(65536, Keys(gop), Plus(s, -100));
    assert forall j | 0 <= j < i :: AheadOf(Plus(s, -100), Keys(gop)[j]);
    assert i < |gop| ==> !AheadOf(Plus(s, -100), Keys(gop)[i]);
    hide LowerBound, AheadOf, Plus;
  }

  /** The keyframes tracked when a frame is considered. */
  ghost function Tracked(c: Core, f: Frame): seq<Gop> {
    var gop := if f.kind == Key then InsertGop(c.gop, f.lastSeqNum) else c.gop;
    if gop == [] then [] else CleanGop(gop, f.lastSeqNum)
  }

  /** A frame is dropped exactly if the oldest keyframe tracked is ahead of it; a delta frame waits if there is no keyframe yet, or
      if it does not continue its group; anything else is handed off. */
  lemma DecisionIs(c: Core, f: Frame)
    requires InHalf(Tracked(c, f))
    ensures var gop, decision := Tracked(c, f), ManageFrameInternal(c, f).1;
            if gop == [] then decision.Stash?
            else
              && (decision.Drop? <==> AheadOf(gop[0].key, f.lastSeqNum))
              && (decision.Stash? <==> !AheadOf(gop[0].key, f.lastSeqNum) && f.kind == Delta && !ContinuesGroup(gop, f))
  {
    hide InHalf, CleanGop, InsertGop, Consider, ContinuesGroup, AheadOf;
    var gop := Tracked(c, f);
    if gop != [] {
      ConsideredIs(c.(gop := gop), f);
    }
  }

  lemma ConsideredIs(c: Core, f: Frame)
    requires c.gop != [] && InHalf(c.gop)
    ensures var decision := Consider(c, f).1;
            && (decision.Drop? <==> AheadOf(c.gop[0].key, f.lastSeqNum))
            && (decision.Stash? <==> !AheadOf(c.gop[0].key, f.lastSeqNum) && f.kind == Delta && !ContinuesGroup(c.gop, f))
  {
    var ub := UpperBound(65536, Keys(c.gop), f.lastSeqNum);
    FirstDecides(c.gop, f.lastSeqNum);
    hide InHalf, UpperBound, Plus, AheadOf, Release, GroupOf;
    if ub > 0 {
      ChosenIsGroup(c.gop, f.lastSeqNum);
      assert GroupOf(c.gop, f.lastSeqNum, ub - 1);
    }
  }

  lemma FirstDecides(gop: seq<Gop>, s: SeqNum)
    requires gop != []
    ensures UpperBound(65536, Keys(gop), s) == 0 <==> AheadOf(gop[0].key, s)
  {
    assert Keys(gop)[0] == gop[0].key;
    hide AheadOfMod;
  }

  lemma ChosenIsGroup(gop: seq<Gop>, s: SeqNum)
    requires InHalf(gop) && UpperBound(65536, Keys(gop), s) > 0
    ensures forall i: nat :: GroupOf(gop, s, i) <==> i == UpperBound(65536, Keys(gop), s) - 1
  {
    AheadIsSuffix(gop, s);
    hide AheadOf, UpperBound, InHalf;
    var ub := UpperBound(65536, Keys(gop), s);
    assert GroupOf(gop, s, ub - 1);
    forall i: nat | GroupOf(gop, s, i) ensures i == ub - 1 {
      assert i < ub;
    }
  }

  // ----- renewing the keyframe of a long group

  /** Padding or a frame more than 10000 ahead of the only keyframe tracked takes its place. From then on exactly the frames behind
      it are dropped, whether they continue the group or not. */
  lemma RenewalDrops(c: Core, s: SeqNum, f: Frame)
    requires |c.gop| == 1 && !AheadOf(c.gop[0].key, s) && f.kind == Delta
    ensures var c' := UpdateWithPadding(c, s);
            && |c'.gop| == 1 && c'.gop[0].last == c.gop[0].last
            && c'.gop[0].key == (if ForwardDiff(c.gop[0].key, s) > 10000 then s else c.gop[0].key)
            && (ManageFrameInternal(c', f).1.Drop? <==> AheadOf(c'.gop[0].key, f.lastSeqNum))
  {
    assert Keys(c.gop) == [c.gop[0].key];
    hide AdvancePadding, LowerBound;
    assert UpperBound(65536, Keys(c.gop), s) == 1;
    var c' := UpdateWithPadding(c, s);
    FirstDecides(c'.gop, f.lastSeqNum);
    OneIsKept(c'.gop, f.lastSeqNum);
    hide UpdateWithPadding, UpperBound, CleanGop, AheadOf, Release;
  }

  lemma OneIsKept(gop: seq<Gop>, s: SeqNum)
    requires |gop| == 1
    ensures CleanGop(gop, s) == gop
  {
    var n := KeptAre(gop, s);
  }

  /** A keyframe of one packet, number 0, and a frame of packets 1 to 10000 of its group. */
  const LONG_RUN := [Manage(Frame(Key, 0, 0, [])), Manage(Frame(Delta, 1, 10000, []))]

  lemma LongGroup()
    ensures exists l: nat :: Group(After(INIT, LONG_RUN).core, 0, l, 10000, {})
    ensures After(INIT, LONG_RUN).stash == []
  {
    hide Step, ManageFrameInternal, Group;
    var key, f := Frame(Key, 0, 0, []), Frame(Delta, 1, 10000, []);
    var st1 := Step(INIT, Manage(key)).0;
    StartsGroup(key);
    var q := NextIsReleased(st1.core, 0, 0, 0, {}, f);
    assert Beyond({}, q) == {};
    GroupBounds(ManageFrameInternal(st1.core, f).0, 0, 10000, q, {});
    var st2 := Step(st1, Manage(f)).0;
    StepsOn(st1, f);
    assert LONG_RUN[1..] == [Manage(f)] && LONG_RUN[1..][1..] == [];
    assert After(st1, [Manage(f)]) == After(st2, []) == st2;
    assert After(INIT, LONG_RUN) == After(st1, LONG_RUN[1..]);
  }

  lemma StartsGroup(key: Frame)
    requires key == Frame(Key, 0, 0, [])
    ensures var st := Step(INIT, Manage(key)).0; Group(st.core, 0, 0, 0, {}) && st.stash == []
  {
    hide ManageFrameInternal, Group;
    var q := KeyframeStarts(INIT.core, 0, {}, {}, key);
    assert Beyond({}, q) == {} && (q > 0 ==> Covers(0, {}, {}, 1));
    var c := ManageFrameInternal(INIT.core, key).0;
    var l :| Group(c, 0, l, q, Beyond({}, q));
    GroupBounds(c, 0, l, q, {});
  }

  lemma GroupBounds(c: Core, k: SeqNum, l: nat, p: nat, pad: set<int>)
    requires Group(c, k, l, p, pad)
    ensures l <= p <= 10000
  {
  }

  lemma StepsOn(st: State, f: Frame)
    requires st.stash == [] && ManageFrameInternal(st.core, f).1.HandOff?
    ensures Step(st, Manage(f)).0 == State(ManageFrameInternal(st.core, f).0, [])
  {
    hide ManageFrameInternal;
  }

  /** After that run padding 10002 makes the finder drop frame 10001, although everything before it has been handed off. */
  lemma PaddingMakesFrameDrop()
    ensures var st := After(INIT, LONG_RUN + [PaddingIn(10002)]);
            && st.stash == [] && st.core.gop != [] && st.core.gop[0].lastWithPadding == 10000
            && ManageFrameInternal(st.core, Frame(Delta, 10001, 10001, [])).1.Drop?
  {
    hide Step, ManageFrameInternal, Group;
    LongGroup();
    var st := After(INIT, LONG_RUN);
    var l: nat :| Group(st.core, 0, l, 10000, {});
    PaddingRenews(st, l, Frame(Delta, 10001, 10001, []));
    assert LONG_RUN + [PaddingIn(10002)] == [LONG_RUN[0]] + ([LONG_RUN[1]] + [PaddingIn(10002)]);
    AfterOneMore(INIT, LONG_RUN, PaddingIn(10002));
  }

  lemma {:induction false} AfterOneMore(st: State, ops: seq<Op>, op: Op)
    ensures After(st, ops + [op]) == Step(After(st, ops), op).0
    decreases |ops|
  {
    hide Step;
    if ops == [] {
      assert [] + [op] == [op] && [op][1..] == [];
    } else {
      assert (ops + [op])[1..] == ops[1..] + [op];
      AfterOneMore(Step(st, ops[0]).0, ops[1..], op);
    }
  }

  lemma PaddingRenews(st: State, l: nat, f: Frame)
    requires Group(st.core, 0, l, 10000, {}) && st.stash == [] && f == Frame(Delta, 10001, 10001, [])
    ensures var st' := Step(st, PaddingIn(10002)).0;
            && st'.stash == [] && st'.core.gop == [Gop(10002, Plus(0, l), 10000)]
            && ManageFrameInternal(st'.core, f).1.Drop?
  {
    var c := st.core.(padding := StashPadding(st.core.padding, 10002));
    NoPadding(st.core.padding);
    assert c.padding == [10002];
    assert Keys(c.gop) == [0] && UpperBound(65536, [0], 10002) == 1;
    assert UpdateWithPadding(c, 10002).gop == [Gop(10002, Plus(0, l), 10000)];
    RenewalDrops(c, 10002, f);
    hide ManageFrameInternal, UpdateWithPadding, Group;
  }

  lemma NoPadding(padding: seq<SeqNum>)
    requires Lists(0, padding, {})
    ensures padding == []
  {
    if padding != [] {
      FirstIsIn(padding);
      assert false;
    }
  }

  lemma FirstIsIn(padding: seq<SeqNum>)
    requires padding != []
    ensures exists s: SeqNum :: s in padding
  {
    assert padding[0] in padding;
  }

  // ----- padding

  lemma InsertsIt(padding: seq<SeqNum>, s: SeqNum)
    ensures forall e: SeqNum :: e in Insert(65536, padding, s) <==> e == s || e in padding
  {
    var i := LowerBound(65536, padding, s);
    assert padding == padding[..i] + padding[i..];
  }

  /** Numbers as far as half the space behind `top` are behind each other as they are behind `top`. */
  lemma BehindTop(top: SeqNum, a: SeqNum, b: SeqNum)
    requires 2 * ForwardDiff(a, top) < 65536 && 2 * ForwardDiff(b, top) < 65536
    ensures AheadOf(a, b) <==> ForwardDiff(a, top) < ForwardDiff(b, top)
  {
  }

  /** Padding that comes is listed, and of what is listed that stays which is at most 100 behind it, if all of it lies
      within half the space. */
  lemma PaddingIsListed(padding: seq<SeqNum>, top: SeqNum, s: SeqNum)
    requires Behind(65536, padding, top) && 2 * (ForwardDiff(s, top) + 100) < 65536
    ensures forall e: SeqNum :: e in StashPadding(padding, s) <==>
              e == s || (e in padding && ForwardDiff(e, top) <= ForwardDiff(s, top) + 100)
  {
    StaysListed(padding, top, s);
    var n := LowerBound(65536, padding, Plus(s, -100));
    hide *;
    PaddingStashed(padding, s, n);
    InsertsIt(padding[n..], s);
    forall e: SeqNum ensures e in padding[n..] <==> e in padding && ForwardDiff(e, top) <= ForwardDiff(s, top) + 100 {
      if i: nat :| i < |padding| && padding[i] == e && ForwardDiff(e, top) <= ForwardDiff(s, top) + 100 {
        assert padding[n..][i - n] == e;
      }
    }
  }

  lemma PaddingStashed(padding: seq<SeqNum>, s: SeqNum, n: nat)
    requires n <= |padding| && n == LowerBound(65536, padding, Plus(s, -100))
    ensures StashPadding(padding, s) == Insert(65536, padding[n..], s)
  {
    hide LowerBound, Insert, Plus;
  }

  lemma StaysListed(padding: seq<SeqNum>, top: SeqNum, s: SeqNum)
    requires Behind(65536, padding, top) && 2 * (ForwardDiff(s, top) + 100) < 65536
    ensures var n := LowerBound(65536, padding, Plus(s, -100));
            forall i | 0 <= i < |padding| :: i < n <==> ForwardDiff(padding[i], top) > ForwardDiff(s, top) + 100
  {
    hide Behind, ForwardDiff, Plus, LowerBound;
    forall i | 0 <= i < |padding|
      ensures i < LowerBound(65536, padding, Plus(s, -100)) <==> ForwardDiff(padding[i], top) > ForwardDiff(s, top) + 100
    {
      StaysListedAt(padding, top, s, i);
    }
  }

  lemma StaysListedAt(padding: seq<SeqNum>, top: SeqNum, s: SeqNum, i: nat)
    requires Behind(65536, padding, top) && 2 * (ForwardDiff(s, top) + 100) < 65536 && i < |padding|
    ensures i < LowerBound(65536, padding, Plus(s, -100)) <==> ForwardDiff(padding[i], top) > ForwardDiff(s, top) + 100
  {
    hide *;
    var oldest := Plus(s, -100);
    var n := LowerBound(65536, padding, oldest);
    HundredFurther(top, s);
    if i < n {
      InBehind(padding, top, i, i);
      BehindTop(top, oldest, padding[i]);
      SameOrder(oldest, padding[i]);
    } else {
      InBehind(padding, top, n, i);
      BehindTop(top, oldest, padding[n]);
      SameOrder(oldest, padding[n]);
    }
  }

  lemma HundredFurther(top: SeqNum, s: SeqNum)
    requires 2 * (ForwardDiff(s, top) + 100) < 65536
    ensures ForwardDiff(Plus(s, -100), top) == ForwardDiff(s, top) + 100
  {
  }

  lemma SameOrder(a: SeqNum, b: SeqNum)
    ensures AheadOf(a, b) <==> AheadOfMod(65536, a, b)
  {
  }

  lemma InBehind(padding: seq<SeqNum>, top: SeqNum, i: nat, j: nat)
    requires Behind(65536, padding, top) && i <= j < |padding|
    ensures 0 < 2 * ForwardDiff(padding[j], top) <= 2 * ForwardDiff(padding[i], top) < 65536
  {
  }
}
