/** Three runs of the VP8 finder, each of which leaves a frame stashed that could be handed off: its base layer becomes
    known by a frame that is dropped, the id it waits for leaves the record, or its base layer index unwraps anew. */
module Vp8Stash {
  import opened SequenceNumbers
  import opened OrderedNumbers
  import opened Options
  import opened Unwrapping
  import opened StashRetry
  import opened Vp8RefFinderModel
  import opened Vp8Readiness
  import opened Vp8Settled

  const BASE_ONLY: LayerInfo := [0, -1, -1, -1, -1]
  const BASE_AND_ONE: LayerInfo := [0, 1, -1, -1, -1]

  function Keyframe(id: PictureId, tl0: nat): Frame {
    Frame(true, id, tl0, 0, false, 0, [])
  }

  function BaseFrame(id: PictureId, tl0: nat): Frame {
    Frame(false, id, tl0, 0, false, 0, [])
  }

  function SyncFrame(id: PictureId, tl0: nat): Frame {
    Frame(false, id, tl0, 1, true, 0, [])
  }

  function UpperFrame(id: PictureId, tl0: nat): Frame {
    Frame(false, id, tl0, 1, false, 0, [])
  }

  lemma AfterStep(st: State, op: Op, ops: seq<Op>)
    ensures After(st, [op] + ops) == After(Step(st, op).0, ops)
  {
    assert ([op] + ops)[1..] == ops;
  }

  /** The first frame, a keyframe of id 0. */
  lemma FirstKeyframe(f: Frame, tl0: nat)
    requires f == Keyframe(0, tl0) && tl0 < 256
    ensures var (c, decision) := ManageFrameInternal(INIT.core, f);
            && decision.HandOff? && c.lastPictureId == 0 && c.notYetReceived == []
            && c.layerInfo == map[tl0 := BASE_ONLY] && c.tl0Unwrapper == Unwrapper(Some(tl0), tl0)
  {
    var layers: map<int, LayerInfo> := map[tl0 := NO_LAYERS];
    var layers': map<int, LayerInfo> := map[tl0 := BASE_ONLY];
    assert NO_LAYERS[0 := 0] == BASE_ONLY && layers[tl0 := BASE_ONLY] == layers';
    assert UpdateLayers(layers', tl0 + 1, 0, 0) == layers';
    assert UpdateLayers(layers, tl0, 0, 0) == layers';
    var c1 := Refresh(INIT.core, f).0;
    assert c1.layerInfo[tl0 := NO_LAYERS] == layers;
  }

  /** A frame above the base layer whose base layer is not known is stashed and only refreshes the state. */
  lemma UnknownBase(c: Core, f: Frame)
    requires Stashable(f) && f.temporalIdx > 0 && TlOf(c, f) !in c.layerInfo
    ensures ManageFrameInternal(c, f) == (Refresh(c, f).0, Stash)
    ensures !Ready(c, f) && ManageFrameInternal(c, f).0.layerInfo == LayersAfter(c, f)
  {
    hide NotePictureId, CollectReferences, UpdateLayers, UnwrapAll;
  }

  // ----- the base layer becomes known by a frame that is dropped

  const DROP_RUN := [Manage(Keyframe(0, 0)), Manage(SyncFrame(2, 1)), Manage(BaseFrame(0, 1))]

  lemma DropRunInSteps()
    ensures DROP_RUN == [Manage(Keyframe(0, 0))] + ([Manage(SyncFrame(2, 1))] + ([Manage(BaseFrame(0, 1))] + []))
  {
  }

  lemma OldBaseStep(c: Core, f: Frame)
    requires f == BaseFrame(0, 1) && c.layerInfo == map[0 := BASE_ONLY] && c.tl0Unwrapper == Unwrapper(Some(1), 1)
    ensures DroppedBaseLayer(c, f) && ManageFrameInternal(c, f).1 == Drop
    ensures ManageFrameInternal(c, f).0.layerInfo == map[0 := BASE_ONLY, 1 := BASE_ONLY]
    ensures ManageFrameInternal(c, f).0.tl0Unwrapper == c.tl0Unwrapper
  {
    hide NotePictureId, UpdateLayers;
    assert Refresh(c, f).1 == 1 && Refresh(c, f).0.layerInfo == c.layerInfo;
  }

  lemma SyncIsReady(c: Core, f: Frame, tl0: int)
    requires f.temporalIdx == 1 && f.layerSync && !f.isKey && TlOf(c, f) == tl0
    requires tl0 in c.layerInfo && c.layerInfo[tl0] == BASE_ONLY
    ensures Ready(c, f)
  {
    ReadyIff(c, f);
  }

  /** A layer sync frame whose base layer is not known yet stays stashed when an old frame of that base layer comes. */
  lemma ReadyFrameStaysStashed()
    ensures var st := After(INIT, DROP_RUN); st.stash == [SyncFrame(2, 1)] && Ready(st.core, SyncFrame(2, 1))
  {
    hide ManageFrameInternal, Refresh, NotePictureId;
    var waiting, old' := SyncFrame(2, 1), BaseFrame(0, 1);
    FirstKeyframe(Keyframe(0, 0), 0);
    var st1 := Step(INIT, Manage(Keyframe(0, 0))).0;
    assert RetryPass(ManageFrameInternal, st1.core, []) == Pass(st1.core, [], []);
    UnknownBase(st1.core, waiting);
    RefreshedIndex(st1.core, waiting);
    var st2 := Step(st1, Manage(waiting)).0;
    OldBaseStep(st2.core, old');
    var st3 := Step(st2, Manage(old')).0;
    SyncIsReady(st3.core, waiting, 1);
    DropRunInSteps();
    AfterStep(INIT, Manage(Keyframe(0, 0)), [Manage(waiting)] + ([Manage(old')] + []));
    AfterStep(st1, Manage(waiting), [Manage(old')] + []);
    AfterStep(st2, Manage(old'), []);
  }

  lemma RefreshedIndex(c: Core, f: Frame)
    ensures Refresh(c, f).0.tl0Unwrapper == Unwrapper(Some(f.tl0PicIdx % 256), TlOf(c, f))
  {
    hide NotePictureId;
  }

  // ----- the id it waits for leaves the record

  const LATE_RUN := [Manage(Keyframe(0, 0)), Manage(SyncFrame(1, 0)), Manage(UpperFrame(3, 0)), Manage(UpperFrame(150, 5))]

  lemma LateRunInSteps()
    ensures LATE_RUN == [Manage(Keyframe(0, 0))] + ([Manage(SyncFrame(1, 0))]
                        + ([Manage(UpperFrame(3, 0))] + ([Manage(UpperFrame(150, 5))] + [])))
  {
  }

  lemma NextId(c: Core, f: Frame)
    requires c.lastPictureId == 0 && c.notYetReceived == [] && f.Id() == 1
    ensures var c' := NotePictureId(c, 1); c'.lastPictureId == 1 && c'.notYetReceived == [1]
  {
    hide NotePictureId, Following;
    var k := NotingAppends(c, [], f);
    ShortFollowings();
  }

  lemma ShortFollowings()
    ensures [] + Following(0, 1) == [1] && [] + Following(1, 2) == [2, 3]
  {
  }

  lemma SyncDecides(c: Core, f: Frame)
    requires f == SyncFrame(1, 0) && c.layerInfo == map[0 := BASE_ONLY]
    ensures Decide(c, f, 0) == Release(c, f, 0, [0])
  {
    hide Release;
  }

  lemma SyncReleases(c: Core, f: Frame)
    requires f == SyncFrame(1, 0) && c.layerInfo == map[0 := BASE_ONLY] && c.notYetReceived == [1]
    ensures var (c', decision) := Release(c, f, 0, [0]);
            && decision.HandOff? && c'.layerInfo == map[0 := BASE_AND_ONE] && c'.tl0Unwrapper == c.tl0Unwrapper
            && c'.lastPictureId == c.lastPictureId && c'.notYetReceived == []
  {
    hide UnwrapAll;
    var layers: map<int, LayerInfo> := map[0 := BASE_AND_ONE];
    assert BASE_ONLY[1 := 1] == BASE_AND_ONE && c.layerInfo[0 := BASE_AND_ONE] == layers;
    assert UpdateLayers(layers, 1, 1, 1) == layers;
    assert UpdateLayers(c.layerInfo, 0, 1, 1) == layers;
    assert Erase(32768, [1], 1) == [];
  }

  lemma SyncStep(c: Core, f: Frame)
    requires f == SyncFrame(1, 0) && c.layerInfo == map[0 := BASE_ONLY] && c.tl0Unwrapper == Unwrapper(Some(0), 0)
    requires c.lastPictureId == 0 && c.notYetReceived == []
    ensures var (c', decision) := ManageFrameInternal(c, f);
            && decision.HandOff? && c'.layerInfo == map[0 := BASE_AND_ONE] && c'.tl0Unwrapper == c.tl0Unwrapper
            && c'.lastPictureId == 1 && c'.notYetReceived == []
  {
    hide NotePictureId, Release, Decide;
    NextId(c, f);
    NotingKeepsTheRest(c, 1);
    var c1 := Refresh(c, f).0;
    assert Refresh(c, f).1 == 0 && c1.layerInfo == c.layerInfo;
    SyncDecides(c1, f);
    SyncReleases(c1, f);
  }

  lemma TwoMore(c: Core, f: Frame)
    requires c.lastPictureId == 1 && c.notYetReceived == [] && f.Id() == 3
    ensures var c' := NotePictureId(c, 3); c'.lastPictureId == 3 && c'.notYetReceived == [2, 3]
  {
    hide NotePictureId, Following;
    var k := NotingAppends(c, [], f);
    ShortFollowings();
  }

  lemma UpperStep(c: Core, f: Frame)
    requires f == UpperFrame(3, 0) && c.layerInfo == map[0 := BASE_AND_ONE] && c.tl0Unwrapper == Unwrapper(Some(0), 0)
    requires c.lastPictureId == 1 && c.notYetReceived == []
    ensures var (c', decision) := ManageFrameInternal(c, f);
            && decision == Stash && c'.layerInfo == c.layerInfo && c'.tl0Unwrapper == c.tl0Unwrapper
            && c'.lastPictureId == 3 && c'.notYetReceived == [2, 3]
  {
    TwoMore(c, f);
    hide NotePictureId;
    NotingKeepsTheRest(c, 3);
    var c1 := Refresh(c, f).0;
    assert Refresh(c, f).1 == 0 && c1.layerInfo == c.layerInfo && c1.notYetReceived == [2, 3];
    assert UpperBound(32768, [2, 3], 0) == 0;
    assert GapBefore(c1, 0, 3);
    hide GapBefore;
    assert CollectReferences(c1, BASE_AND_ONE, f, 0, []) == Missing;
  }

  lemma FarAhead(c: Core, id: PictureId)
    requires c.lastPictureId == 3 && c.notYetReceived == [2, 3] && id == 150
    ensures var c' := NotePictureId(c, id); c'.lastPictureId == 150 && c'.notYetReceived == Following(50, 100)
  {
    FillGapAppends([], 50, 150);
    assert LowerBound(32768, [2, 3], 50) == 2;
    assert [2, 3][2..] == [];
  }

  lemma FarStep(c: Core, f: Frame)
    requires f == UpperFrame(150, 5) && c.layerInfo == map[0 := BASE_AND_ONE] && c.tl0Unwrapper == Unwrapper(Some(0), 0)
    requires c.lastPictureId == 3 && c.notYetReceived == [2, 3]
    ensures var (c', decision) := ManageFrameInternal(c, f);
            && decision == Stash && c'.layerInfo == c.layerInfo && c'.tl0Unwrapper == Unwrapper(Some(5), 5)
            && c'.lastPictureId == 150 && c'.notYetReceived == Following(50, 100)
            && !DroppedBaseLayer(c, f)
  {
    hide ManageFrameInternal, NotePictureId, Following, DroppedBaseLayer, LayersAfter, TlOf;
    FarAhead(c, 150);
    FarIndex(c, f);
    UnknownBase(c, f);
    IdleFrameLeaves(c, f);
  }

  lemma FarIndex(c: Core, f: Frame)
    requires f == UpperFrame(150, 5) && c.layerInfo == map[0 := BASE_AND_ONE] && c.tl0Unwrapper == Unwrapper(Some(0), 0)
    ensures TlOf(c, f) == 5 && !DroppedBaseLayer(c, f) && LayersAfter(c, f) == c.layerInfo
  {
  }

  lemma UpperIsReady(c: Core, f: Frame)
    requires f == UpperFrame(3, 0) && c.layerInfo == map[0 := BASE_AND_ONE] && c.tl0Unwrapper == Unwrapper(Some(5), 5)
    requires c.lastPictureId == 150 && c.notYetReceived == Following(50, 100)
    ensures Ready(c, f)
  {
    hide ManageFrameInternal, NotePictureId, Following, Waits, Fits, InfoFor, TlOf, Ready, Noted;
    StillNoted(c);
    NotedStays(c, 3);
    WaitsNoMore(c, f);
    UpperFits(c, f);
    ReadyIff(c, f);
  }

  lemma StillNoted(c: Core)
    requires c.lastPictureId == 150 && c.notYetReceived == Following(50, 100)
    ensures Noted(c, 3)
  {
    FollowingIs(50, 100);
    hide Following;
  }

  lemma UpperFits(c: Core, f: Frame)
    requires f == UpperFrame(3, 0) && c.layerInfo == map[0 := BASE_AND_ONE] && c.tl0Unwrapper == Unwrapper(Some(5), 5)
    ensures TlOf(c, f) == 0 && InfoFor(c.layerInfo, f, 0) == BASE_AND_ONE && Fits(BASE_AND_ONE, f)
  {
  }

  lemma WaitsNoMore(c: Core, f: Frame)
    requires f == UpperFrame(3, 0) && c.notYetReceived == Following(50, 100)
    ensures !Waits(c, BASE_AND_ONE, f)
  {
    FollowingIs(50, 100);
    hide Following, GapBefore;
    NoGapAmongLater(c, 0);
    NoGapAmongLater(c, 1);
  }

  lemma NoGapAmongLater(c: Core, last: PictureId)
    requires forall x | x in c.notYetReceived :: x < 32768 && 0 < DiffMod(32768, 50, x) <= 100
    ensures !GapBefore(c, last, 3)
  {
    var i := UpperBound(32768, c.notYetReceived, last);
    if i < |c.notYetReceived| {
      assert c.notYetReceived[i] in c.notYetReceived;
    }
  }

  /** No base layer frame is dropped: frame 3 waits for frame 2, until the stashed frame 150 makes the finder give up
      the ids before 51. */
  lemma WaitingFrameStaysStashed()
    ensures var st := After(INIT, LATE_RUN);
            st.stash == [UpperFrame(150, 5), UpperFrame(3, 0)] && Ready(st.core, UpperFrame(3, 0))
  {
    hide ManageFrameInternal, Refresh, NotePictureId, Following;
    FirstKeyframe(Keyframe(0, 0), 0);
    var st1 := Step(INIT, Manage(Keyframe(0, 0))).0;
    assert RetryPass(ManageFrameInternal, st1.core, []) == Pass(st1.core, [], []);
    SyncStep(st1.core, SyncFrame(1, 0));
    var st2 := Step(st1, Manage(SyncFrame(1, 0))).0;
    assert RetryPass(ManageFrameInternal, st2.core, []) == Pass(st2.core, [], []);
    UpperStep(st2.core, UpperFrame(3, 0));
    var st3 := Step(st2, Manage(UpperFrame(3, 0))).0;
    FarStep(st3.core, UpperFrame(150, 5));
    var st4 := Step(st3, Manage(UpperFrame(150, 5))).0;
    UpperIsReady(st4.core, UpperFrame(3, 0));
    LateRunInSteps();
    AfterStep(INIT, Manage(Keyframe(0, 0)), LATE_RUN[1..]);
    AfterStep(st1, Manage(SyncFrame(1, 0)), LATE_RUN[2..]);
    AfterStep(st2, Manage(UpperFrame(3, 0)), LATE_RUN[3..]);
    AfterStep(st3, Manage(UpperFrame(150, 5)), []);
  }

  // ----- its base layer index unwraps anew

  const WRAP_RUN := [Manage(Keyframe(0, 200)), Manage(SyncFrame(1, 80)), Manage(SyncFrame(2, 60)), Manage(SyncFrame(3, 200)),
                     Manage(SyncFrame(4, 60)), Manage(SyncFrame(5, 150))]

  lemma WrapRunInSteps()
    ensures WRAP_RUN == [Manage(Keyframe(0, 200))] + ([Manage(SyncFrame(1, 80))] + ([Manage(SyncFrame(2, 60))]
                        + ([Manage(SyncFrame(3, 200))] + ([Manage(SyncFrame(4, 60))] + ([Manage(SyncFrame(5, 150))] + [])))))
  {
  }

  /** A stashed frame that moves the unwrapper from `x` to `y` and leaves base layer 200 known. */
  lemma MovingStep(st: State, f: Frame, x: int, y: int)
    requires f.temporalIdx == 1 && f.layerSync && !f.isKey && |st.stash| <= 100
    requires st.core.layerInfo == map[200 := BASE_ONLY] && st.core.tl0Unwrapper == Unwrapper(Some(x % 256), x)
    requires TlOf(st.core, f) == y && y != 200 && y <= 250 && y % 256 == f.tl0PicIdx % 256
    ensures var st' := Step(st, Manage(f)).0;
            && st'.stash == [f] + st.stash && st'.core.layerInfo == map[200 := BASE_ONLY]
            && st'.core.tl0Unwrapper == Unwrapper(Some(y % 256), y)
  {
    hide NotePictureId, CollectReferences, UpdateLayers, UnwrapAll;
    UnknownBase(st.core, f);
    RefreshedIndex(st.core, f);
    hide ManageFrameInternal;
    assert LayersAfter(st.core, f) == st.core.layerInfo;
  }

  /** The base layer index 200 of frame 3 is taken for the one before index 0, and later for that of the keyframe. */
  lemma RewrappedFrameStaysStashed()
    ensures var st := After(INIT, WRAP_RUN); SyncFrame(3, 200) in st.stash && Ready(st.core, SyncFrame(3, 200))
  {
    hide ManageFrameInternal, Refresh, Ready, Step;
    FirstKeyframe(Keyframe(0, 200), 200);
    FirstStep(Keyframe(0, 200));
    var st1 := Step(INIT, Manage(Keyframe(0, 200))).0;
    MovingStep(st1, SyncFrame(1, 80), 200, 80);
    var st2 := Step(st1, Manage(SyncFrame(1, 80))).0;
    MovingStep(st2, SyncFrame(2, 60), 80, 60);
    var st3 := Step(st2, Manage(SyncFrame(2, 60))).0;
    MovingStep(st3, SyncFrame(3, 200), 60, -56);
    var st4 := Step(st3, Manage(SyncFrame(3, 200))).0;
    MovingStep(st4, SyncFrame(4, 60), -56, 60);
    var st5 := Step(st4, Manage(SyncFrame(4, 60))).0;
    MovingStep(st5, SyncFrame(5, 150), 60, 150);
    var st6 := Step(st5, Manage(SyncFrame(5, 150))).0;
    SyncIsReady(st6.core, SyncFrame(3, 200), 200);
    WrapRunInSteps();
    AfterStep(INIT, Manage(Keyframe(0, 200)), WRAP_RUN[1..]);
    AfterStep(st1, Manage(SyncFrame(1, 80)), WRAP_RUN[2..]);
    AfterStep(st2, Manage(SyncFrame(2, 60)), WRAP_RUN[3..]);
    AfterStep(st3, Manage(SyncFrame(3, 200)), WRAP_RUN[4..]);
    AfterStep(st4, Manage(SyncFrame(4, 60)), WRAP_RUN[5..]);
    AfterStep(st5, Manage(SyncFrame(5, 150)), []);
    assert SyncFrame(3, 200) in st6.stash;
  }

  lemma FirstStep(f: Frame)
    requires ManageFrameInternal(INIT.core, f).1.HandOff?
    ensures Step(INIT, Manage(f)).0 == State(ManageFrameInternal(INIT.core, f).0, [])
  {
    hide ManageFrameInternal;
    var c := ManageFrameInternal(INIT.core, f).0;
    assert RetryPass(ManageFrameInternal, c, []) == Pass(c, [], []);
  }
}
