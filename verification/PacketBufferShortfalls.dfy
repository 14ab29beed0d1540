/** Runs from an empty packet buffer on which it falls short: a missing number that outlives its age, a
    ClearTo that splits a frame, and a ClearTo that leaves a packet behind the one it clears to. */
module PacketBufferShortfalls {
  import opened SequenceNumbers
  import opened RingArithmetic
  import opened PacketRing
  import opened FrameAssembly
  import opened MissingPackets
  import opened OrderedNumbers
  import opened PacketBufferModel
  import opened PacketBufferRuns
  import opened FirstSeqNum
  import opened Options

  /** A packet as it arrives, of another codec than H.264. */
  function PacketOf(s: SeqNum, timestamp: nat, isFirst: bool, isLast: bool): Packet {
    Packet(s, timestamp, isFirst, isLast, false, false, None, false, 0, 0, [])
  }

  /** A packet that begins a frame and does not end it. */
  function Begin(s: SeqNum): Packet {
    PacketOf(s, s, true, false)
  }

  /** A packet that is a whole frame. */
  function Whole(s: SeqNum): Packet {
    PacketOf(s, s, true, true)
  }

  /** A packet inside the frame that begins with packet `b`. */
  function Middle(s: SeqNum, b: SeqNum): Packet {
    PacketOf(s, b, false, false)
  }

  // ----- single insertions

  /** A packet that continues its frame without ending it, and has no successor yet, is stored and marked. */
  lemma InsertionContinues(st: State, p: Packet)
    requires Valid(st) && !p.h264 && Stores(st, p.seqNum) && !p.isLast && Plus(p.seqNum, 1) !in st.slots
    requires !CompletesCutFrame(st, p) && PotentialNewFrame(Stored(st, p).slots, p.seqNum)
    ensures InsertPacket(st, p) ==
            (st.(size := NewSize(st, p.seqNum), slots := st.slots[p.seqNum := p.(continuous := true)],
                 first := NewFirst(st, p.seqNum), received := true, window := UpdateMissing(st.window, p.seqNum)),
             NOTHING)
  {
    InsertPacketStores(st, p);
    hide Spaced, Keyed, Plain, Closed, NoneH264, Sound, PowerOfTwo, InsertPacket, Stores, FindFrames, CompletesCut, UpdateMissing, NewSize, NewFirst;
    SearchContinues(st.slots, p, NewSize(st, p.seqNum));
  }

  lemma SearchContinues(m: Slots, p: Packet, n: nat)
    requires !p.isLast && Plus(p.seqNum, 1) !in m && n > 0
    requires var m1 := m[p.seqNum := p.(continuous := false)];
             Plain(m1) && !CompletesCut(m1, p.seqNum, n) && PotentialNewFrame(m1, p.seqNum)
    ensures FindFrames(m[p.seqNum := p.(continuous := false)], p.seqNum, n) == (m[p.seqNum := p.(continuous := true)], [])
  {
    var m1 := m[p.seqNum := p.(continuous := false)];
    FindFramesStep(m1, p.seqNum, n);
    NextIsOther(p.seqNum);
    hide FindFrames, CompletesCut, Plain;
    assert Marked(m1, p.seqNum) == m[p.seqNum := p.(continuous := true)];
    FindFramesStops(Marked(m1, p.seqNum), Plus(p.seqNum, 1), n - 1);
  }

  lemma NextIsOther(s: SeqNum)
    ensures Plus(s, 1) != s
  {
  }

  /** A packet that is a whole frame, and has no successor yet, is handed out at once. */
  lemma InsertionCompletes(st: State, p: Packet)
    requires Uncut(st) && !p.h264 && Stores(st, p.seqNum) && p.isFirst && p.isLast && Plus(p.seqNum, 1) !in st.slots
    ensures var (st', out) := InsertPacket(st, p);
            && st'.slots == st.slots && st'.size == NewSize(st, p.seqNum) && st'.maxSize == st.maxSize
            && st'.first == NewFirst(st, p.seqNum) && st'.received && st'.cleared == st.cleared
  {
    InsertPacketKeepsUncut(st, p);
    InsertPacketStores(st, p);
    assert p.seqNum !in st.slots;
    hide Spaced, Keyed, Plain, Closed, NoneH264, Sound, PowerOfTwo, InsertPacket, Stores, FindFrames, CompletesCut, UpdateMissing, NewSize, NewFirst;
    SearchCompletes(st.slots, p, NewSize(st, p.seqNum));
  }

  lemma SearchCompletes(m: Slots, p: Packet, n: nat)
    requires p.isFirst && p.isLast && p.seqNum !in m && Plus(p.seqNum, 1) !in m && n > 0
    requires var m1 := m[p.seqNum := p.(continuous := false)]; Plain(m1) && !CompletesCut(m1, p.seqNum, n)
    ensures FindFrames(m[p.seqNum := p.(continuous := false)], p.seqNum, n).0 == m
  {
    var s, m1 := p.seqNum, m[p.seqNum := p.(continuous := false)];
    FindFramesStep(m1, s, n);
    var (b, k) := RunTo(Marked(m1, s), s);
    LoneRun(Marked(m1, s), s, b, k);
    hide FindFrames, CompletesCut, Plain, Keys, Run, HasRun;
    assert Marked(m1, s) - {s} == m;
    FindFramesStops(m, Plus(s, 1), n - 1);
  }

  /** The run to a packet that begins a frame is that packet. */
  lemma LoneRun(m: Slots, s: SeqNum, b: SeqNum, k: nat)
    requires Run(m, b, k) && Plus(b, k - 1) == s && s in m && m[s].isFirst
    ensures k == 1 && Keys(b, k) == {s}
  {
    assert RunPacket(m, b, k - 1);
    assert Plus(b, 0) == s;
  }

  /** The slot is free while the ring need not grow. */
  lemma StoresFree(st: State, s: SeqNum)
    requires Placed(st) && !Ignored(st, s)
    requires forall e | e in st.slots :: e % st.size != s % st.size
    ensures Stores(st, s) && NewSize(st, s) == st.size
  {
    forall e | e in st.slots ensures Slot(e, st.size) != Slot(s, st.size) {
      SlotIsModulo(e, st.size);
      SlotIsModulo(s, st.size);
    }
  }

  lemma SizeIsPowerOfTwo()
    ensures PowerOfTwo(1024)
  {
    assert Pow2(5) == 32;
    Pow2Add(5, 5);
  }

  /** A run is its first operation and a run from there. */
  lemma RunOf(st: State, op: Op, ops: seq<Op>)
    requires Placed(st)
    ensures Placed(Step(st, op).0)
    ensures SafeRun(st, [op] + ops) <==> Safe(st, op) && SafeRun(Step(st, op).0, ops)
    ensures Execute(st, [op] + ops).state == Execute(Step(st, op).0, ops).state
  {
    hide Step, Safe, Placed, Accepted, Discarded;
    StepKeepsPlaced(st, op);
    assert ([op] + ops)[1..] == ops;
  }

  lemma RunOfOne(st: State, op: Op)
    requires Placed(st)
    ensures Placed(Step(st, op).0)
    ensures SafeRun(st, [op]) <==> Safe(st, op)
    ensures Execute(st, [op]).state == Step(st, op).0
  {
    hide Step, Safe, Placed, Accepted, Discarded;
    RunOf(st, op, []);
    assert [op] + [] == [op];
  }

  /** Inserting the first packet of a frame where neither its slot nor its successor is taken. */
  lemma BeginStep(st: State, s: SeqNum)
    requires Uncut(st) && !st.cleared && Plus(s, 1) !in st.slots
    requires forall e | e in st.slots :: e % st.size != s % st.size
    ensures Step(st, Insert(Begin(s))).0 ==
            st.(slots := st.slots[s := Begin(s).(continuous := true)], first := NewFirst(st, s),
                received := true, window := UpdateMissing(st.window, s))
  {
    hide Spaced, Keyed, Plain, Closed, NoneH264, Sound, PowerOfTwo, NewSize, NewFirst, InsertPacket, Stores, UpdateMissing;
    StoresFree(st, s);
    InsertPacketKeepsUncut(st, Begin(s));
    InsertionContinues(st, Begin(s));
  }

  /** Inserting the packet behind the first one of a frame. */
  lemma MiddleStep(st: State, s: SeqNum, b: SeqNum)
    requires Uncut(st) && !st.cleared && s !in st.slots && Plus(s, 1) !in st.slots && s == Plus(b, 1)
    requires b in st.slots && st.slots[b] == Begin(b).(continuous := true)
    requires forall e | e in st.slots :: e % st.size != s % st.size
    ensures Step(st, Insert(Middle(s, b))).0 ==
            st.(slots := st.slots[s := Middle(s, b).(continuous := true)], first := NewFirst(st, s),
                received := true, window := UpdateMissing(st.window, s))
  {
    hide Spaced, Keyed, Plain, Closed, NoneH264, Sound, PowerOfTwo, NewSize, NewFirst, InsertPacket, Stores, UpdateMissing, PotentialNewFrame;
    StoresFree(st, s);
    MiddleContinues(st.slots, s, b);
    InsertPacketKeepsUncut(st, Middle(s, b));
    InsertionContinues(st, Middle(s, b));
  }

  lemma MiddleContinues(m: Slots, s: SeqNum, b: SeqNum)
    requires b in m && m[b] == Begin(b).(continuous := true) && s == Plus(b, 1) && s !in m
    ensures PotentialNewFrame(m[s := Middle(s, b).(continuous := false)], s)
  {
    PlusPlus(b, 1, -1);
    assert Plus(s, -1) == b;
  }

  /** Inserting a whole frame where neither its slot nor its successor is taken. */
  lemma WholeStep(st: State, s: SeqNum)
    requires Uncut(st) && !st.cleared && Plus(s, 1) !in st.slots
    requires forall e | e in st.slots :: e % st.size != s % st.size
    ensures var st' := Step(st, Insert(Whole(s))).0;
            && st'.slots == st.slots && st'.size == st.size
            && st'.first == NewFirst(st, s) && st'.received && !st'.cleared
  {
    hide Spaced, Keyed, Plain, Closed, NoneH264, Sound, PowerOfTwo, NewSize, NewFirst, InsertPacket, Stores, UpdateMissing;
    StoresFree(st, s);
    InsertionCompletes(st, Whole(s));
  }

  lemma InitIsUncut(st: State)
    requires st == Init(1024, 1024)
    ensures Uncut(st)
  {
    SizeIsPowerOfTwo();
  }

  // ----- a missing number outlives its age

  lemma FirstWindow(a: SeqNum)
    ensures UpdateMissing(Window(None, []), a) == Window(Some(a), [])
  {
  }

  /** A jump of 1000 and a step of one leave the first number jumped over a full 1000 behind. */
  lemma WindowBeforeJump(w0: Window, a: SeqNum, b: SeqNum, c: SeqNum)
    requires w0 == Window(Some(a), []) && ForwardDiff(a, b) == 1000 && ForwardDiff(b, c) == 1 && c < MAX_PADDING_AGE
    ensures var w := UpdateMissing(UpdateMissing(w0, b), c);
            InWindow(w) && HalfSpaceJump(w, c + 32768) && w.newest == Some(c) && w.missing[0] == Plus(c, -MAX_PADDING_AGE)
  {
    hide UpdateMissing, Range, InWindow, HalfSpaceJump;
    JumpFromNothing(w0, a, b);
    NumbersJumpedOver(UpdateMissing(w0, b), b, c);
  }

  lemma JumpFromNothing(w: Window, a: SeqNum, b: SeqNum)
    requires w == Window(Some(a), []) && ForwardDiff(a, b) == 1000
    ensures InWindow(UpdateMissing(w, b)) && UpdateMissing(w, b) == Window(Some(b), Range(Plus(b, -999), 999))
  {
    hide UpdateMissing, LowerBound, Range, Plus, ForwardDiff, AheadOf, Skipped, Kept;
    LongestJump(a, b);
    NothingKept(b);
    JumpAhead(w, b);
    NothingBefore(Range(Plus(b, -Skipped(a, b)), Skipped(a, b)));
  }

  lemma LongestJump(a: SeqNum, b: SeqNum)
    requires ForwardDiff(a, b) == 1000
    ensures AheadOf(b, a) && Skipped(a, b) == 999
  {
  }

  lemma NothingKept(b: SeqNum)
    ensures Kept([], b) == []
  {
  }

  lemma NothingBefore(s: seq<SeqNum>)
    ensures [] + s == s
  {
  }

  lemma NumbersJumpedOver(w: Window, b: SeqNum, c: SeqNum)
    requires InWindow(w) && w == Window(Some(b), Range(Plus(b, -999), 999)) && ForwardDiff(b, c) == 1
    requires c < MAX_PADDING_AGE
    ensures InWindow(UpdateMissing(w, c)) && HalfSpaceJump(UpdateMissing(w, c), c + 32768)
    ensures UpdateMissing(w, c).newest == Some(c) && UpdateMissing(w, c).missing[0] == Plus(c, -MAX_PADDING_AGE)
  {
    hide UpdateMissing, LowerBound, InWindow;
    FirstJumpedOver(b, c);
    assert w.missing[0] == Plus(c, -MAX_PADDING_AGE);
    hide Range;
    assert !HalfSpaceJump(w, c);
    JumpAhead(w, c);
    assert LowerBound(65536, w.missing, Plus(c, -MAX_PADDING_AGE)) == 0;
    assert w.missing[0..] == w.missing;
    EmptyRange(w.missing, Plus(c, 0));
  }

  lemma FirstJumpedOver(b: SeqNum, c: SeqNum)
    requires ForwardDiff(b, c) == 1
    ensures |Range(Plus(b, -999), 999)| == 999 && Range(Plus(b, -999), 999)[0] == Plus(c, -MAX_PADDING_AGE)
    ensures AheadOf(c, b) && Skipped(b, c) == 0
  {
  }

  lemma EmptyRange(missing: seq<SeqNum>, n: SeqNum)
    ensures missing + Range(n, 0) == missing
  {
  }

  lemma FirstBegun(st: State, a: SeqNum)
    requires st == Init(1024, 1024) && a == 64535
    ensures Uncut(st) && Safe(st, Insert(Begin(a))) && Uncut(Step(st, Insert(Begin(a))).0)
    ensures var st' := Step(st, Insert(Begin(a))).0;
            st'.slots.Keys == {a} && st'.size == 1024 && st'.received && !st'.cleared && st'.window == Window(Some(a), [])
  {
    hide UpdateMissing, Step;
    InitIsUncut(st);
    FirstWindow(a);
    BeginStep(st, a);
    StepKeepsUncut(st, Insert(Begin(a)));
  }

  lemma SecondBegun(st: State, a: SeqNum, b: SeqNum)
    requires Uncut(st) && st.slots.Keys == {a} && st.size == 1024 && st.received && !st.cleared
    requires a == 64535 && b == 65535
    ensures Safe(st, Insert(Begin(b))) && Uncut(Step(st, Insert(Begin(b))).0)
    ensures var st' := Step(st, Insert(Begin(b))).0;
            && st'.slots.Keys == {a, b} && st'.size == 1024 && st'.received && !st'.cleared
            && st'.window == UpdateMissing(st.window, b)
  {
    hide Spaced, Keyed, Plain, Closed, NoneH264, Sound, PowerOfTwo, UpdateMissing, Step;
    BeginStep(st, b);
    StepKeepsUncut(st, Insert(Begin(b)));
  }

  lemma Padded(st: State, c: SeqNum)
    requires Uncut(st)
    ensures Safe(st, Padding(c)) && Uncut(Step(st, Padding(c)).0)
    ensures Step(st, Padding(c)).0 == st.(window := UpdateMissing(st.window, c))
  {
    hide Spaced, Keyed, Plain, Closed, NoneH264, Sound, PowerOfTwo, UpdateMissing;
    InsertPaddingHandsOutNothing(st, c);
    StepKeepsUncut(st, Padding(c));
  }

  lemma JumpKeepsStale(w: Window, c: SeqNum, d: SeqNum)
    requires InWindow(w) && HalfSpaceJump(w, d) && c == 0 && d == 32768
    requires w.newest == Some(c) && w.missing[0] == Plus(c, -MAX_PADDING_AGE)
    ensures var w' := UpdateMissing(w, d);
            w'.newest == Some(d) && 64536 in w'.missing && ForwardDiff(64536, d) == 33768 && !InWindow(w')
  {
    hide UpdateMissing, InWindow;
    HalfSpaceJumpLeavesStale(w, d);
  }

  lemma JumpStep(st: State, a: SeqNum, b: SeqNum, d: SeqNum)
    requires Uncut(st) && st.slots.Keys == {a, b} && st.size == 1024 && !st.cleared
    requires a == 64535 && b == 65535 && d == 32768
    ensures InsertPacket(st, Begin(d)).0.window == UpdateMissing(st.window, d)
    ensures KeepsPace(st, Insert(Begin(d))) <==> !HalfSpaceJump(st.window, d)
  {
    hide UpdateMissing, HalfSpaceJump, InsertPacket, Valid;
    BeginStep(st, d);
  }

  const STALE_RUN := [Insert(Begin(64535)), Insert(Begin(65535)), Padding(0)]

  lemma StaleRunInSteps()
    ensures STALE_RUN == [Insert(Begin(64535))] + ([Insert(Begin(65535))] + [Padding(0)])
  {
  }

  /** After packets 64535 and 65535, padding 0 and packet 32768, number 64536 is still recorded as
      missing, 33768 behind the newest one. */
  lemma StaleNumberStays()
    ensures Uncut(Init(1024, 1024)) && SafeRun(Init(1024, 1024), STALE_RUN)
    ensures var st := Execute(Init(1024, 1024), STALE_RUN).state;
            && Uncut(st) && !KeepsPace(st, Insert(Begin(32768)))
            && var w := InsertPacket(st, Begin(32768)).0.window;
               w.newest == Some(32768) && 64536 in w.missing && ForwardDiff(64536, 32768) == 33768 && !InWindow(w)
  {
    hide Step, Execute, SafeRun, Safe, InsertPacket, ClearTo, UpdateMissing, Placed, Plain, Closed, NoneH264, Sound, Init, KeepsPace, InWindow,
         Exact, AheadOf, Plus;
    StaleRunInSteps();
    var st := Init(1024, 1024);
    FirstBegun(st, 64535);
    var st1 := Step(st, Insert(Begin(64535))).0;
    SecondBegun(st1, 64535, 65535);
    var st2 := Step(st1, Insert(Begin(65535))).0;
    Padded(st2, 0);
    RunOfOne(st2, Padding(0));
    RunOf(st1, Insert(Begin(65535)), [Padding(0)]);
    RunOf(st, Insert(Begin(64535)), [Insert(Begin(65535))] + [Padding(0)]);
    JumpIsHalfSpace(st1.window, 64535, 65535, 0);
    var st3 := Step(st2, Padding(0)).0;
    JumpKeepsStale(st3.window, 0, 32768);
    JumpStep(st3, 64535, 65535, 32768);
  }

  lemma JumpIsHalfSpace(w: Window, a: SeqNum, b: SeqNum, c: SeqNum)
    requires w == Window(Some(a), []) && a == 64535 && b == 65535 && c == 0
    ensures var w' := UpdateMissing(UpdateMissing(w, b), c);
            && InWindow(w') && HalfSpaceJump(w', 32768) && w'.newest == Some(c)
            && w'.missing[0] == Plus(c, -MAX_PADDING_AGE)
  {
    WindowBeforeJump(w, a, b, c);
    hide UpdateMissing, InWindow, HalfSpaceJump;
  }

  // ----- ClearTo splits a frame

  const SPLIT_RUN := [Insert(Begin(10)), Insert(Middle(11, 10))]

  lemma FrameBegun(st: State, a: SeqNum)
    requires st == Init(1024, 1024) && a == 10
    ensures Uncut(st) && Safe(st, Insert(Begin(a))) && Uncut(Step(st, Insert(Begin(a))).0)
    ensures var st' := Step(st, Insert(Begin(a))).0;
            && st'.received && !st'.cleared && st'.first == a && st'.size == 1024
            && st'.slots == map[a := Begin(a).(continuous := true)]
  {
    InitIsUncut(st);
    BeginStep(st, a);
    StepKeepsUncut(st, Insert(Begin(a)));
  }

  lemma FrameContinued(st: State, a: SeqNum, b: SeqNum)
    requires Uncut(st) && a == 10 && b == 11
    requires st.received && !st.cleared && st.first == a && st.size == 1024
    requires st.slots == map[a := Begin(a).(continuous := true)]
    ensures Safe(st, Insert(Middle(b, a))) && Uncut(Step(st, Insert(Middle(b, a))).0)
    ensures var st' := Step(st, Insert(Middle(b, a))).0;
            && st'.received && !st'.cleared && st'.first == a && st'.size == 1024
            && st'.slots == map[a := Begin(a).(continuous := true), b := Middle(b, a).(continuous := true)]
  {
    hide Spaced, Keyed, Plain, Closed, NoneH264, Sound, PowerOfTwo, Step;
    MiddleStep(st, b, a);
    StepKeepsUncut(st, Insert(Middle(b, a)));
  }

  lemma SplitRunInSteps()
    ensures SPLIT_RUN == [Insert(Begin(10))] + [Insert(Middle(11, 10))]
  {
  }

  /** With packets 10 and 11 of an unfinished frame stored, ClearTo(10) leaves packet 11 marked continuous
      without the packet before it. */
  lemma ClearToSplitsFrame()
    ensures Uncut(Init(1024, 1024)) && SafeRun(Init(1024, 1024), SPLIT_RUN)
    ensures var st := Execute(Init(1024, 1024), SPLIT_RUN).state;
            && Uncut(st)
            && var st' := ClearTo(st, 10);
               10 !in st'.slots && 11 in st'.slots && st'.slots[11].continuous && !st'.slots[11].isFirst && !Uncut(st')
  {
    hide Step, Execute, SafeRun, Safe, InsertPacket, ClearTo, UpdateMissing, Placed, Plain, Closed, NoneH264, Sound, Init, KeepsPace, InWindow,
         Exact, AheadOf, Plus;
    SplitRunInSteps();
    var st := Init(1024, 1024);
    FrameBegun(st, 10);
    var st1 := Step(st, Insert(Begin(10))).0;
    FrameContinued(st1, 10, 11);
    RunOfOne(st1, Insert(Middle(11, 10)));
    RunOf(st, Insert(Begin(10)), [Insert(Middle(11, 10))]);
    SplitStep(Execute(st, SPLIT_RUN).state, 10, 11);
  }

  lemma SplitStep(st: State, a: SeqNum, b: SeqNum)
    requires Uncut(st) && st.received && !st.cleared && st.first == a && st.size == 1024 && a == 10 && b == 11
    requires st.slots == map[a := Begin(a).(continuous := true), b := Middle(b, a).(continuous := true)]
    ensures var st' := ClearTo(st, a);
            a !in st'.slots && b in st'.slots && st'.slots[b].continuous && !st'.slots[b].isFirst && !Uncut(st')
  {
    hide Spaced, Keyed, Plain, Closed, NoneH264, Sound, PowerOfTwo, Slot, SplitsFrame;
    assert Exact(st, a) by {
      ClearToExact(st, a);
    }
    ClearToSplitsOnlyAtBoundary(st, a);
    ClearToKeepsValid(st, a);
    ClearToRemoves(st, a, a);
    ClearToRemoves(st, a, b);
  }

  // ----- a packet taken for the oldest wrongly

  const MISS_RUN := [Insert(Whole(0)), Insert(Begin(20000)), Insert(Begin(33000))]

  /** Packet 0 is handed out and stays `first_seq_num_`. */
  lemma FirstHandedOut(st: State, a: SeqNum)
    requires st == Init(1024, 1024) && a == 0
    ensures Uncut(st) && Safe(st, Insert(Whole(a))) && Uncut(Step(st, Insert(Whole(a))).0)
    ensures var st' := Step(st, Insert(Whole(a))).0;
            st'.received && !st'.cleared && st'.first == a && st'.size == 1024 && st'.slots == map[]
  {
    InitIsUncut(st);
    WholeStep(st, a);
    StepKeepsUncut(st, Insert(Whole(a)));
  }

  lemma SecondStored(st: State, a: SeqNum, b: SeqNum)
    requires Uncut(st) && a == 0 && b == 20000
    requires st.received && !st.cleared && st.first == a && st.size == 1024 && st.slots == map[]
    ensures Safe(st, Insert(Begin(b))) && Uncut(Step(st, Insert(Begin(b))).0)
    ensures var st' := Step(st, Insert(Begin(b))).0;
            && st'.received && !st'.cleared && st'.first == a && st'.size == 1024
            && st'.slots == map[b := Begin(b).(continuous := true)]
  {
    hide Spaced, Keyed, Plain, Closed, NoneH264, Sound, PowerOfTwo, Step;
    BeginStep(st, b);
    StepKeepsUncut(st, Insert(Begin(b)));
  }

  /** Packet 33000 is taken to be older than packet 0. */
  lemma ThirdTakenForOldest(st: State, a: SeqNum, b: SeqNum, c: SeqNum)
    requires Uncut(st) && a == 0 && b == 20000 && c == 33000
    requires st.received && !st.cleared && st.first == a && st.size == 1024
    requires st.slots == map[b := Begin(b).(continuous := true)]
    ensures Safe(st, Insert(Begin(c))) && Uncut(Step(st, Insert(Begin(c))).0)
    ensures var st' := Step(st, Insert(Begin(c))).0;
            && st'.received && !st'.cleared && st'.first == c && st'.size == 1024
            && st'.slots == map[b := Begin(b).(continuous := true), c := Begin(c).(continuous := true)]
  {
    hide Spaced, Keyed, Plain, Closed, NoneH264, Sound, PowerOfTwo, Step;
    BeginStep(st, c);
    StepKeepsUncut(st, Insert(Begin(c)));
  }

  lemma MissRunInSteps()
    ensures MISS_RUN == [Insert(Whole(0))] + ([Insert(Begin(20000))] + [Insert(Begin(33000))])
  {
  }

  /** ClearTo(33000) then visits a single slot and leaves packet 20000 stored behind 33001. */
  lemma ClearToLeavesPacket()
    ensures Uncut(Init(1024, 1024)) && SafeRun(Init(1024, 1024), MISS_RUN)
    ensures var st := Execute(Init(1024, 1024), MISS_RUN).state;
            && Uncut(st) && st.slots.Keys == {20000, 33000} && st.first == 33000
            && Safe(st, ClearUpTo(33000)) && 0 < st.size && !Exact(st, 33000)
            && var st' := ClearTo(st, 33000);
               20000 in st'.slots && AheadOf(Plus(33000, 1), 20000)
  {
    hide Step, Execute, SafeRun, Safe, InsertPacket, ClearTo, UpdateMissing, Placed, Plain, Closed, NoneH264, Sound, Init, KeepsPace, InWindow,
         Exact, AheadOf, Plus;
    MissRunInSteps();
    var st := Init(1024, 1024);
    FirstHandedOut(st, 0);
    var st1 := Step(st, Insert(Whole(0))).0;
    SecondStored(st1, 0, 20000);
    var st2 := Step(st1, Insert(Begin(20000))).0;
    ThirdTakenForOldest(st2, 0, 20000, 33000);
    RunOfOne(st2, Insert(Begin(33000)));
    RunOf(st1, Insert(Begin(20000)), [Insert(Begin(33000))]);
    RunOf(st, Insert(Whole(0)), [Insert(Begin(20000))] + [Insert(Begin(33000))]);
    MissStep(Execute(st, MISS_RUN).state, 20000, 33000);
  }

  lemma MissStep(st: State, b: SeqNum, c: SeqNum)
    requires Uncut(st) && st.received && !st.cleared && st.first == c && st.size == 1024 && b == 20000 && c == 33000
    requires st.slots == map[b := Begin(b).(continuous := true), c := Begin(c).(continuous := true)]
    ensures Safe(st, ClearUpTo(c)) && !Exact(st, c) && b in ClearTo(st, c).slots && AheadOf(Plus(c, 1), b)
  {
    SlotIsModulo(b, 1024);
    SlotIsModulo(c, 1024);
    hide Spaced, Keyed, Plain, Closed, NoneH264, Sound, PowerOfTwo, Slot;
    assert Missed(st, c, b);
    ClearToExact(st, c);
    ClearToRemoves(st, c, b);
    assert !SplitsFrame(st.slots, ClearedKeys(st, c));
  }
}
