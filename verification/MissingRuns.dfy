/** What the packet buffer takes for missing, over every run, from what was inserted, handed out and cleared; and that an H.264
    delta frame which is all stored is handed out exactly when nothing before it is still to come. */
module MissingRuns {
  import opened SequenceNumbers
  import opened RingArithmetic
  import opened OrderedNumbers
  import opened MissingPackets
  import opened MissingHistory
  import opened PacketRing
  import opened RingSearch
  import opened SearchAgrees
  import opened H264Search
  import Model = PacketBufferModel
  import opened PacketBufferRuns

  type State = Model.State

  // ----- the record of a search

  lemma HandedEndsIn(ring: Ring, missing: seq<SeqNum>, s: SeqNum, needsParameterSets: bool)
    requires |ring| <= 65536 && Potential(ring, s)
    ensures var r := Iterate(ring, missing, s, needsParameterSets);
            r.Hands? ==> r.frame[|r.frame| - 1].seqNum == s
  {
    MarkShrinks(ring, s);
    var m := Marked(ring, s);
    if At(m, s).value.isLast {
      if At(m, s).value.h264 {
        var w := WalkFrom(m, s, needsParameterSets);
        if w.Start? {
          EndsInLast(m, missing, w.seqNum, s, w.seen);
        }
      } else {
        var w := FirstFrom(m, s);
        if w.Begins? {
          HandOutEndsIn(m, w.seqNum, s);
        }
      }
    }
  }

  lemma HandOutEndsIn(ring: Ring, start: SeqNum, s: SeqNum)
    requires InPlace(ring, s) && forall j: nat | j <= ForwardDiff(start, s) :: At(ring, Plus(start, j)).Some?
    ensures var f := HandOut(ring, start, s).frame; f[|f| - 1].seqNum == s
  {
    PlusForwardDiff(start, s);
    hide Without, Plus, ForwardDiff, Slot;
  }

  /** The search erases up to the last number of each frame it hands out, and nothing else. */
  lemma {:induction false} SearchErases(ring: Ring, missing: seq<SeqNum>, s: SeqNum, n: nat, needsParameterSets: bool)
    requires |ring| <= 65536
    ensures var r := Search(ring, missing, s, n, needsParameterSets); r.missing == EraseFrames(missing, r.frames)
    decreases n
  {
    hide Iterate, Potential, EraseCompleted;
    if n != 0 && Potential(ring, s) {
      HandedEndsIn(ring, missing, s, needsParameterSets);
      var r := Iterate(ring, missing, s, needsParameterSets);
      if r.GoesOn? {
        SearchErases(r.ring, missing, Plus(s, 1), n - 1, needsParameterSets);
      } else if r.Hands? {
        SearchErases(r.ring, EraseCompleted(missing, s), Plus(s, 1), n - 1, needsParameterSets);
        FirstFrameErased(missing, r.frame, Search(r.ring, EraseCompleted(missing, s), Plus(s, 1), n - 1, needsParameterSets).frames);
      }
    }
  }

  // ----- what an operation adds to the history

  /** A frame is completed with its last packet. */
  function Completions(frames: seq<Frame>): Log {
    if frames == [] then []
    else (if frames[0] == [] then [] else [Completes(frames[0][|frames[0]| - 1].seqNum)]) + Completions(frames[1..])
  }

  /** A packet that finds its place arrives, and so does padding; frames handed out are completed; clearing and overflow make the
      buffer forget. */
  ghost function Notes(st: State, op: Op): Log
    requires Model.Placed(st)
  {
    var out := Step(st, op).1;
    match op
    case Insert(p) =>
      if Model.Stores(st, p.seqNum) then [Arrives(p.seqNum)] + Completions(out.frames)
      else if out.bufferCleared then [Forgets]
      else []
    case Padding(s) => [Arrives(s)] + Completions(out.frames)
    case Clear => [Forgets]
    case ClearUpTo(s) => if Model.ClearToIgnored(st, s) then [] else [ClearsTo(Plus(s, 1))]
  }

  ghost function HistoryOf(st: State, ops: seq<Op>): Log
    requires Model.Placed(st)
    decreases |ops|
  {
    if ops == [] then []
    else
      StepKeepsPlaced(st, ops[0]);
      Notes(st, ops[0]) + HistoryOf(Step(st, ops[0]).0, ops[1..])
  }

  lemma RecordedOfMore(log: Log, note: Note)
    ensures Recorded(log + [note]) == Noted(Recorded(log), note)
  {
    assert (log + [note])[..|log|] == log;
  }

  lemma {:induction false} RecordedOfCompletions(log: Log, frames: seq<Frame>)
    ensures Recorded(log + Completions(frames)) == Recorded(log).(missing := EraseFrames(Recorded(log).missing, frames))
    decreases |frames|
  {
    hide EraseCompleted, Recorded;
    if frames == [] {
      assert log + [] == log;
    } else if frames[0] == [] {
      assert [] + Completions(frames[1..]) == Completions(frames[1..]);
      RecordedOfCompletions(log, frames[1..]);
    } else {
      var note := Completes(frames[0][|frames[0]| - 1].seqNum);
      RecordedOfMore(log, note);
      RecordedOfCompletions(log + [note], frames[1..]);
      assert log + Completions(frames) == (log + [note]) + Completions(frames[1..]);
    }
  }

  /** What an arrival and the search behind it do to the record. */
  lemma ArrivalIsRecorded(log: Log, s: SeqNum, frames: seq<Frame>)
    ensures var w := UpdateMissing(Recorded(log), s);
            Recorded(log + ([Arrives(s)] + Completions(frames))) == w.(missing := EraseFrames(w.missing, frames))
  {
    hide Recorded, UpdateMissing, EraseFrames, Completions;
    RecordedOfMore(log, Arrives(s));
    RecordedOfCompletions(log + [Arrives(s)], frames);
    assert log + ([Arrives(s)] + Completions(frames)) == (log + [Arrives(s)]) + Completions(frames);
  }

  lemma StepIsRecorded(st: State, op: Op, log: Log)
    requires Model.Placed(st) && st.window == Recorded(log)
    ensures Step(st, op).0.window == Recorded(log + Notes(st, op))
  {
    hide Recorded, UpdateMissing, EraseFrames, Completions, Search, EraseCleared, RingOf, StoredIn, Spaced, Keyed, Model.Occupied, Model.Grow;
    PowerOfTwoBounds(st.size);
    assert log + [] == log;
    match op
    case Insert(p) =>
      Model.InsertPacketCases(st, p);
      if Model.Stores(st, p.seqNum) {
        Model.InsertionSearches(st, p);
        var st1 := Model.Stored(st, p);
        PowerOfTwoBounds(st1.size);
        SearchErases(RingOf(st1.slots, st1.size), st1.window.missing, p.seqNum, st1.size, st.needsParameterSets);
        ArrivalIsRecorded(log, p.seqNum, Model.InsertPacket(st, p).1.frames);
      } else {
        RecordedOfMore(log, Forgets);
      }
    case Padding(s) =>
      SearchErases(RingOf(st.slots, st.size), UpdateMissing(st.window, s).missing, Plus(s, 1), st.size, st.needsParameterSets);
      ArrivalIsRecorded(log, s, Model.InsertPadding(st, s).1.frames);
    case Clear => RecordedOfMore(log, Forgets);
    case ClearUpTo(s) => RecordedOfMore(log, ClearsTo(Plus(s, 1)));
  }

  lemma {:induction false} RunIsRecorded(st: State, ops: seq<Op>, log: Log)
    requires Model.Placed(st) && st.window == Recorded(log)
    ensures Execute(st, ops).state.window == Recorded(log + HistoryOf(st, ops))
    decreases |ops|
  {
    hide Model.Placed, Step, Recorded, Notes, Accepted, Discarded;
    if ops == [] {
      assert log + [] == log;
    } else {
      StepKeepsPlaced(st, ops[0]);
      StepIsRecorded(st, ops[0], log);
      RunIsRecorded(Step(st, ops[0]).0, ops[1..], log + Notes(st, ops[0]));
      var rest := HistoryOf(Step(st, ops[0]).0, ops[1..]);
      assert log + (Notes(st, ops[0]) + rest) == (log + Notes(st, ops[0])) + rest;
    }
  }

  /** Over every run from an empty buffer without the half-space jump a number is taken for missing exactly if it is 1 to 1000
      behind the newest one, was jumped over, and has since neither arrived nor been given up with a completed frame or a
      call of `ClearTo`. */
  lemma RunMissesWhatIsStillToCome(size: nat, maxSize: nat, ops: seq<Op>)
    requires Model.ValidSizes(size, maxSize) && Model.Placed(Model.Init(size, maxSize))
    requires Paced(HistoryOf(Model.Init(size, maxSize), ops))
    ensures var w, log := Execute(Model.Init(size, maxSize), ops).state.window, HistoryOf(Model.Init(size, maxSize), ops);
            && w.newest == Newest(log) && InWindow(w)
            && forall e: SeqNum :: e in w.missing <==> StillToCome(log, e)
  {
    hide Recorded, Execute, HistoryOf, Paced, StillToCome, InWindow, Model.Placed;
    var st, log := Model.Init(size, maxSize), HistoryOf(Model.Init(size, maxSize), ops);
    StartsUnrecorded(size, maxSize);
    RunIsRecorded(st, ops, []);
    assert [] + log == log;
    RecordedIsStillToCome(log);
    hide Awaited;
  }

  lemma StartsUnrecorded(size: nat, maxSize: nat)
    ensures Model.Init(size, maxSize).window == Recorded([])
  {
  }

  // ----- when a frame is handed out

  /** No header of a packet of that time stops the walk. */
  ghost predicate Usable(ring: Ring, timestamp: int) {
    forall i | 0 <= i < |ring| && ring[i].Some? && ring[i].value.timestamp == timestamp :: ring[i].value.nalus.Some?
  }

  lemma {:induction false} WalkGoesOn(ring: Ring, s: SeqNum, timestamp: int, tested: nat, seen: Seen, needsParameterSets: bool)
    requires |ring| <= 65536 && tested < |ring| && At(ring, s).Some? && At(ring, s).value.timestamp == timestamp
    requires Usable(ring, timestamp)
    ensures WalkBack(ring, s, timestamp, tested, seen, needsParameterSets).Start?
    decreases |ring| - tested
  {
    var p, before := At(ring, s).value, Plus(s, -1);
    WalkOnce(ring, s, timestamp, tested, seen, needsParameterSets);
    assert p.nalus.Some?;
    hide WalkBack, Absorb, Usable, Plus;
    if !(tested + 1 == |ring| || At(ring, before).None? || At(ring, before).value.timestamp != timestamp) {
      WalkGoesOn(ring, before, timestamp, tested + 1, Absorb(seen, p, p.nalus.value, needsParameterSets), needsParameterSets);
    }
  }

  lemma MarkedUsable(ring: Ring, s: SeqNum, timestamp: int)
    requires InPlace(ring, s) && Usable(ring, timestamp)
    ensures Usable(Marked(ring, s), timestamp)
    ensures forall u, t :: CarriesUnit(Marked(ring, s), t, u) <==> CarriesUnit(ring, t, u)
  {
  }

  /** All packets of the frame from `b` to `e` are stored, under usable headers, and there are no others of its time. */
  ghost predicate WhollyStored(ring: Ring, b: SeqNum, e: SeqNum) {
    && At(ring, e).Some? && At(ring, e).value.h264 && At(ring, e).value.isLast
    && FrameOfSender(ring, b, e, At(ring, e).value.timestamp) && AllStored(ring, b, e) && Usable(ring, At(ring, e).value.timestamp)
  }

  /** The packets from `b` to `e` have a key picture, and parameter sets where they are asked for. */
  ghost predicate KeyStored(ring: Ring, b: SeqNum, e: SeqNum, needsParameterSets: bool) {
    var n := ForwardDiff(b, e) + 1;
    MakesKey(SeesUnit(ring, b, n, Sps), SeesUnit(ring, b, n, Pps), SeesUnit(ring, b, n, Idr), needsParameterSets)
  }

  lemma WholeWalk(ring: Ring, b: SeqNum, e: SeqNum, needsParameterSets: bool)
    requires ValidRing(ring) && Potential(ring, e) && WhollyStored(ring, b, e)
    ensures At(Marked(ring, e), e).Some?
    ensures var w := WalkFrom(Marked(ring, e), e, needsParameterSets);
            w.Start? && w.seqNum == b && (w.seen.key <==> KeyStored(ring, b, e, needsParameterSets))
  {
    var m, timestamp := Marked(ring, e), At(ring, e).value.timestamp;
    MarkShrinks(ring, e);
    MarkedAlike(ring, e);
    MarkedUsable(ring, e, timestamp);
    assert At(m, e).value.timestamp == timestamp;
    WalkGoesOn(m, e, timestamp, 0, NOTHING_SEEN, needsParameterSets);
    WalkStarts(m, e, needsParameterSets);
    hide Slot, FrameOfSender, AllStored, ForeignBehind, Usable, WalkBack, WalkFrom, Addressed, PowerOfTwo;
    NothingForeignInFrame(ring, b, e, timestamp);
    WalkReachesFirst(ring, b, e, needsParameterSets);
    WalkFromSees(m, e, needsParameterSets);
    hide Marked;
  }

  lemma WalkStarts(ring: Ring, s: SeqNum, needsParameterSets: bool)
    requires |ring| <= 65536 && At(ring, s).Some?
    ensures WalkFrom(ring, s, needsParameterSets) == WalkBack(ring, s, At(ring, s).value.timestamp, 0, NOTHING_SEEN, needsParameterSets)
  {
  }

  /** The search hands out a frame that is all stored exactly if it is a keyframe or the oldest missing number is ahead of its
      first packet. */
  lemma WholeFrameIsHandedOut(ring: Ring, missing: seq<SeqNum>, b: SeqNum, e: SeqNum, needsParameterSets: bool)
    requires ValidRing(ring) && Potential(ring, e) && WhollyStored(ring, b, e)
    ensures var r := Iterate(ring, missing, e, needsParameterSets);
            if KeyStored(ring, b, e, needsParameterSets) || missing == [] || AheadOf(missing[0], b)
            then r.Hands? && IsWholeFrame(r.frame) && r.frame[0].seqNum == b
            else r.Stops?
  {
    MarkShrinks(ring, e);
    WholeWalk(ring, b, e, needsParameterSets);
    assert (missing == [] || AheadOf(missing[0], b)) <==> UpperBound(65536, missing, b) == 0;
    assert At(Marked(ring, e), e).value.isLast && At(Marked(ring, e), e).value.h264;
    hide KeyStored, Slot, AllStored, Usable, WalkFrom, IsWholeFrame, UpperBound, FrameOfSender, Marked, Addressed, PowerOfTwo;
    HandsOutFrameIff(ring, missing, b, e, needsParameterSets);
  }

  /** Nothing still to come is passed by `b`: where `b` is at or behind the newest number, everything is ahead of it. */
  ghost predicate NothingBefore(log: Log, b: SeqNum) {
    forall e: SeqNum | StillToCome(log, e) :: !Passed(log, b, e)
  }

  lemma NothingBeforeMeans(log: Log, b: SeqNum)
    requires Newest(log).Some? && AheadOrAt(Newest(log).value, b)
    ensures NothingBefore(log, b) <==> forall e: SeqNum | StillToCome(log, e) :: AheadOf(e, b)
  {
    hide StillToCome, Passed, AheadOf;
    forall e: SeqNum | StillToCome(log, e) ensures Passed(log, b, e) <==> !AheadOf(e, b) {
      PassedMeansNotAhead(log, b, e);
    }
  }

  lemma OldestIsAhead(w: Window, log: Log, b: SeqNum)
    requires Agrees(w, log)
    ensures w.missing == [] || AheadOf(w.missing[0], b) <==> NothingBefore(log, b)
  {
    assert (w.missing == [] || AheadOf(w.missing[0], b)) <==> UpperBound(65536, w.missing, b) == 0;
    hide StillToCome, Passed, AheadOf, InWindow, UpperBound, Awaited;
    if UpperBound(65536, w.missing, b) == 0 {
      forall e: SeqNum | StillToCome(log, e) ensures !Passed(log, b, e) {
        assert e in w.missing;
        var i: nat :| i < |w.missing| && w.missing[i] == e;
        PassedIff(w, log, b, i);
      }
    } else {
      PassedIff(w, log, b, 0);
      assert w.missing[0] in w.missing;
    }
  }

  /** The packet finds its place and ends a frame that then is all stored, from `b` on. */
  ghost predicate CompletesFrom(st: State, p: Packet, b: SeqNum) {
    && Model.Placed(st) && Model.Stores(st, p.seqNum)
    && var st1 := Model.Stored(st, p);
       && 0 < st1.size <= 65536
       && var ring := RingOf(st1.slots, st1.size);
          Potential(ring, p.seqNum) && WhollyStored(ring, b, p.seqNum)
  }

  ghost predicate IsKeyframe(st: State, p: Packet, b: SeqNum)
    requires CompletesFrom(st, p, b)
  {
    KeyStored(RingOf(Model.Stored(st, p).slots, Model.Stored(st, p).size), b, p.seqNum, st.needsParameterSets)
  }

  /** The first frame that is handed out is the one from `b` to `e`. */
  ghost predicate HandsOutFrom(frames: seq<Frame>, b: SeqNum, e: SeqNum) {
    && frames != [] && IsWholeFrame(frames[0]) && frames[0][0].seqNum == b
    && frames[0][|frames[0]| - 1].seqNum == e
  }

  lemma FirstIteration(ring: Ring, missing: seq<SeqNum>, s: SeqNum, n: nat, needsParameterSets: bool)
    requires 0 < n && |ring| <= 65536 && Potential(ring, s)
    ensures var r, frames := Iterate(ring, missing, s, needsParameterSets), Search(ring, missing, s, n, needsParameterSets).frames;
            && (r.Stops? ==> frames == [])
            && (r.Hands? ==> frames != [] && frames[0] == r.frame && r.frame[|r.frame| - 1].seqNum == s)
  {
    HandedEndsIn(ring, missing, s, needsParameterSets);
    hide Iterate, Potential, EraseCompleted;
  }

  lemma CompletedFrameWaits(st: State, p: Packet, b: SeqNum, log: Log)
    requires CompletesFrom(st, p, b) && Agrees(st.window, log) && !HalfSpace(log, p.seqNum)
    ensures var frames := Model.InsertPacket(st, p).1.frames;
            if IsKeyframe(st, p, b) || NothingBefore(log + [Arrives(p.seqNum)], b) then HandsOutFrom(frames, b, p.seqNum) else frames == []
  {
    hide RingOf, StoredIn, Spaced, Keyed, Model.Occupied, Model.Grow, UpdateMissing, Potential, WhollyStored, KeyStored, IsWholeFrame, Agrees,
      HalfSpace, NothingBefore, Search, Model.InsertPacket, PowerOfTwo, Addressed;
    var st1, more := Model.Stored(st, p), log + [Arrives(p.seqNum)];
    var ring, missing := RingOf(st1.slots, st1.size), UpdateMissing(st.window, p.seqNum).missing;
    Model.InsertionSearches(st, p);
    Model.StoredIsPlaced(st, p);
    RingOfIsRing(st1.slots, st1.size);
    NotedAgrees(st.window, log, Arrives(p.seqNum));
    OldestIsAhead(UpdateMissing(st.window, p.seqNum), more, b);
    WholeFrameIsHandedOut(ring, missing, b, p.seqNum, st.needsParameterSets);
    FirstIteration(ring, missing, p.seqNum, st1.size, st.needsParameterSets);
  }

  lemma {:induction false} PacedPrefix(log: Log, note: Note)
    requires Paced(log + [note])
    ensures Paced(log) && (note.Arrives? ==> !HalfSpace(log, note.seqNum))
  {
    var more := log + [note];
    PacedBefore(more);
    assert more[..|more| - 1] == log && more[|more| - 1] == note;
  }

  /** After every run without the half-space jump: where its last packet completes an H.264 frame, all of which is then stored,
      a keyframe is handed out at once, and a delta frame exactly if nothing at or before its first packet is still to come. */
  lemma DeltaFrameWaitsForMissing(size: nat, maxSize: nat, ops: seq<Op>, p: Packet, b: SeqNum)
    requires Model.ValidSizes(size, maxSize) && Model.Placed(Model.Init(size, maxSize))
    requires Paced(HistoryOf(Model.Init(size, maxSize), ops) + [Arrives(p.seqNum)])
    requires CompletesFrom(Execute(Model.Init(size, maxSize), ops).state, p, b)
    ensures var st, log := Execute(Model.Init(size, maxSize), ops).state, HistoryOf(Model.Init(size, maxSize), ops);
            var frames := Model.InsertPacket(st, p).1.frames;
            if IsKeyframe(st, p, b) || NothingBefore(log + [Arrives(p.seqNum)], b) then HandsOutFrom(frames, b, p.seqNum) else frames == []
  {
    hide Recorded, Execute, HistoryOf, Paced, CompletesFrom, IsKeyframe, NothingBefore, HandsOutFrom, HalfSpace, Agrees, Model.InsertPacket;
    var init, log := Model.Init(size, maxSize), HistoryOf(Model.Init(size, maxSize), ops);
    PacedPrefix(log, Arrives(p.seqNum));
    StartsUnrecorded(size, maxSize);
    RunIsRecorded(init, ops, []);
    assert [] + log == log;
    RecordedIsStillToCome(log);
    CompletedFrameWaits(Execute(init, ops).state, p, b, log);
  }
}
