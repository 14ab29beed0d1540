/** Groups as the packets they consist of: where a run of packets is cut into groups, when the cutting starts anew, and that
    inter_arrival_delta.cpp keeps and reports exactly these groups. */
module PacketGroups {
  import opened InterArrival
  import opened Options

  type Batch = b: seq<Packet> | b != [] witness [Packet(0, 0, 0, 0)]

  function TotalSize(packets: seq<Packet>): nat {
    if packets == [] then 0 else TotalSize(packets[..|packets| - 1]) + packets[|packets| - 1].size
  }

  function LatestSend(b: Batch): (t: int)
    ensures (forall p | p in b :: p.sendTime <= t) && exists p :: p in b && p.sendTime == t
  {
    var k := |b| - 1;
    if k == 0 then b[0].sendTime
    else
      var t := LatestSend(b[..k]);
      assert b == b[..k] + [b[k]];
      if b[k].sendTime > t then b[k].sendTime else t
  }

  function LastArrival(b: Batch): int {
    b[|b| - 1].arrivalTime
  }

  // ----- where a group ends

  /** The packet catches up with the last one of the group: queueing delay shrinks, and it arrives at most 5 ms after that
      packet and less than 100 ms after the first one. */
  predicate InBurst(b: Batch, p: Packet) {
    && p.arrivalTime - LastArrival(b) < p.sendTime - LatestSend(b)
    && p.arrivalTime - LastArrival(b) <= 5
    && p.arrivalTime - b[0].arrivalTime < 100
  }

  /** The packet is not one of the group. */
  predicate CutBefore(b: Batch, p: Packet, groupLength: int) {
    && p.sendTime != LatestSend(b)
    && p.sendTime - b[0].sendTime > groupLength
    && !InBurst(b, p)
  }

  /** Between the last packets of two groups the arrival times moved 3 s or more further than the local clock did. */
  predicate ClockJump(a: Batch, b: Batch) {
    (LastArrival(b) - LastArrival(a)) - (b[|b| - 1].systemTime - a[|a| - 1].systemTime) >= 3000
  }

  /** What becomes of a packet: it is ignored, joins the group, opens the next one, finds that group to have arrived before the
      one before it and is ignored for that, or makes the grouping start anew. */
  datatype Fate = Ignored | Joins | Opens | Held | StartsAnew

  /** `batches` are the groups since the start, the last one still open; `held` packets have been held at its end. */
  function FateOf(batches: seq<Batch>, held: nat, p: Packet, groupLength: int): Fate {
    if batches == [] then Opens
    else
      var b := batches[|batches| - 1];
      if p.sendTime < b[0].sendTime then Ignored
      else if !CutBefore(b, p, groupLength) then Joins
      else if |batches| == 1 then Opens
      else
        var a := batches[|batches| - 2];
        if ClockJump(a, b) then StartsAnew
        else if LastArrival(b) < LastArrival(a) then (if held == 2 then StartsAnew else Held)
        else Opens
  }

  /** The groups of earlier stretches, those of this one, and how many packets were held since one last opened a group. */
  datatype Course = Course(past: seq<seq<Batch>>, batches: seq<Batch>, held: nat)

  function Follow(course: Course, p: Packet, groupLength: int): Course {
    var batches := course.batches;
    match FateOf(batches, course.held, p, groupLength)
    case Ignored => course
    case Held => course.(held := course.held + 1)
    case StartsAnew => Course(course.past + [batches], [], 0)
    case Opens => course.(batches := batches + [[p]], held := 0)
    case Joins =>
      if batches == [] then course
      else course.(batches := batches[..|batches| - 1] + [batches[|batches| - 1] + [p]])
  }

  function CourseOf(packets: seq<Packet>, groupLength: int): Course {
    if packets == [] then Course([], [], 0)
    else Follow(CourseOf(packets[..|packets| - 1], groupLength), packets[|packets| - 1], groupLength)
  }

  // ----- the groups that are kept

  /** What the packets of a group amount to. */
  function Summary(b: Batch): Group {
    Group(TotalSize(b), b[0].sendTime, LatestSend(b), b[0].arrivalTime, LastArrival(b), b[|b| - 1].systemTime)
  }

  function Summaries(batches: seq<Batch>): (r: seq<Group>)
    ensures |r| == |batches| && forall i | 0 <= i < |r| :: r[i] == Summary(batches[i])
  {
    if batches == [] then [] else Summaries(batches[..|batches| - 1]) + [Summary(batches[|batches| - 1])]
  }

  /** The groups of a stretch that are complete. */
  function Complete(batches: seq<Batch>): seq<Batch> {
    if batches == [] then [] else batches[..|batches| - 1]
  }

  function PastGroups(past: seq<seq<Batch>>): seq<seq<Group>> {
    if past == [] then [] else PastGroups(past[..|past| - 1]) + [Summaries(Complete(past[|past| - 1]))]
  }

  /** The grouping is in the state that the groups amount to. */
  ghost predicate Keeps(st: State, course: Course) {
    var n := |course.batches|;
    && st.current == (if n == 0 then None else Some(Summary(course.batches[n - 1])))
    && st.previous == (if n < 2 then None else Some(Summary(course.batches[n - 2])))
    && st.reordered == course.held <= 2
    && (n < 2 ==> course.held == 0)
  }

  lemma SummaryOfOne(p: Packet)
    ensures Summary([p]) == Started(p)
  {
    assert [p][..0] == [] && TotalSize([p]) == TotalSize([p][..0]) + p.size;
  }

  lemma SummaryOfMore(b: Batch, p: Packet)
    ensures Summary(b + [p]) == Joined(Summary(b).(sendTime := Max(LatestSend(b), p.sendTime)), p)
  {
    assert (b + [p])[..|b|] == b;
  }

  lemma SameCut(b: Batch, p: Packet, groupLength: int)
    ensures NewTimestampGroup(Summary(b), p, groupLength) <==> CutBefore(b, p, groupLength)
  {
  }

  /** What the grouping does with a packet while it knows of no complete group. */
  lemma WithoutPrevious(st: State, b: Batch, p: Packet, groupLength: int)
    requires st.current == Some(Summary(b)) && st.previous == None
    ensures ComputeDeltas(st, p, groupLength) ==
            (if p.sendTime < b[0].sendTime then (st, None)
             else if !CutBefore(b, p, groupLength) then (st.(current := Some(Summary(b + [p]))), None)
             else (State(Some(Summary([p])), st.current, st.reordered), None))
  {
    SameCut(b, p, groupLength);
    SummaryOfOne(p);
    SummaryOfMore(b, p);
    hide CutBefore, NewTimestampGroup, Difference, LatestSend, TotalSize, Started, Joined;
  }

  /** And what when it knows of one. */
  lemma WithPrevious(st: State, a: Batch, b: Batch, p: Packet, groupLength: int)
    requires st.current == Some(Summary(b)) && st.previous == Some(Summary(a)) && st.reordered <= 2
    ensures ComputeDeltas(st, p, groupLength) ==
            (if p.sendTime < b[0].sendTime then (st, None)
             else if !CutBefore(b, p, groupLength) then (st.(current := Some(Summary(b + [p]))), None)
             else if ClockJump(a, b) then (INIT, None)
             else if LastArrival(b) < LastArrival(a) then
               (if st.reordered == 2 then INIT else st.(reordered := st.reordered + 1), None)
             else (State(Some(Summary([p])), st.current, 0), Some(Difference(Summary(a), Summary(b)))))
  {
    SameCut(b, p, groupLength);
    SummaryOfOne(p);
    SummaryOfMore(b, p);
    hide CutBefore, NewTimestampGroup, Difference, LatestSend, TotalSize, Started, Joined;
  }

  lemma LastOfJoined(batches: seq<Batch>, b: Batch)
    requires batches != []
    ensures var n, r := |batches|, batches[..|batches| - 1] + [b];
            |r| == n && r[n - 1] == b && (n >= 2 ==> r[n - 2] == batches[n - 2])
  {
  }

  /** One packet: the groups, and what is reported. */
  lemma FollowKeeps(st: State, course: Course, p: Packet, groupLength: int)
    requires Keeps(st, course)
    ensures var (st', deltas) := ComputeDeltas(st, p, groupLength);
            var batches, fate := course.batches, FateOf(course.batches, course.held, p, groupLength);
            && Keeps(st', Follow(course, p, groupLength))
            && deltas == (if fate == Opens && |batches| >= 2
                          then Some(Difference(Summary(batches[|batches| - 2]), Summary(batches[|batches| - 1]))) else None)
  {
    var batches := course.batches;
    hide Summary, CutBefore, Difference, ClockJump, LastArrival;
    if batches == [] {
      SummaryOfOne(p);
    } else {
      hide ComputeDeltas;
      var b := batches[|batches| - 1];
      LastOfJoined(batches, b + [p]);
      if |batches| == 1 {
        WithoutPrevious(st, b, p, groupLength);
      } else {
        WithPrevious(st, batches[|batches| - 2], b, p, groupLength);
      }
    }
  }

  lemma Fresh(p: Packet)
    ensures State(Some(Started(p)), None, 0) != INIT
  {
  }

  /** The call completes a group exactly if the packet opens the one after it, and goes back to the start exactly if it makes
      the grouping start anew. */
  lemma FateIsSeen(st: State, course: Course, p: Packet, groupLength: int)
    requires Keeps(st, course)
    ensures var fate := FateOf(course.batches, course.held, p, groupLength);
            && (Completes(st, p, groupLength) <==> fate == Opens && course.batches != [])
            && (ComputeDeltas(st, p, groupLength).0 == INIT && st != INIT <==> fate == StartsAnew)
  {
    var batches := course.batches;
    if batches == [] {
      SummaryOfOne(p);
    } else {
      var b := batches[|batches| - 1];
      SameCut(b, p, groupLength);
      CutIsLater(b, p, groupLength);
      SameFirstSend(b);
      SummaryOfOne(p);
      hide Summary, CutBefore, NewTimestampGroup, ComputeDeltas;
      if |batches| == 1 {
        WithoutPrevious(st, b, p, groupLength);
      } else {
        LaterFateIsSeen(st, course, p, groupLength);
      }
    }
  }

  lemma LaterFateIsSeen(st: State, course: Course, p: Packet, groupLength: int)
    requires Keeps(st, course) && |course.batches| >= 2
    ensures var fate := FateOf(course.batches, course.held, p, groupLength);
            && (Completes(st, p, groupLength) <==> fate == Opens)
            && (ComputeDeltas(st, p, groupLength).0 == INIT && st != INIT <==> fate == StartsAnew)
  {
    var batches := course.batches;
    hide Summary, CutBefore, ComputeDeltas, ClockJump, LastArrival, Completes;
    LaterCompletes(st, batches[|batches| - 2], batches[|batches| - 1], p, groupLength);
    LaterStartsAnew(st, batches[|batches| - 2], batches[|batches| - 1], p, groupLength);
  }

  lemma LaterCompletes(st: State, a: Batch, b: Batch, p: Packet, groupLength: int)
    requires st.current == Some(Summary(b)) && st.previous == Some(Summary(a)) && st.reordered <= 2
    ensures Completes(st, p, groupLength) <==>
              b[0].sendTime <= p.sendTime && CutBefore(b, p, groupLength) && !ClockJump(a, b) && LastArrival(a) <= LastArrival(b)
  {
    WithPrevious(st, a, b, p, groupLength);
    SameCut(b, p, groupLength);
    CutIsLater(b, p, groupLength);
    SameFirstSend(b);
    SummaryOfOne(p);
    hide Summary, CutBefore, ComputeDeltas, NewTimestampGroup, ClockJump, LastArrival, Difference, Started;
    assert Completes(st, p, groupLength) ==> ComputeDeltas(st, p, groupLength).0.previous == st.current;
  }

  lemma LaterStartsAnew(st: State, a: Batch, b: Batch, p: Packet, groupLength: int)
    requires st.current == Some(Summary(b)) && st.previous == Some(Summary(a)) && st.reordered <= 2
    ensures ComputeDeltas(st, p, groupLength).0 == INIT <==>
              && b[0].sendTime <= p.sendTime && CutBefore(b, p, groupLength)
              && (ClockJump(a, b) || (LastArrival(b) < LastArrival(a) && st.reordered == 2))
  {
    WithPrevious(st, a, b, p, groupLength);
    hide Summary, CutBefore, ComputeDeltas, ClockJump, LastArrival, Difference;
  }

  lemma SameFirstSend(b: Batch)
    ensures Summary(b).firstSendTime == b[0].sendTime
  {
  }

  lemma CutIsLater(b: Batch, p: Packet, groupLength: int)
    ensures Summary([p]) == Summary(b) ==> p.sendTime == b[0].sendTime == LatestSend(b)
    ensures CutBefore(b, p, groupLength) ==> Summary([p]) != Summary(b)
  {
    assert LatestSend([p]) == p.sendTime;
    hide LatestSend, TotalSize;
  }

  // ----- every run

  /** The packets that are in a group: all but those ignored, held, or lost where the grouping starts anew. */
  function Taken(packets: seq<Packet>, groupLength: int): seq<Packet> {
    if packets == [] then []
    else
      var k := |packets| - 1;
      var course := CourseOf(packets[..k], groupLength);
      var fate := FateOf(course.batches, course.held, packets[k], groupLength);
      Taken(packets[..k], groupLength) + if fate == Joins || fate == Opens then [packets[k]] else []
  }

  function Flat(batches: seq<Batch>): seq<Packet> {
    if batches == [] then [] else Flat(batches[..|batches| - 1]) + batches[|batches| - 1]
  }

  function FlatPast(past: seq<seq<Batch>>): seq<Packet> {
    if past == [] then [] else FlatPast(past[..|past| - 1]) + Flat(past[|past| - 1])
  }

  /** No packet of the group is sent before its first one, and none cuts it. */
  ghost predicate InOnePiece(b: Batch, groupLength: int) {
    forall k | 0 < k < |b| :: b[0].sendTime <= b[k].sendTime && !CutBefore(b[..k], b[k], groupLength)
  }

  /** Each group is cut exactly where it ends. */
  ghost predicate CutRightly(batches: seq<Batch>, groupLength: int) {
    && (forall b | b in batches :: InOnePiece(b, groupLength))
    && (forall i | 0 < i < |batches| :: CutBefore(batches[i - 1], batches[i][0], groupLength))
  }

  lemma JoinedInOnePiece(b: Batch, p: Packet, groupLength: int)
    requires InOnePiece(b, groupLength) && b[0].sendTime <= p.sendTime && !CutBefore(b, p, groupLength)
    ensures InOnePiece(b + [p], groupLength)
  {
    hide CutBefore;
    var b' := b + [p];
    assert b'[0] == b[0];
    forall k | 0 < k < |b'| ensures b'[0].sendTime <= b'[k].sendTime && !CutBefore(b'[..k], b'[k], groupLength) {
      assert b'[..k] == if k < |b| then b[..k] else b;
      assert b'[k] == if k < |b| then b[k] else p;
    }
  }

  lemma FollowCutsRightly(course: Course, p: Packet, groupLength: int)
    requires CutRightly(course.batches, groupLength)
    ensures CutRightly(Follow(course, p, groupLength).batches, groupLength)
  {
    hide CutBefore, InOnePiece;
    var batches := course.batches;
    match FateOf(batches, course.held, p, groupLength)
    case Joins =>
      if batches != [] {
        var b := batches[|batches| - 1];
        JoinedInOnePiece(b, p, groupLength);
        LastOfJoined(batches, b + [p]);
      }
    case Opens => LoneInOnePiece(p, groupLength);
    case _ =>
  }

  lemma LoneInOnePiece(p: Packet, groupLength: int)
    ensures InOnePiece([p], groupLength)
  {
  }

  lemma FollowFlattens(course: Course, p: Packet, groupLength: int)
    ensures var course', fate := Follow(course, p, groupLength), FateOf(course.batches, course.held, p, groupLength);
            FlatPast(course'.past) + Flat(course'.batches)
            == FlatPast(course.past) + Flat(course.batches) + (if fate == Joins || fate == Opens then [p] else [])
  {
    hide FateOf, Flat, FlatPast;
    var batches := course.batches;
    match FateOf(batches, course.held, p, groupLength)
    case Joins =>
      FatesOfNone(course.held, p, groupLength);
      var k := |batches| - 1;
      FlatOfMore(batches[..k], batches[k]);
      FlatOfMore(batches[..k], batches[k] + [p]);
      assert batches[..k] + [batches[k]] == batches;
    case Opens => FlatOfMore(batches, [p]);
    case StartsAnew => FlatPastOfMore(course.past, batches);
    case _ =>
  }

  lemma FatesOfNone(held: nat, p: Packet, groupLength: int)
    ensures FateOf([], held, p, groupLength) == Opens
  {
  }

  lemma FlatOfMore(batches: seq<Batch>, b: Batch)
    ensures Flat(batches + [b]) == Flat(batches) + b
  {
    assert (batches + [b])[..|batches|] == batches;
  }

  lemma FlatPastOfMore(past: seq<seq<Batch>>, batches: seq<Batch>)
    ensures FlatPast(past + [batches]) == FlatPast(past) + Flat(batches) && Flat([]) == []
  {
    assert (past + [batches])[..|past|] == past;
  }

  /** The packets taken are, in order, those of the groups, which are cut exactly where they end. */
  lemma {:induction false} RunIsCutRightly(packets: seq<Packet>, groupLength: int)
    ensures var course := CourseOf(packets, groupLength);
            && FlatPast(course.past) + Flat(course.batches) == Taken(packets, groupLength)
            && CutRightly(course.batches, groupLength) && forall batches | batches in course.past :: CutRightly(batches, groupLength)
  {
    hide FateOf, CutRightly, Follow;
    if packets == [] {
      NothingIsCut(groupLength);
    } else {
      var k := |packets| - 1;
      var before := CourseOf(packets[..k], groupLength);
      RunIsCutRightly(packets[..k], groupLength);
      FollowFlattens(before, packets[k], groupLength);
      FollowCutsRightly(before, packets[k], groupLength);
      PastGrowsBy(before, packets[k], groupLength);
    }
  }

  lemma NothingIsCut(groupLength: int)
    ensures CutRightly([], groupLength)
  {
  }

  lemma PastGrowsBy(course: Course, p: Packet, groupLength: int)
    ensures var past' := Follow(course, p, groupLength).past; past' == course.past || past' == course.past + [course.batches]
  {
    hide FateOf;
  }

  lemma SummariesOfMore(batches: seq<Batch>, b: Batch)
    ensures Summaries(batches + [b]) == Summaries(batches) + [Summary(b)]
  {
  }

  lemma PastGroupsOfMore(past: seq<seq<Batch>>, batches: seq<Batch>)
    ensures PastGroups(past + [batches]) == PastGroups(past) + [Summaries(Complete(batches))]
  {
    assert (past + [batches])[..|past|] == past;
  }

  /** What the packet does to the groups that are complete. */
  lemma CompleteGrows(course: Course, p: Packet, groupLength: int)
    ensures var batches, fate := course.batches, FateOf(course.batches, course.held, p, groupLength);
            var complete := Complete(Follow(course, p, groupLength).batches);
            if fate == StartsAnew then complete == []
            else if fate == Opens && batches != [] then complete == Complete(batches) + [batches[|batches| - 1]]
            else complete == Complete(batches)
  {
    hide FateOf;
    var batches := course.batches;
    if batches != [] {
      LastOfJoined(batches, batches[|batches| - 1] + [p]);
      assert batches[..|batches| - 1] + [batches[|batches| - 1]] == batches;
    }
  }

  /** How a group differs from the one before it: in its last send time, its last arrival and its size. */
  function ReportOf(a: Batch, b: Batch): Deltas {
    Deltas(LatestSend(b) - LatestSend(a), LastArrival(b) - LastArrival(a), TotalSize(b) - TotalSize(a))
  }

  function Reports(batches: seq<Batch>): seq<Deltas> {
    if |batches| < 2 then []
    else Reports(batches[..|batches| - 1]) + [ReportOf(batches[|batches| - 2], batches[|batches| - 1])]
  }

  function PastReports(past: seq<seq<Batch>>): seq<Deltas> {
    if past == [] then [] else PastReports(past[..|past| - 1]) + Reports(Complete(past[|past| - 1]))
  }

  lemma ReportIsDifference(a: Batch, b: Batch)
    ensures Difference(Summary(a), Summary(b)) == ReportOf(a, b)
  {
  }

  lemma FewReports(batches: seq<Batch>)
    requires |batches| < 2
    ensures Differences(Summaries(batches)) == Reports(batches) == []
  {
  }

  lemma LastReport(batches: seq<Batch>, b: Batch)
    requires batches != []
    ensures Reports(batches + [b]) == Reports(batches) + [ReportOf(batches[|batches| - 1], b)]
  {
    assert (batches + [b])[..|batches|] == batches;
  }

  lemma {:induction false} ReportsAreDifferences(batches: seq<Batch>)
    ensures Differences(Summaries(batches)) == Reports(batches)
  {
    hide *;
    if |batches| < 2 {
      FewReports(batches);
    } else {
      var rest, b := batches[..|batches| - 1], batches[|batches| - 1];
      assert batches == rest + [b];
      ReportsAreDifferences(rest);
      LastReport(rest, b);
      LastDifference(rest, b);
    }
  }

  lemma LastDifference(batches: seq<Batch>, b: Batch)
    requires batches != []
    ensures Differences(Summaries(batches + [b])) == Differences(Summaries(batches)) + [ReportOf(batches[|batches| - 1], b)]
  {
    SummariesOfMore(batches, b);
    ReportIsDifference(batches[|batches| - 1], b);
    DifferencesGrow(Summaries(batches), Summary(b));
    hide Differences, Summary, Difference, ReportOf;
  }

  lemma {:induction false} PastReportsAreDifferences(past: seq<seq<Batch>>)
    ensures AllDifferences(PastGroups(past)) == PastReports(past)
  {
    hide Differences, Summaries, Complete, Reports;
    if past != [] {
      var k := |past| - 1;
      PastReportsAreDifferences(past[..k]);
      ReportsAreDifferences(Complete(past[k]));
      AllOfMore(PastGroups(past[..k]), Summaries(Complete(past[k])));
    }
  }

  lemma AllOfMore(past: seq<seq<Group>>, groups: seq<Group>)
    ensures AllDifferences(past + [groups]) == AllDifferences(past) + Differences(groups)
  {
    assert (past + [groups])[..|past|] == past;
  }

  /** Over every run the grouping keeps the groups that the packets make up: size, send times, arrival times and local time are
      those of their packets, and what is reported are the differences of neighbouring complete ones. */
  lemma {:induction false} RunFollows(packets: seq<Packet>, groupLength: int)
    ensures var run, course := Execute(packets, groupLength), CourseOf(packets, groupLength);
            && Keeps(run.state, course)
            && run.groups == Summaries(Complete(course.batches)) && run.past == PastGroups(course.past)
            && run.reports == PastReports(course.past) + Reports(Complete(course.batches))
  {
    RunTracks(packets, groupLength);
    ReportsAreDifferences(Complete(CourseOf(packets, groupLength).batches));
    PastReportsAreDifferences(CourseOf(packets, groupLength).past);
    hide Reports, PastReports, FateOf, Follow, ComputeDeltas, Completes, Summaries, Complete, PastGroups, AllDifferences, Differences, Keeps, Ordered;
    if packets == [] {
      NothingKept();
    } else {
      var k := |packets| - 1;
      RunFollows(packets[..k], groupLength);
      AdvanceFollows(Execute(packets[..k], groupLength), CourseOf(packets[..k], groupLength), packets[k], groupLength);
    }
  }

  lemma NothingKept()
    ensures Keeps(INIT, Course([], [], 0)) && Summaries(Complete([])) == [] && PastGroups([]) == []
  {
  }

  lemma AdvanceFollows(run: Run, course: Course, p: Packet, groupLength: int)
    requires Keeps(run.state, course)
    requires run.groups == Summaries(Complete(course.batches)) && run.past == PastGroups(course.past)
    ensures var run', course' := Advance(run, p, groupLength), Follow(course, p, groupLength);
            && Keeps(run'.state, course')
            && run'.groups == Summaries(Complete(course'.batches)) && run'.past == PastGroups(course'.past)
  {
    FollowKeeps(run.state, course, p, groupLength);
    FateIsSeen(run.state, course, p, groupLength);
    CompleteGrows(course, p, groupLength);
    NothingKept();
    PastGroupsOfMore(course.past, course.batches);
    PastOfFate(course, p, groupLength);
    hide FateOf, Follow, ComputeDeltas, Completes, Summaries, Complete, PastGroups, Keeps;
    if course.batches != [] {
      LastIsCurrent(run.state, course);
      SummariesOfMore(Complete(course.batches), course.batches[|course.batches| - 1]);
    }
  }

  lemma PastOfFate(course: Course, p: Packet, groupLength: int)
    ensures Follow(course, p, groupLength).past
            == if FateOf(course.batches, course.held, p, groupLength) == StartsAnew then course.past + [course.batches] else course.past
  {
    hide FateOf;
  }

  lemma LastIsCurrent(st: State, course: Course)
    requires Keeps(st, course) && course.batches != []
    ensures st.current == Some(Summary(course.batches[|course.batches| - 1]))
  {
  }
}
