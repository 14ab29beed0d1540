/** Grouping packets by send time and comparing consecutive groups (inter_arrival_delta.cpp), in whole milliseconds. */
module InterArrival {
  import opened Options

  const BURST_DELTA_THRESHOLD: int := 5
  const MAX_BURST_DURATION: int := 100
  const REORDERED_RESET_THRESHOLD: nat := 3
  const ARRIVAL_TIME_OFFSET_THRESHOLD: int := 3000

  datatype Packet = Packet(sendTime: int, arrivalTime: int, systemTime: int, size: nat)

  /** The packets sent within one burst. */
  datatype Group = Group(
    size: nat, firstSendTime: int, sendTime: int, firstArrival: int, completeTime: int, lastSystemTime: int)

  /** What one call reports about two consecutive groups. */
  datatype Deltas = Deltas(send: int, arrival: int, size: int)

  datatype State = State(current: Option<Group>, previous: Option<Group>, reordered: nat)

  const INIT := State(None, None, 0)

  function Max(a: int, b: int): int {
    if a >= b then a else b
  }

  predicate BelongsToBurst(g: Group, p: Packet) {
    var arrivalDelta, sendDelta := p.arrivalTime - g.completeTime, p.sendTime - g.sendTime;
    || sendDelta == 0
    || (arrivalDelta - sendDelta < 0 && arrivalDelta <= BURST_DELTA_THRESHOLD
        && p.arrivalTime - g.firstArrival < MAX_BURST_DURATION)
  }

  predicate NewTimestampGroup(g: Group, p: Packet, groupLength: int) {
    !BelongsToBurst(g, p) && p.sendTime - g.firstSendTime > groupLength
  }

  /** The packet counted in. */
  function Joined(g: Group, p: Packet): Group {
    g.(size := g.size + p.size, completeTime := p.arrivalTime, lastSystemTime := p.systemTime)
  }

  function Started(p: Packet): Group {
    Joined(Group(0, p.sendTime, p.sendTime, p.arrivalTime, p.arrivalTime, p.systemTime), p)
  }

  function Difference(g: Group, h: Group): Deltas {
    Deltas(h.sendTime - g.sendTime, h.completeTime - g.completeTime, h.size - g.size)
  }

  /** The local clock has jumped against the arrival times. */
  predicate ClockJumped(g: Group, h: Group) {
    (h.completeTime - g.completeTime) - (h.lastSystemTime - g.lastSystemTime) >= ARRIVAL_TIME_OFFSET_THRESHOLD
  }

  function ComputeDeltas(st: State, p: Packet, groupLength: int): (State, Option<Deltas>) {
    if st.current.None? then (st.(current := Some(Started(p))), None)
    else
      var g := st.current.value;
      if g.firstSendTime > p.sendTime then (st, None)
      else if !NewTimestampGroup(g, p, groupLength) then
        (st.(current := Some(Joined(g.(sendTime := Max(g.sendTime, p.sendTime)), p))), None)
      else if st.previous.None? then (st.(current := Some(Started(p)), previous := Some(g)), None)
      else
        var before := st.previous.value;
        if ClockJumped(before, g) then (INIT, None)
        else if g.completeTime < before.completeTime then
          (if st.reordered + 1 >= REORDERED_RESET_THRESHOLD then INIT else st.(reordered := st.reordered + 1), None)
        else (State(Some(Started(p)), Some(g), 0), Some(Difference(before, g)))
  }

  // ----- every run

  /** What a run did: where it ended, what it reported, the groups it completed since the last reset,
      and those of each stretch between two resets before that. */
  datatype Run = Run(state: State, reports: seq<Deltas>, groups: seq<Group>, past: seq<seq<Group>>)

  /** The call found the current group complete. */
  predicate Completes(st: State, p: Packet, groupLength: int) {
    && st.current.Some? && st.current.value.firstSendTime <= p.sendTime
    && NewTimestampGroup(st.current.value, p, groupLength)
    && ComputeDeltas(st, p, groupLength).0.previous == st.current
    && ComputeDeltas(st, p, groupLength).0.current == Some(Started(p))
  }

  function Advance(run: Run, p: Packet, groupLength: int): Run {
    var (st, deltas) := ComputeDeltas(run.state, p, groupLength);
    var reports := run.reports + (if deltas.Some? then [deltas.value] else []);
    if Completes(run.state, p, groupLength) then
      Run(st, reports, run.groups + [run.state.current.value], run.past)
    else if st == INIT && run.state != INIT then Run(st, reports, [], run.past + [run.groups])
    else Run(st, reports, run.groups, run.past)
  }

  function Execute(packets: seq<Packet>, groupLength: int): Run {
    if packets == [] then Run(INIT, [], [], [])
    else
      var k := |packets| - 1;
      Advance(Execute(packets[..k], groupLength), packets[k], groupLength)
  }

  /** The differences of neighbouring groups. */
  function Differences(groups: seq<Group>): seq<Deltas> {
    if |groups| < 2 then []
    else Differences(groups[..|groups| - 1]) + [Difference(groups[|groups| - 2], groups[|groups| - 1])]
  }

  function AllDifferences(past: seq<seq<Group>>): seq<Deltas> {
    if past == [] then [] else AllDifferences(past[..|past| - 1]) + Differences(past[|past| - 1])
  }

  /** Completed groups follow each other in arrival order, their first send times more than a group length apart. */
  ghost predicate Ordered(groups: seq<Group>, groupLength: int) {
    forall i, j | 0 <= i < j == i + 1 < |groups| ::
      groups[i].completeTime <= groups[j].completeTime && groups[j].firstSendTime - groups[i].firstSendTime > groupLength
  }

  /** The state agrees with what has been completed and reported. */
  ghost predicate Tracks(run: Run, groupLength: int) {
    && (forall groups | groups in run.past :: Ordered(groups, groupLength))
    && Ordered(run.groups, groupLength)
    && run.reports == AllDifferences(run.past) + Differences(run.groups)
    && (if run.groups == [] then run.state.previous == None
        else run.state.previous == Some(run.groups[|run.groups| - 1]))
    && (run.state.previous.Some? ==>
          && run.state.current.Some?
          && run.state.current.value.firstSendTime - run.state.previous.value.firstSendTime > groupLength)
  }

  lemma PastGrows(past: seq<seq<Group>>, groups: seq<Group>)
    ensures AllDifferences(past + [groups]) + Differences([]) == AllDifferences(past) + Differences(groups)
  {
    assert (past + [groups])[..|past|] == past;
  }

  lemma DifferencesGrow(groups: seq<Group>, g: Group)
    ensures Differences(groups + [g]) == Differences(groups)
            + if groups == [] then [] else [Difference(groups[|groups| - 1], g)]
  {
    assert (groups + [g])[..|groups|] == groups;
  }

  lemma OrderedGrows(groups: seq<Group>, g: Group, groupLength: int)
    requires Ordered(groups, groupLength)
    requires groups != [] ==>
               var last := groups[|groups| - 1];
               last.completeTime <= g.completeTime && g.firstSendTime - last.firstSendTime > groupLength
    ensures Ordered(groups + [g], groupLength)
  {
  }

  lemma OrderedNone(groupLength: int)
    ensures Ordered([], groupLength) && Differences([]) == []
  {
  }

  /** A call completes a group, resets, or leaves the completed groups alone. */
  lemma CallCases(st: State, p: Packet, groupLength: int)
    requires st.previous.Some? ==> st.current.Some?
    ensures var (st', deltas) := ComputeDeltas(st, p, groupLength);
            if Completes(st, p, groupLength) then
              var g := st.current.value;
              && st' == State(Some(Started(p)), Some(g), st'.reordered)
              && p.sendTime - g.firstSendTime > groupLength
              && (st.previous.Some? ==> st.previous.value.completeTime <= g.completeTime)
              && deltas == if st.previous.Some? then Some(Difference(st.previous.value, g)) else None
            else
              && deltas == None
              && (st' != INIT || st == INIT ==>
                    && st'.previous == st.previous && st'.current.Some?
                    && (st.current.Some? ==> st'.current.value.firstSendTime == st.current.value.firstSendTime))
  {
    hide BelongsToBurst, ClockJumped, Difference;
  }

  lemma AdvanceTracks(run: Run, p: Packet, groupLength: int)
    requires Tracks(run, groupLength)
    ensures Tracks(Advance(run, p, groupLength), groupLength)
  {
    CallCases(run.state, p, groupLength);
    OrderedNone(groupLength);
    hide ComputeDeltas, Completes, Ordered, Differences, AllDifferences, Difference;
    PastGrows(run.past, run.groups);
    if Completes(run.state, p, groupLength) {
      var g := run.state.current.value;
      DifferencesGrow(run.groups, g);
      OrderedGrows(run.groups, g, groupLength);
    }
  }

  /** Over every run the reports are the differences of neighbouring completed groups, stretch by stretch. */
  lemma {:induction false} RunTracks(packets: seq<Packet>, groupLength: int)
    ensures Tracks(Execute(packets, groupLength), groupLength)
  {
    if packets != [] {
      var k := |packets| - 1;
      RunTracks(packets[..k], groupLength);
      AdvanceTracks(Execute(packets[..k], groupLength), packets[k], groupLength);
    }
  }

  // ----- conservation

  function Sum(deltas: seq<Deltas>): Deltas {
    if deltas == [] then Deltas(0, 0, 0)
    else
      var k := |deltas| - 1;
      var rest := Sum(deltas[..k]);
      Deltas(rest.send + deltas[k].send, rest.arrival + deltas[k].arrival, rest.size + deltas[k].size)
  }

  lemma SumOfLast(deltas: seq<Deltas>, d: Deltas)
    ensures var s := Sum(deltas);
            Sum(deltas + [d]) == Deltas(s.send + d.send, s.arrival + d.arrival, s.size + d.size)
  {
    assert (deltas + [d])[..|deltas|] == deltas;
  }

  /** Between resets the reported deltas add up to the difference of the last and the first completed group,
      and no reported arrival delta is negative. */
  lemma {:induction false} DifferencesTelescope(groups: seq<Group>, groupLength: int)
    requires groups != [] && Ordered(groups, groupLength)
    ensures Sum(Differences(groups)) == Difference(groups[0], groups[|groups| - 1])
    ensures forall d | d in Differences(groups) :: d.arrival >= 0
  {
    hide Differences, Sum;
    if |groups| == 1 {
      LoneGroup(groups);
    } else {
      var k := |groups| - 1;
      assert Ordered(groups[..k], groupLength) && groups == groups[..k] + [groups[k]];
      hide Ordered;
      DifferencesTelescope(groups[..k], groupLength);
      DifferencesGrow(groups[..k], groups[k]);
      SumOfLast(Differences(groups[..k]), Difference(groups[k - 1], groups[k]));
    }
  }

  lemma LoneGroup(groups: seq<Group>)
    requires |groups| == 1
    ensures Differences(groups) == [] && Sum([]) == Deltas(0, 0, 0)
  {
  }
}
