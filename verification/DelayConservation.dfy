/** Groups of packets and the delay that the trend detector accumulates over them (delay_based_bwe.cpp). */
module DelayConservation {
  import opened InterArrival
  import opened Options
  import Trendline

  /** The samples that a run feeds to the detector: one for each report, at the packet that caused it. */
  function Samples(packets: seq<Packet>, groupLength: int): seq<Trendline.Sample> {
    if packets == [] then []
    else
      var k := |packets| - 1;
      var deltas := ComputeDeltas(Execute(packets[..k], groupLength).state, packets[k], groupLength).1;
      Samples(packets[..k], groupLength)
      + if deltas.Some? then [Trendline.Sample(deltas.value.arrival, deltas.value.send, packets[k].arrivalTime)] else []
  }

  /** How long the last packet of a group was under way. */
  function GroupDelay(g: Group): int {
    g.completeTime - g.sendTime
  }

  /** The change in group delay over a stretch between two resets. */
  function StretchChange(groups: seq<Group>): int {
    if groups == [] then 0 else GroupDelay(groups[|groups| - 1]) - GroupDelay(groups[0])
  }

  function PastChange(past: seq<seq<Group>>): int {
    if past == [] then 0 else PastChange(past[..|past| - 1]) + StretchChange(past[|past| - 1])
  }

  lemma {:induction false} SumConcat(a: seq<Deltas>, b: seq<Deltas>)
    ensures var s, t := Sum(a), Sum(b);
            Sum(a + b) == Deltas(s.send + t.send, s.arrival + t.arrival, s.size + t.size)
  {
    if b == [] {
      assert a + b == a;
    } else {
      var k := |b| - 1;
      SumConcat(a, b[..k]);
      assert (a + b)[..|a| + k] == a + b[..k];
    }
  }

  /** Over a stretch the reported delay changes add up to the change in group delay. */
  lemma StretchIsSum(groups: seq<Group>, groupLength: int)
    requires Ordered(groups, groupLength)
    ensures var s := Sum(Differences(groups)); s.arrival - s.send == StretchChange(groups)
  {
    if groups != [] {
      DifferencesTelescope(groups, groupLength);
    }
  }

  lemma {:induction false} PastIsSum(past: seq<seq<Group>>, groupLength: int)
    requires forall groups | groups in past :: Ordered(groups, groupLength)
    ensures var s := Sum(AllDifferences(past)); s.arrival - s.send == PastChange(past)
  {
    if past != [] {
      var k := |past| - 1;
      PastIsSum(past[..k], groupLength);
      SumConcat(AllDifferences(past[..k]), Differences(past[k]));
      StretchIsSum(past[k], groupLength);
    }
  }

  lemma DelayChangeOfLast(samples: seq<Trendline.Sample>, s: Trendline.Sample)
    ensures Trendline.DelayChange(samples + [s]) == Trendline.DelayChange(samples) + s.arrivalDelta - s.sendDelta
  {
    assert (samples + [s])[..|samples|] == samples;
  }

  /** The samples carry the reports. */
  lemma {:induction false} SamplesAreReports(packets: seq<Packet>, groupLength: int)
    ensures var s := Sum(Execute(packets, groupLength).reports);
            Trendline.DelayChange(Samples(packets, groupLength)) == s.arrival - s.send
  {
    hide ComputeDeltas, Samples, Execute, Sum, Trendline.DelayChange;
    if packets == [] {
      NothingReported(groupLength);
    } else {
      var k := |packets| - 1;
      SamplesAreReports(packets[..k], groupLength);
      ReportStep(packets, groupLength);
      var run := Execute(packets[..k], groupLength);
      var deltas := ComputeDeltas(run.state, packets[k], groupLength).1;
      if deltas.Some? {
        SumOfLast(run.reports, deltas.value);
        DelayChangeOfLast(Samples(packets[..k], groupLength),
                          Trendline.Sample(deltas.value.arrival, deltas.value.send, packets[k].arrivalTime));
      } else {
        assert run.reports + [] == run.reports;
        assert Samples(packets[..k], groupLength) + [] == Samples(packets[..k], groupLength);
      }
    }
  }

  lemma NothingReported(groupLength: int)
    ensures Trendline.DelayChange(Samples([], groupLength)) == 0 && Sum(Execute([], groupLength).reports) == Deltas(0, 0, 0)
  {
  }

  /** What the last packet adds to the reports and to the samples. */
  lemma ReportStep(packets: seq<Packet>, groupLength: int)
    requires packets != []
    ensures var k := |packets| - 1;
            var run := Execute(packets[..k], groupLength);
            var deltas := ComputeDeltas(run.state, packets[k], groupLength).1;
            && Execute(packets, groupLength).reports == run.reports + (if deltas.Some? then [deltas.value] else [])
            && Samples(packets, groupLength)
               == Samples(packets[..k], groupLength)
                  + if deltas.Some? then [Trendline.Sample(deltas.value.arrival, deltas.value.send, packets[k].arrivalTime)] else []
  {
    hide ComputeDeltas, Completes;
  }

  /** Over every run the accumulated delay is the change in one-way group delay, from the first completed group
      to the last, of every stretch between two resets. */
  lemma AccumulatedIsGroupDelayChange(packets: seq<Packet>, groupLength: int)
    ensures Trendline.After(Samples(packets, groupLength)).accumulated
            == (PastChange(Execute(packets, groupLength).past) + StretchChange(Execute(packets, groupLength).groups)) as real
  {
    var run := Execute(packets, groupLength);
    RunTracks(packets, groupLength);
    SamplesAreReports(packets, groupLength);
    SumConcat(AllDifferences(run.past), Differences(run.groups));
    PastIsSum(run.past, groupLength);
    StretchIsSum(run.groups, groupLength);
    Trendline.AccumulatesDelay(Samples(packets, groupLength));
  }

  // ----- restarts

  const STREAM_TIME_OUT: int := 2000

  /** The grouping and the detector that DelayBasedBwe owns, and when it last saw a packet. */
  datatype Estimator = Estimator(lastSeen: Option<int>, grouping: State, detector: Trendline.Detector)

  const NEW_ESTIMATOR := Estimator(None, INIT, Trendline.INIT)

  predicate TimedOut(e: Estimator, now: int) {
    e.lastSeen.None? || now - e.lastSeen.value > STREAM_TIME_OUT
  }

  /** IncomingPacketFeedback: after a time-out both components start anew. */
  function Incoming(e: Estimator, p: Packet, groupLength: int): Estimator {
    var e' := if TimedOut(e, p.systemTime) then NEW_ESTIMATOR else e;
    var (grouping, deltas) := ComputeDeltas(e'.grouping, p, groupLength);
    Estimator(Some(p.systemTime), grouping,
              if deltas.Some? then
                Trendline.UpdateTrendline(e'.detector, Trendline.Sample(deltas.value.arrival, deltas.value.send, p.arrivalTime))
              else e'.detector)
  }

  function Estimate(packets: seq<Packet>, groupLength: int): Estimator {
    if packets == [] then NEW_ESTIMATOR
    else Incoming(Estimate(packets[..|packets| - 1], groupLength), packets[|packets| - 1], groupLength)
  }

  /** The packets since the last pause of more than two seconds. */
  function SinceTimeOut(packets: seq<Packet>): (r: seq<Packet>)
    ensures packets != [] ==> r != [] && r[|r| - 1] == packets[|packets| - 1]
  {
    if packets == [] then []
    else
      var k := |packets| - 1;
      (if k > 0 && packets[k].systemTime - packets[k - 1].systemTime <= STREAM_TIME_OUT then SinceTimeOut(packets[..k]) else [])
      + [packets[k]]
  }

  /** What one more packet does to the two components that saw `packets`. */
  lemma OnePacketMore(packets: seq<Packet>, p: Packet, groupLength: int)
    ensures var before := Execute(packets, groupLength).state;
            var (grouping, deltas) := ComputeDeltas(before, p, groupLength);
            && Execute(packets + [p], groupLength).state == grouping
            && Trendline.After(Samples(packets + [p], groupLength))
               == if deltas.Some? then
                    Trendline.UpdateTrendline(Trendline.After(Samples(packets, groupLength)),
                                              Trendline.Sample(deltas.value.arrival, deltas.value.send, p.arrivalTime))
                  else Trendline.After(Samples(packets, groupLength))
  {
    assert (packets + [p])[..|packets|] == packets;
    hide ComputeDeltas, Trendline.UpdateTrendline;
    var samples := Samples(packets, groupLength);
    var deltas := ComputeDeltas(Execute(packets, groupLength).state, p, groupLength).1;
    if deltas.Some? {
      var s := Trendline.Sample(deltas.value.arrival, deltas.value.send, p.arrivalTime);
      assert (samples + [s])[..|samples|] == samples;
      Trendline.AfterStep(samples + [s]);
    } else {
      assert samples + [] == samples;
    }
  }

  /** After every run both components are as if they had only seen the packets since the last time-out. */
  lemma {:induction false} RestartsAtTimeOut(packets: seq<Packet>, groupLength: int)
    ensures Estimate(packets, groupLength)
            == Estimator(if packets == [] then None else Some(packets[|packets| - 1].systemTime),
                         Execute(SinceTimeOut(packets), groupLength).state,
                         Trendline.After(Samples(SinceTimeOut(packets), groupLength)))
  {
    if packets == [] {
    } else {
      var k := |packets| - 1;
      RestartsAtTimeOut(packets[..k], groupLength);
      var kept := if TimedOut(Estimate(packets[..k], groupLength), packets[k].systemTime) then [] else SinceTimeOut(packets[..k]);
      assert SinceTimeOut(packets) == kept + [packets[k]];
      OnePacketMore(kept, packets[k], groupLength);
    }
  }

  /** The accumulated delay is the change in group delay of the stretches since the last time-out. */
  lemma EstimateIsGroupDelayChange(packets: seq<Packet>, groupLength: int)
    ensures var run := Execute(SinceTimeOut(packets), groupLength);
            Estimate(packets, groupLength).detector.accumulated == (PastChange(run.past) + StretchChange(run.groups)) as real
  {
    RestartsAtTimeOut(packets, groupLength);
    AccumulatedIsGroupDelayChange(SinceTimeOut(packets), groupLength);
  }
}
