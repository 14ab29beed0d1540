/** The delay trend detector of trendline_estimator.cpp over the reals, with its default settings
    (no sorting, no slope cap). */
module Trendline {
  import opened LeastSquares

  datatype Usage = Normal | Underusing | Overusing

  datatype Detector = Detector(
    numDeltas: nat, firstArrival: int, accumulated: real, smoothed: real, history: seq<Point>,
    threshold: real, prevTrend: real, lastUpdate: int, timeOverUsing: real, overuseCounter: nat, hypothesis: Usage)

  const INIT := Detector(0, -1, 0.0, 0.0, [], 12.5, 0.0, -1, -1.0, 0, Normal)

  const SMOOTHING := 0.9
  const THRESHOLD_GAIN := 4.0
  const K_UP := 0.0087
  const K_DOWN := 0.039
  const MAX_ADAPT_OFFSET := 15.0
  const OVERUSING_TIME_THRESHOLD := 10.0
  const MIN_NUM_DELTAS: nat := 60
  const DELTA_COUNTER_MAX: nat := 1000
  const WINDOW_SIZE: nat := 20

  /** The deltas of two groups of packets, as they are fed to the detector. */
  datatype Sample = Sample(arrivalDelta: int, sendDelta: int, arrivalTime: int)

  function Abs(x: real): real {
    if x < 0.0 then -x else x
  }

  function Clamp(x: real): real {
    if x < 6.0 then 6.0 else if x > 600.0 then 600.0 else x
  }

  function ModifiedTrend(numDeltas: nat, trend: real): real {
    var n := if numDeltas < MIN_NUM_DELTAS then numDeltas else MIN_NUM_DELTAS;
    (n as real) * trend * THRESHOLD_GAIN
  }

  /** From `t` towards `size`, a share `k` of the distance in each millisecond. */
  function Moved(t: real, size: real, k: real, milliseconds: int): real {
    t + k * (size - t) * (milliseconds as real)
  }

  function UpdateThreshold(d: Detector, modifiedTrend: real, now: int): Detector {
    var last := if d.lastUpdate == -1 then now else d.lastUpdate;
    if Abs(modifiedTrend) > d.threshold + MAX_ADAPT_OFFSET then d.(lastUpdate := now)
    else
      var k := if Abs(modifiedTrend) < d.threshold then K_DOWN else K_UP;
      var elapsed := if now - last < 100 then now - last else 100;
      d.(threshold := Clamp(Moved(d.threshold, Abs(modifiedTrend), k, elapsed)), lastUpdate := now)
  }

  function Detect(d: Detector, trend: real, sendDelta: real, now: int): Detector {
    if d.numDeltas < 2 then d.(hypothesis := Normal)
    else
      var modified := ModifiedTrend(d.numDeltas, trend);
      var d' :=
        if modified > d.threshold then
          var time := if d.timeOverUsing == -1.0 then sendDelta / 2.0 else d.timeOverUsing + sendDelta;
          if time > OVERUSING_TIME_THRESHOLD && d.overuseCounter + 1 > 1 && trend >= d.prevTrend then
            d.(timeOverUsing := 0.0, overuseCounter := 0, hypothesis := Overusing)
          else d.(timeOverUsing := time, overuseCounter := d.overuseCounter + 1)
        else
          d.(timeOverUsing := -1.0, overuseCounter := 0,
             hypothesis := if modified < -d.threshold then Underusing else Normal);
      UpdateThreshold(d'.(prevTrend := trend), modified, now)
  }

  /** The window with one more point, and without the oldest one if it overflows. */
  function Slide(history: seq<Point>, p: Point): seq<Point> {
    var longer := history + [p];
    if |longer| > WINDOW_SIZE then longer[1..] else longer
  }

  /** The sample counted in, before the trend is judged. */
  function Recorded(d: Detector, s: Sample): Detector {
    var first := if d.firstArrival == -1 then s.arrivalTime else d.firstArrival;
    var accumulated := d.accumulated + (s.arrivalDelta - s.sendDelta) as real;
    var smoothed := SMOOTHING * d.smoothed + (1.0 - SMOOTHING) * accumulated;
    d.(numDeltas := if d.numDeltas + 1 < DELTA_COUNTER_MAX then d.numDeltas + 1 else DELTA_COUNTER_MAX,
       firstArrival := first, accumulated := accumulated, smoothed := smoothed,
       history := Slide(d.history, Point((s.arrivalTime - first) as real, smoothed)))
  }

  function Trend(d: Detector): real {
    if |d.history| == WINDOW_SIZE && Slope(d.history).Some? then Slope(d.history).value else d.prevTrend
  }

  function UpdateTrendline(d: Detector, s: Sample): Detector {
    var r := Recorded(d, s);
    Detect(r, Trend(r), s.sendDelta as real, s.arrivalTime)
  }

  function After(samples: seq<Sample>): Detector {
    if samples == [] then INIT else UpdateTrendline(After(samples[..|samples| - 1]), samples[|samples| - 1])
  }

  // ----- every run

  /** The gain-adjusted trend exceeds the threshold at sample `i`. */
  predicate AboveAt(samples: seq<Sample>, i: nat)
    requires i < |samples|
  {
    var r := Recorded(After(samples[..i]), samples[i]);
    r.numDeltas >= 2 && ModifiedTrend(r.numDeltas, Trend(r)) > r.threshold
  }

  /** What holds in every reachable state of the detector. */
  ghost predicate Sane(samples: seq<Sample>) {
    var d := After(samples);
    && 6.0 <= d.threshold <= 600.0
    && |d.history| <= WINDOW_SIZE && d.numDeltas <= DELTA_COUNTER_MAX
    && |d.history| == (if |samples| < WINDOW_SIZE then |samples| else WINDOW_SIZE)
    && (d.overuseCounter > 0 ==> samples != [] && AboveAt(samples, |samples| - 1))
  }

  lemma ThresholdIsClamped(d: Detector, modifiedTrend: real, now: int)
    requires 6.0 <= d.threshold <= 600.0
    ensures var d' := UpdateThreshold(d, modifiedTrend, now);
            6.0 <= d'.threshold <= 600.0 && d' == d.(threshold := d'.threshold, lastUpdate := d'.lastUpdate)
  {
  }

  /** What one judgement does to the counter and the hypothesis. */
  lemma DetectStep(d: Detector, trend: real, sendDelta: real, now: int)
    requires 6.0 <= d.threshold <= 600.0
    ensures var d' := Detect(d, trend, sendDelta, now);
            var above := d.numDeltas >= 2 && ModifiedTrend(d.numDeltas, trend) > d.threshold;
            && 6.0 <= d'.threshold <= 600.0
            && (d'.overuseCounter > 0 && d.numDeltas >= 2 ==> above)
            && (d.numDeltas < 2 ==> d'.overuseCounter == d.overuseCounter)
            && (d'.hypothesis == Overusing && d.hypothesis != Overusing ==> above && d.overuseCounter > 0)
            && (d'.numDeltas, d'.history, d'.accumulated, d'.smoothed) == (d.numDeltas, d.history, d.accumulated, d.smoothed)
  {
    hide ModifiedTrend, UpdateThreshold;
    forall e: Detector, m: real | 6.0 <= e.threshold <= 600.0
      ensures var e' := UpdateThreshold(e, m, now);
              6.0 <= e'.threshold <= 600.0 && e' == e.(threshold := e'.threshold, lastUpdate := e'.lastUpdate)
    {
      ThresholdIsClamped(e, m, now);
    }
  }

  lemma RecordedStep(d: Detector, s: Sample)
    ensures var r := Recorded(d, s);
            && r.numDeltas == (if d.numDeltas + 1 < DELTA_COUNTER_MAX then d.numDeltas + 1 else DELTA_COUNTER_MAX)
            && |r.history| == (if |d.history| + 1 > WINDOW_SIZE then |d.history| else |d.history| + 1)
            && r.accumulated == d.accumulated + (s.arrivalDelta - s.sendDelta) as real
            && r.smoothed == SMOOTHING * d.smoothed + (1.0 - SMOOTHING) * r.accumulated
            && (r.threshold, r.overuseCounter, r.hypothesis) == (d.threshold, d.overuseCounter, d.hypothesis)
  {
  }

  /** In every reachable state the threshold is between 6 and 600, the window holds 20 points at most, and a running overuse
      count means that the latest sample was above the threshold. */
  lemma {:induction false} RunIsSane(samples: seq<Sample>)
    ensures Sane(samples)
    ensures After(samples).numDeltas == if |samples| < DELTA_COUNTER_MAX then |samples| else DELTA_COUNTER_MAX
    ensures |samples| < 2 ==> After(samples).overuseCounter == 0
  {
    if samples != [] {
      var k := |samples| - 1;
      RunIsSane(samples[..k]);
      var d := After(samples[..k]);
      var r := Recorded(d, samples[k]);
      RecordedStep(d, samples[k]);
      DetectStep(r, Trend(r), samples[k].sendDelta as real, samples[k].arrivalTime);
      hide Recorded, Detect, Trend, ModifiedTrend, After;
      AfterStep(samples);
    }
  }

  lemma AfterStep(samples: seq<Sample>)
    requires samples != []
    ensures After(samples) == UpdateTrendline(After(samples[..|samples| - 1]), samples[|samples| - 1])
  {
  }

  /** Overuse is only ever signalled at the second of two samples in a row that are above the threshold. */
  lemma OveruseIsSustained(samples: seq<Sample>)
    requires samples != []
    ensures var k := |samples| - 1;
            After(samples).hypothesis == Overusing && After(samples[..k]).hypothesis != Overusing ==>
              k > 0 && AboveAt(samples, k) && AboveAt(samples[..k], k - 1)
  {
    var k := |samples| - 1;
    RunIsSane(samples[..k]);
    var d := After(samples[..k]);
    var r := Recorded(d, samples[k]);
    RecordedStep(d, samples[k]);
    DetectStep(r, Trend(r), samples[k].sendDelta as real, samples[k].arrivalTime);
    hide Recorded, Detect, Trend, ModifiedTrend, After;
    AfterStep(samples);
  }

  /** The sum of the one-way delay changes. */
  function DelayChange(samples: seq<Sample>): int {
    if samples == [] then 0
    else var s := samples[|samples| - 1]; DelayChange(samples[..|samples| - 1]) + s.arrivalDelta - s.sendDelta
  }

  /** The accumulated delay is the sum of all the changes in one-way delay. */
  lemma {:induction false} AccumulatesDelay(samples: seq<Sample>)
    ensures After(samples).accumulated == DelayChange(samples) as real
  {
    if samples != [] {
      var k := |samples| - 1;
      AccumulatesDelay(samples[..k]);
      RunIsSane(samples[..k]);
      var r := Recorded(After(samples[..k]), samples[k]);
      RecordedStep(After(samples[..k]), samples[k]);
      DetectStep(r, Trend(r), samples[k].sendDelta as real, samples[k].arrivalTime);
      hide Recorded, Detect, Trend, After;
      AfterStep(samples);
    }
  }

  /** Smoothing never leaves the range that the accumulated delay, which starts at zero, has moved in. */
  lemma {:induction false} SmoothedStaysInRange(samples: seq<Sample>, low: real, high: real)
    requires low <= 0.0 <= high
    requires forall i | 0 <= i <= |samples| :: low <= DelayChange(samples[..i]) as real <= high
    ensures low <= After(samples).smoothed <= high
  {
    if samples != [] {
      var k := |samples| - 1;
      assert forall i | 0 <= i <= k :: samples[..k][..i] == samples[..i];
      SmoothedStaysInRange(samples[..k], low, high);
      assert samples[..|samples|] == samples;
      AccumulatesDelay(samples);
      RunIsSane(samples[..k]);
      var r := Recorded(After(samples[..k]), samples[k]);
      RecordedStep(After(samples[..k]), samples[k]);
      DetectStep(r, Trend(r), samples[k].sendDelta as real, samples[k].arrivalTime);
      hide Recorded, Detect, Trend, After, DelayChange;
      AfterStep(samples);
    }
  }

  // ----- what the window holds

  /** The arrival time that the points count from: the first one there is (-1 stands for none). */
  function FirstArrival(samples: seq<Sample>): int {
    if samples == [] then -1
    else
      var k := |samples| - 1;
      if FirstArrival(samples[..k]) == -1 then samples[k].arrivalTime else FirstArrival(samples[..k])
  }

  /** The exponentially smoothed sum of the delay changes. */
  function Smoothed(samples: seq<Sample>): real {
    if samples == [] then 0.0
    else 0.9 * Smoothed(samples[..|samples| - 1]) + 0.1 * (DelayChange(samples) as real)
  }

  /** The point that sample `i` gives. */
  function PointOf(samples: seq<Sample>, i: nat): Point
    requires i < |samples|
  {
    Point((samples[i].arrivalTime - FirstArrival(samples[..i + 1])) as real, Smoothed(samples[..i + 1]))
  }

  /** The points of the latest samples, 20 at most. */
  function Latest(samples: seq<Sample>): (points: seq<Point>)
    ensures |points| == if |samples| < WINDOW_SIZE then |samples| else WINDOW_SIZE
  {
    var n := if |samples| < WINDOW_SIZE then |samples| else WINDOW_SIZE;
    seq(n, (i: nat) requires i < n => PointOf(samples, |samples| - n + i))
  }

  lemma LatestStep(samples: seq<Sample>)
    requires samples != []
    ensures var k := |samples| - 1;
            var points := Latest(samples[..k]) + [PointOf(samples, k)];
            Latest(samples) == if |points| > WINDOW_SIZE then points[1..] else points
  {
    hide FirstArrival, Smoothed;
    var k := |samples| - 1;
    forall i: nat | i < k ensures PointOf(samples[..k], i) == PointOf(samples, i) {
      assert samples[..k][..i + 1] == samples[..i + 1];
    }
  }

  /** What recording adds to the window. */
  lemma RecordedWindow(d: Detector, s: Sample)
    ensures var r := Recorded(d, s);
            && r.firstArrival == (if d.firstArrival == -1 then s.arrivalTime else d.firstArrival)
            && r.history == var points := d.history + [Point((s.arrivalTime - r.firstArrival) as real, r.smoothed)];
                            if |points| > WINDOW_SIZE then points[1..] else points
  {
  }

  lemma DetectKeepsWindow(d: Detector, trend: real, sendDelta: real, now: int)
    ensures var d' := Detect(d, trend, sendDelta, now);
            (d'.firstArrival, d'.history, d'.smoothed, d'.accumulated) == (d.firstArrival, d.history, d.smoothed, d.accumulated)
  {
    hide ModifiedTrend, Clamp, Abs;
  }

  /** What one sample does to the window and to what it is made from. */
  lemma UpdateWindow(d: Detector, s: Sample)
    ensures var r, d' := Recorded(d, s), UpdateTrendline(d, s);
            && (d'.firstArrival, d'.history, d'.smoothed, d'.accumulated) == (r.firstArrival, r.history, r.smoothed, r.accumulated)
  {
    var r := Recorded(d, s);
    DetectKeepsWindow(r, Trend(r), s.sendDelta as real, s.arrivalTime);
    hide Recorded, Detect, Trend;
  }

  lemma PointStep(samples: seq<Sample>)
    requires samples != []
    ensures var k := |samples| - 1;
            && PointOf(samples, k) == Point((samples[k].arrivalTime - FirstArrival(samples)) as real, Smoothed(samples))
            && FirstArrival(samples) == (if FirstArrival(samples[..k]) == -1 then samples[k].arrivalTime else FirstArrival(samples[..k]))
            && Smoothed(samples) == SMOOTHING * Smoothed(samples[..k]) + (1.0 - SMOOTHING) * (DelayChange(samples) as real)
  {
    assert samples[..|samples|] == samples;
  }

  lemma EmptyWindow()
    ensures var d := After([]);
            d.history == Latest([]) && d.smoothed == Smoothed([]) && d.firstArrival == FirstArrival([])
  {
  }

  /** In every reachable state the window holds the points of the latest 20 samples, or of all while there are fewer. */
  lemma {:induction false} WindowHoldsLatest(samples: seq<Sample>)
    ensures var d := After(samples);
            d.history == Latest(samples) && d.smoothed == Smoothed(samples) && d.firstArrival == FirstArrival(samples)
  {
    hide Recorded, Detect, Trend, UpdateTrendline, After, Latest, PointOf, Smoothed, FirstArrival, DelayChange;
    if samples == [] {
      EmptyWindow();
    } else {
      var k := |samples| - 1;
      WindowHoldsLatest(samples[..k]);
      AfterStep(samples);
      UpdateWindow(After(samples[..k]), samples[k]);
      RecordedStep(After(samples[..k]), samples[k]);
      RecordedWindow(After(samples[..k]), samples[k]);
      AccumulatesDelay(samples);
      PointStep(samples);
      LatestStep(samples);
    }
  }
}
