/** What the trend detector signals and how its threshold adapts, stated on the samples it has been given. */
module OveruseDetection {
  import opened LeastSquares
  import opened Trendline

  type Samples = seq<Sample>

  // ----- what is judged

  /** The slope of the window once there are 20 samples, and as long as it has one; else what it was before, at first zero. */
  function TrendOf(samples: Samples): real {
    if samples == [] then 0.0
    else if |samples| >= 20 && Slope(Latest(samples)).Some? then Slope(Latest(samples)).value
    else TrendOf(samples[..|samples| - 1])
  }

  /** Four times the trend for each of the samples, 60 at most. */
  function GainedTrend(samples: Samples): real {
    4.0 * (if |samples| < 60 then |samples| else 60) as real * TrendOf(samples)
  }

  function Size(x: real): real {
    if x < 0.0 then 0.0 - x else x
  }

  function Between6And600(x: real): real {
    if x < 6.0 then 6.0 else if x > 600.0 then 600.0 else x
  }

  /** The time since the sample before, 100 ms at most, and none for the first one that is judged; an arrival time of -1 counts as
      none. */
  function Elapsed(samples: Samples): int
    requires |samples| >= 2
  {
    var k := |samples| - 1;
    var before := samples[k - 1].arrivalTime;
    if k == 1 || before == -1 then 0
    else if samples[k].arrivalTime - before < 100 then samples[k].arrivalTime - before
    else 100
  }

  /** From `t` towards `size`, a share `k` of the distance in each millisecond. */
  function Towards(t: real, size: real, k: real, milliseconds: int): real {
    t + k * (size - t) * (milliseconds as real)
  }

  /** The threshold follows the size of the gained trend, downwards 0.039 of the distance and upwards 0.0087 in each millisecond;
      it ignores trends that exceed it by more than 15, and stays between 6 and 600. */
  function ThresholdAfter(samples: Samples): real {
    if |samples| < 2 then 12.5
    else
      var before, size := ThresholdAfter(samples[..|samples| - 1]), Size(GainedTrend(samples));
      if size > before + 15.0 then before
      else if size < before then Between6And600(Towards(before, size, 0.039, Elapsed(samples)))
      else Between6And600(Towards(before, size, 0.0087, Elapsed(samples)))
  }

  /** The latest sample is above the threshold, or below it on the other side. */
  predicate Above(samples: Samples) {
    |samples| >= 2 && GainedTrend(samples) > ThresholdAfter(samples[..|samples| - 1])
  }

  predicate Below(samples: Samples) {
    |samples| >= 2 && GainedTrend(samples) < 0.0 - ThresholdAfter(samples[..|samples| - 1])
  }

  // ----- what is signalled

  /** How many samples in a row, up to the latest, have been above the threshold without signalling overuse. */
  function InARow(samples: Samples): nat
    decreases |samples|, 0
  {
    if !Above(samples) || Signals(samples) then 0 else 1 + InARow(samples[..|samples| - 1])
  }

  /** The send time they span: half of what the first one of them adds; or -1 if the latest one is not above the threshold. */
  function Spanned(samples: Samples): real
    decreases |samples|, 0
  {
    if !Above(samples) then -1.0 else if Signals(samples) then 0.0 else SpannedWith(samples)
  }

  function SpannedWith(samples: Samples): real
    requires samples != []
    decreases |samples| - 1, 1
  {
    var k := |samples| - 1;
    var before, send := Spanned(samples[..k]), samples[k].sendDelta as real;
    if before == -1.0 then send / 2.0 else before + send
  }

  /** The latest sample signals overuse: it is not the first in a row above the threshold, they span more than 10 ms, and the
      trend is not falling. */
  predicate Signals(samples: Samples)
    decreases |samples| - 1, 2
  {
    && Above(samples)
    && InARow(samples[..|samples| - 1]) > 0
    && SpannedWith(samples) > 10.0
    && TrendOf(samples) >= TrendOf(samples[..|samples| - 1])
  }

  /** Overuse stays signalled while samples are above the threshold, underuse likewise; otherwise the latest sample decides. */
  function Signalled(samples: Samples): Usage {
    if |samples| < 2 then Normal
    else if Signals(samples) then Overusing
    else if Above(samples) then Signalled(samples[..|samples| - 1])
    else if Below(samples) then Underusing
    else Normal
  }

  // ----- the detector

  /** The detector is in the state that the samples lead to. */
  ghost predicate DetectorIs(d: Detector, samples: Samples) {
    && d.numDeltas == (if |samples| < 1000 then |samples| else 1000)
    && d.prevTrend == TrendOf(samples) && d.threshold == ThresholdAfter(samples)
    && d.lastUpdate == (if |samples| < 2 then -1 else samples[|samples| - 1].arrivalTime)
    && d.overuseCounter == InARow(samples) && d.timeOverUsing == Spanned(samples)
    && d.hypothesis == Signalled(samples)
  }

  lemma RecordedKeeps(d: Detector, s: Sample)
    ensures var r := Recorded(d, s);
            r == d.(numDeltas := r.numDeltas, firstArrival := r.firstArrival, accumulated := r.accumulated, smoothed := r.smoothed,
                    history := r.history)
            && r.numDeltas == (if d.numDeltas + 1 < 1000 then d.numDeltas + 1 else 1000)
  {
  }

  /** The trend that is judged. */
  lemma TrendIs(samples: Samples)
    requires samples != []
    ensures var k := |samples| - 1;
            var d := After(samples[..k]);
            d.prevTrend == TrendOf(samples[..k]) ==> Trend(Recorded(d, samples[k])) == TrendOf(samples)
  {
    var k := |samples| - 1;
    WindowHoldsLatest(samples);
    AfterStep(samples);
    UpdateWindow(After(samples[..k]), samples[k]);
    RecordedKeeps(After(samples[..k]), samples[k]);
    hide Recorded, Detect, UpdateTrendline, After, Latest, Slope;
  }

  lemma GainIs(samples: Samples, numDeltas: nat)
    requires numDeltas == if |samples| < 1000 then |samples| else 1000
    ensures ModifiedTrend(numDeltas, TrendOf(samples)) == GainedTrend(samples)
  {
    hide TrendOf;
  }

  lemma AdaptsDown(d: Detector, gained: real, now: int, elapsed: int)
    requires var last := if d.lastUpdate == -1 then now else d.lastUpdate;
             elapsed == if now - last < 100 then now - last else 100
    requires Abs(gained) < d.threshold
    ensures UpdateThreshold(d, gained, now)
            == d.(threshold := Clamp(Towards(d.threshold, Abs(gained), 0.039, elapsed)), lastUpdate := now)
  {
    assert K_DOWN == 0.039 && MAX_ADAPT_OFFSET == 15.0;
    SameMove(d.threshold, Abs(gained), K_DOWN, elapsed);
    hide Abs, Clamp, Moved, Towards;
    assert !(Abs(gained) > d.threshold + MAX_ADAPT_OFFSET);
  }

  lemma SameMove(t: real, size: real, k: real, milliseconds: int)
    ensures Towards(t, size, k, milliseconds) == Moved(t, size, k, milliseconds)
  {
  }

  lemma AdaptsUp(d: Detector, gained: real, now: int, elapsed: int)
    requires var last := if d.lastUpdate == -1 then now else d.lastUpdate;
             elapsed == if now - last < 100 then now - last else 100
    requires d.threshold <= Abs(gained) <= d.threshold + 15.0
    ensures UpdateThreshold(d, gained, now)
            == d.(threshold := Clamp(Towards(d.threshold, Abs(gained), 0.0087, elapsed)), lastUpdate := now)
  {
    assert K_UP == 0.0087 && MAX_ADAPT_OFFSET == 15.0;
    SameMove(d.threshold, Abs(gained), K_UP, elapsed);
    hide Abs, Clamp, Moved, Towards;
    assert !(Abs(gained) > d.threshold + MAX_ADAPT_OFFSET);
  }

  lemma ThresholdIs(d: Detector, samples: Samples)
    requires |samples| >= 2 && d.threshold == ThresholdAfter(samples[..|samples| - 1])
    requires var k := |samples| - 1; d.lastUpdate == if k < 2 then -1 else samples[k - 1].arrivalTime
    ensures var now := samples[|samples| - 1].arrivalTime;
            UpdateThreshold(d, GainedTrend(samples), now) == d.(threshold := ThresholdAfter(samples), lastUpdate := now)
  {
    hide GainedTrend, Between6And600, Clamp, Towards;
    var now, gained := samples[|samples| - 1].arrivalTime, GainedTrend(samples);
    assert Abs(gained) == Size(gained);
    hide Abs, Size;
    if Size(gained) < d.threshold {
      AdaptsDown(d, gained, now, Elapsed(samples));
      SameClamp(Towards(d.threshold, Size(gained), 0.039, Elapsed(samples)));
    } else if Size(gained) <= d.threshold + 15.0 {
      AdaptsUp(d, gained, now, Elapsed(samples));
      SameClamp(Towards(d.threshold, Size(gained), 0.0087, Elapsed(samples)));
    }
  }

  lemma SameClamp(x: real)
    ensures Between6And600(x) == Clamp(x)
  {
  }

  /** The judgement, with the threshold as it was. */
  function Judged(d: Detector, gained: real, trend: real, sendDelta: real): Detector {
    var d' :=
      if gained > d.threshold then
        var time := if d.timeOverUsing == -1.0 then sendDelta / 2.0 else d.timeOverUsing + sendDelta;
        if time > OVERUSING_TIME_THRESHOLD && d.overuseCounter + 1 > 1 && trend >= d.prevTrend then
          d.(timeOverUsing := 0.0, overuseCounter := 0, hypothesis := Overusing)
        else d.(timeOverUsing := time, overuseCounter := d.overuseCounter + 1)
      else
        d.(timeOverUsing := -1.0, overuseCounter := 0, hypothesis := if gained < -d.threshold then Underusing else Normal);
    d'.(prevTrend := trend)
  }

  lemma DetectIs(d: Detector, trend: real, sendDelta: real, now: int)
    ensures Detect(d, trend, sendDelta, now) ==
            if d.numDeltas < 2 then d.(hypothesis := Normal)
            else UpdateThreshold(Judged(d, ModifiedTrend(d.numDeltas, trend), trend, sendDelta), ModifiedTrend(d.numDeltas, trend), now)
  {
    hide ModifiedTrend, UpdateThreshold;
  }

  lemma JudgedIs(d: Detector, samples: Samples)
    requires |samples| >= 2
    requires var before := samples[..|samples| - 1];
             && d.threshold == ThresholdAfter(before) && d.prevTrend == TrendOf(before)
             && d.overuseCounter == InARow(before) && d.timeOverUsing == Spanned(before) && d.hypothesis == Signalled(before)
    ensures var d' := Judged(d, GainedTrend(samples), TrendOf(samples), samples[|samples| - 1].sendDelta as real);
            d' == d.(prevTrend := TrendOf(samples), overuseCounter := InARow(samples), timeOverUsing := Spanned(samples),
                     hypothesis := Signalled(samples))
  {
    var before := samples[..|samples| - 1];
    assert Above(samples) <==> GainedTrend(samples) > d.threshold;
    assert Below(samples) <==> GainedTrend(samples) < -d.threshold;
    assert SpannedWith(samples) == if d.timeOverUsing == -1.0 then samples[|samples| - 1].sendDelta as real / 2.0
                                   else d.timeOverUsing + samples[|samples| - 1].sendDelta as real;
    hide GainedTrend, ThresholdAfter, TrendOf, SpannedWith;
    assert Signals(samples) <==> Above(samples) && InARow(before) > 0 && SpannedWith(samples) > 10.0 && TrendOf(samples) >= TrendOf(before);
    hide Above, Below, Signals;
  }

  lemma FirstSample(d: Detector, samples: Samples)
    requires |samples| < 2
    ensures TrendOf(samples) == 0.0 && ThresholdAfter(samples) == 12.5 && InARow(samples) == 0 && Spanned(samples) == -1.0
    ensures Signalled(samples) == Normal && !Above(samples)
  {
    if samples != [] {
      assert samples[..0] == [];
    }
  }

  lemma Starts()
    ensures DetectorIs(After([]), [])
  {
  }

  /** In every reachable state trend, threshold and signal are those of the samples. */
  lemma {:induction false} RunDetects(samples: Samples)
    ensures DetectorIs(After(samples), samples)
  {
    if samples == [] {
      Starts();
    } else {
      var k := |samples| - 1;
      RunDetects(samples[..k]);
      StepDetects(samples);
    }
  }

  lemma StepDetects(samples: Samples)
    requires samples != [] && DetectorIs(After(samples[..|samples| - 1]), samples[..|samples| - 1])
    ensures DetectorIs(After(samples), samples)
  {
    var k := |samples| - 1;
    var d, s := After(samples[..k]), samples[k];
    var r := Recorded(d, s);
    AfterStep(samples);
    RecordedKeeps(d, s);
    TrendIs(samples);
    DetectIs(r, Trend(r), s.sendDelta as real, s.arrivalTime);
    hide After, Recorded, Detect, Trend, ModifiedTrend, UpdateThreshold, Judged, TrendOf, ThresholdAfter, InARow, Spanned, Signalled, GainedTrend;
    if |samples| < 2 {
      FirstSample(d, samples);
      FirstSample(d, samples[..k]);
    } else {
      GainIs(samples, r.numDeltas);
      JudgedIs(r, samples);
      ThresholdIs(Judged(r, GainedTrend(samples), TrendOf(samples), s.sendDelta as real), samples);
    }
  }
}
