/** The detector of trendline_estimator.cpp, updated in place, proved to do what Trendline says. */
module TrendlineEstimator {
  import opened LeastSquares
  import opened Trendline

  class TrendlineEstimator {
    var numOfDeltas: nat
    var firstArrivalTimeMs: int
    var accumulatedDelay: real
    var smoothedDelay: real
    var delayHist: seq<Point>
    var threshold: real
    var prevTrend: real
    var lastUpdateMs: int
    var timeOverUsing: real
    var overuseCounter: nat
    var hypothesis: Usage

    ghost function View(): Detector
      reads this
    {
      Detector(numOfDeltas, firstArrivalTimeMs, accumulatedDelay, smoothedDelay, delayHist, threshold, prevTrend,
               lastUpdateMs, timeOverUsing, overuseCounter, hypothesis)
    }

    constructor ()
      ensures View() == INIT
    {
      numOfDeltas, firstArrivalTimeMs, accumulatedDelay, smoothedDelay, delayHist := 0, -1, 0.0, 0.0, [];
      threshold, prevTrend, lastUpdateMs, timeOverUsing, overuseCounter := 12.5, 0.0, -1, -1.0, 0;
      hypothesis := Normal;
    }

    method UpdateThreshold(modifiedTrend: real, nowMs: int)
      modifies this`threshold, this`lastUpdateMs
      ensures View() == Trendline.UpdateThreshold(old(View()), modifiedTrend, nowMs)
    {
      if lastUpdateMs == -1 {
        lastUpdateMs := nowMs;
      }
      if Abs(modifiedTrend) > threshold + MAX_ADAPT_OFFSET {
        lastUpdateMs := nowMs;
        return;
      }
      var k := if Abs(modifiedTrend) < threshold then K_DOWN else K_UP;
      var timeDeltaMs := if nowMs - lastUpdateMs < 100 then nowMs - lastUpdateMs else 100;
      threshold := threshold + k * (Abs(modifiedTrend) - threshold) * (timeDeltaMs as real);
      threshold := Clamp(threshold);
      lastUpdateMs := nowMs;
    }

    method Detect(trend: real, tsDelta: real, nowMs: int)
      modifies this
      ensures View() == Trendline.Detect(old(View()), trend, tsDelta, nowMs)
    {
      if numOfDeltas < 2 {
        hypothesis := Normal;
        return;
      }
      var modifiedTrend := ModifiedTrend(numOfDeltas, trend);
      hide ModifiedTrend, Trendline.UpdateThreshold;
      if modifiedTrend > threshold {
        if timeOverUsing == -1.0 {
          timeOverUsing := tsDelta / 2.0;
        } else {
          timeOverUsing := timeOverUsing + tsDelta;
        }
        overuseCounter := overuseCounter + 1;
        if timeOverUsing > OVERUSING_TIME_THRESHOLD && overuseCounter > 1 {
          if trend >= prevTrend {
            timeOverUsing := 0.0;
            overuseCounter := 0;
            hypothesis := Overusing;
          }
        }
      } else if modifiedTrend < -threshold {
        timeOverUsing := -1.0;
        overuseCounter := 0;
        hypothesis := Underusing;
      } else {
        timeOverUsing := -1.0;
        overuseCounter := 0;
        hypothesis := Normal;
      }
      prevTrend := trend;
      UpdateThreshold(modifiedTrend, nowMs);
    }

    method PushPoint(p: Point)
      modifies this`delayHist
      ensures delayHist == Slide(old(delayHist), p)
    {
      delayHist := delayHist + [p];
      if |delayHist| > WINDOW_SIZE {
        delayHist := delayHist[1..];
      }
    }

    /** Counts one sample in: the smoothed delay and the window of points. */
    method RecordSample(s: Sample)
      modifies this
      ensures View() == Recorded(old(View()), s)
    {
      hide Slide;
      var deltaMs := (s.arrivalDelta - s.sendDelta) as real;
      numOfDeltas := numOfDeltas + 1;
      numOfDeltas := if numOfDeltas < DELTA_COUNTER_MAX then numOfDeltas else DELTA_COUNTER_MAX;
      if firstArrivalTimeMs == -1 {
        firstArrivalTimeMs := s.arrivalTime;
      }
      accumulatedDelay := accumulatedDelay + deltaMs;
      smoothedDelay := SMOOTHING * smoothedDelay + (1.0 - SMOOTHING) * accumulatedDelay;
      PushPoint(Point((s.arrivalTime - firstArrivalTimeMs) as real, smoothedDelay));
    }

    /** Counts one sample in and judges the trend of the latest ones. */
    method UpdateTrendline(s: Sample)
      modifies this
      ensures View() == Trendline.UpdateTrendline(old(View()), s)
    {
      hide Recorded, Trendline.Detect, Slope;
      RecordSample(s);
      var trend := prevTrend;
      if |delayHist| == WINDOW_SIZE {
        var slope := LinearFitSlope(delayHist);
        trend := if slope.Some? then slope.value else trend;
      }
      Detect(trend, s.sendDelta as real, s.arrivalTime);
    }
  }
}
