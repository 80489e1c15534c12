/** The pacing step with the debt kept as a running balance.

    Positive debt means playback is behind schedule. After each frame the
    debt grows by the time the frame actually took (render plus sleep) minus
    one frame interval, so the debt is always the total wall-clock drift of
    the frames shown so far. This is the behaviour the loop's comments and
    its "make up time later" design describe; the loop as written (module
    Pacing) instead resets the debt to the last frame's own slack.
 */
module PacingFixed {
  import opened Pacing

  /** One frame of pacing that carries forward what it could not correct. */
  function FixedStep(frameTime: real, renderTime: real, debt: real): (r: StepResult)
    ensures r.sleep >= 0
    // conservation: the debt grows by exactly this frame's overrun of its interval
    ensures r.debt == debt + renderTime + r.sleep as real - frameTime
    // the whole target fits: the sleep absorbs it up to the floor remainder,
    // which is left as a small credit
    ensures renderTime + debt <= frameTime ==> -1.0 < r.debt <= 0.0
    // the target does not fit: no sleep, and the excess is carried forward
    ensures renderTime + debt > frameTime ==> r.sleep == 0 && r.debt == renderTime + debt - frameTime
  {
    var makeupTarget := renderTime + debt;
    var correction := Min(makeupTarget, frameTime);
    var toWait := frameTime - correction;
    var sleep := toWait.Floor;
    StepResult(sleep, makeupTarget - correction - (toWait - sleep as real))
  }

  /** The corrected pacing loop as a fold over the render times, debt starting at 0. */
  function FixedPace(frameTime: real, renderTimes: seq<real>): (p: Playback)
    ensures renderTimes == [] ==> p == Playback([], 0.0)
    ensures |p.sleeps| == |renderTimes|
    ensures forall i :: 0 <= i < |p.sleeps| ==> p.sleeps[i] >= 0
    decreases |renderTimes|
  {
    if renderTimes == [] then Playback([], 0.0)
    else
      var before := FixedPace(frameTime, renderTimes[..|renderTimes| - 1]);
      var s := FixedStep(frameTime, renderTimes[|renderTimes| - 1], before.debt);
      Playback(before.sleeps + [s.sleep], s.debt)
  }

  lemma OneMoreInterval(n: nat, frameTime: real)
    ensures (n + 1) as real * frameTime == n as real * frameTime + frameTime
  {
  }

  /** The final debt is exactly the drift: time spent rendering and sleeping
      minus the time the frames were due to take, one interval each. */
  lemma {:induction false} FixedPaceConserves(frameTime: real, renderTimes: seq<real>)
    ensures FixedPace(frameTime, renderTimes).debt ==
            SumReal(renderTimes) + Sum(FixedPace(frameTime, renderTimes).sleeps) as real
            - |renderTimes| as real * frameTime
    decreases |renderTimes|
  {
    if renderTimes != [] {
      var n := |renderTimes|;
      var shorter := renderTimes[..n - 1];
      var before := FixedPace(frameTime, shorter);
      var step := FixedStep(frameTime, renderTimes[n - 1], before.debt);
      var sleeps := FixedPace(frameTime, renderTimes).sleeps;
      var dueBefore, due := |shorter| as real * frameTime, n as real * frameTime;
      assert before.debt == SumReal(shorter) + Sum(before.sleeps) as real - dueBefore by {
        FixedPaceConserves(frameTime, shorter);
      }
      assert Sum(sleeps) == Sum(before.sleeps) + step.sleep by {
        assert sleeps[..|sleeps| - 1] == before.sleeps;
      }
      assert due == dueBefore + frameTime by {
        OneMoreInterval(|shorter|, frameTime);
      }
    }
  }

  /** While every frame renders within one interval, the debt stays in (-1, 0]. */
  lemma {:induction false} FixedPaceDebtBounded(frameTime: real, renderTimes: seq<real>)
    requires forall i :: 0 <= i < |renderTimes| ==> renderTimes[i] <= frameTime
    ensures -1.0 < FixedPace(frameTime, renderTimes).debt <= 0.0
    decreases |renderTimes|
  {
    if renderTimes != [] {
      FixedPaceDebtBounded(frameTime, renderTimes[..|renderTimes| - 1]);
    }
  }

  /** Bounded drift: while every frame renders within one interval, `n` frames take
      `n` intervals to within one millisecond, however many there are. */
  lemma FixedDriftBounded(frameTime: real, renderTimes: seq<real>)
    requires forall i :: 0 <= i < |renderTimes| ==> renderTimes[i] <= frameTime
    ensures var elapsed := SumReal(renderTimes) + Sum(FixedPace(frameTime, renderTimes).sleeps) as real;
      |renderTimes| as real * frameTime - 1.0 < elapsed <= |renderTimes| as real * frameTime
  {
    FixedPaceConserves(frameTime, renderTimes);
    FixedPaceDebtBounded(frameTime, renderTimes);
  }

  /** Three instant frames at 30 frames per second sleep 33, 33 and 34 ms. */
  lemma FixedThirtyFpsScenario()
    ensures FixedPace(ThirtyFps, [0.0, 0.0, 0.0]).sleeps == [33, 33, 34]
  {
  }

  /** A frame that renders in two intervals is followed by a frame that does not
      sleep at all: the overrun is made up instead of waited out. */
  lemma FixedOverrunShortensNextSleep(frameTime: real)
    requires frameTime > 0.0
    ensures FixedPace(frameTime, [2.0 * frameTime, 0.0]).sleeps == [0, 0]
    ensures FixedPace(frameTime, [2.0 * frameTime, 0.0]).debt == 0.0
  {
  }
}
