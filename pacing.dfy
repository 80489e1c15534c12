/** The per-frame "time debt" arithmetic of the playback loop, as written.

    Times are milliseconds, modelled as exact reals. A frame's render time
    is measured by the caller; the step turns it, together with the debt
    carried from the previous frame, into a whole number of milliseconds
    to sleep and the debt carried to the next frame.
 */
module Pacing {

  /** What one frame of pacing produces: the sleep issued and the debt carried on. */
  datatype StepResult = StepResult(sleep: int, debt: real)

  /** The sleeps of a whole playback, one per frame in frame order, and the final debt. */
  datatype Playback = Playback(sleeps: seq<int>, debt: real)

  /** Milliseconds between two frames at `frameRate` frames per second. */
  function FrameInterval(frameRate: real): (frameTime: real)
    requires frameRate > 0.0
    ensures frameTime > 0.0
    ensures frameTime * frameRate == 1000.0
  {
    1000.0 / frameRate
  }

  /** `Math.Min` on two doubles (NaN aside). */
  function Min(a: real, b: real): (m: real)
    ensures m <= a && m <= b
    ensures m == a || m == b
  {
    if a <= b then a else b
  }

  /** One iteration of the pacing loop, with the code's own signs.
      The overrun branch adds `frameTime - makeupTarget` to the debt and the
      floor remainder of the wait is added to the debt as well. */
  function Step(frameTime: real, renderTime: real, debt: real): (r: StepResult)
    // the sleep is never negative, whatever the debt
    ensures r.sleep >= 0
    // without an overrun: the wait is what is left of the interval, floored,
    // and the debt grows by the floor remainder, which lies in [0, 1)
    ensures renderTime + debt <= frameTime ==>
      r.sleep as real <= frameTime - renderTime - debt < r.sleep as real + 1.0 &&
      r.debt - debt == frameTime - renderTime - debt - r.sleep as real &&
      0.0 <= r.debt - debt < 1.0
    // with an overrun: no sleep, and the old debt cancels out of the new one
    ensures renderTime + debt > frameTime ==> r.sleep == 0 && r.debt == frameTime - renderTime
    // in both branches the new debt is this frame's own slack
    ensures r.debt == frameTime - renderTime - r.sleep as real
    // a frame waits longer than one interval only for a negative makeup target
    ensures frameTime >= 0.0 && r.sleep as real > frameTime ==> renderTime + debt < 0.0
    ensures frameTime >= 0.0 && renderTime + debt >= 0.0 ==> r.sleep <= frameTime.Floor
  {
    var makeupTarget := renderTime + debt;
    var correction := Min(makeupTarget, frameTime);
    var afterOverrun := if makeupTarget > frameTime then debt + (frameTime - makeupTarget) else debt;
    var toWait := frameTime - correction;
    StepResult(toWait.Floor, afterOverrun + (toWait - toWait.Floor as real))
  }

  /** The pacing loop as a fold over the measured render times, debt starting at 0. */
  function Pace(frameTime: real, renderTimes: seq<real>): (p: Playback)
    ensures renderTimes == [] ==> p == Playback([], 0.0)
    ensures |p.sleeps| == |renderTimes|
    ensures forall i :: 0 <= i < |p.sleeps| ==> p.sleeps[i] >= 0
    ensures renderTimes != [] ==>
      p.debt == frameTime - renderTimes[|renderTimes| - 1] - p.sleeps[|p.sleeps| - 1] as real
    decreases |renderTimes|
  {
    if renderTimes == [] then Playback([], 0.0)
    else
      var before := Pace(frameTime, renderTimes[..|renderTimes| - 1]);
      var s := Step(frameTime, renderTimes[|renderTimes| - 1], before.debt);
      Playback(before.sleeps + [s.sleep], s.debt)
  }

  /** Pacing a prefix of the frames gives a prefix of the sleeps. */
  lemma {:induction false} PacePrefix(frameTime: real, renderTimes: seq<real>, n: nat)
    requires n <= |renderTimes|
    ensures Pace(frameTime, renderTimes[..n]).sleeps == Pace(frameTime, renderTimes).sleeps[..n]
    decreases |renderTimes|
  {
    if n < |renderTimes| {
      var shorter := renderTimes[..|renderTimes| - 1];
      assert shorter[..n] == renderTimes[..n];
      PacePrefix(frameTime, shorter, n);
    } else {
      assert renderTimes[..n] == renderTimes;
    }
  }

  /** The sleep of frame `i` is one `Step` applied to frame `i`'s render time and
      the debt left by the frames before it, and that step yields the next debt. */
  lemma PaceAt(frameTime: real, renderTimes: seq<real>, i: nat)
    requires i < |renderTimes|
    ensures var s := Step(frameTime, renderTimes[i], Pace(frameTime, renderTimes[..i]).debt);
      Pace(frameTime, renderTimes).sleeps[i] == s.sleep &&
      Pace(frameTime, renderTimes[..i + 1]).debt == s.debt
  {
    assert renderTimes[..i + 1][..i] == renderTimes[..i];
    PacePrefix(frameTime, renderTimes, i + 1);
  }

  /** Pacing one more frame appends one sleep and replaces the debt. */
  lemma PaceExtend(frameTime: real, renderTimes: seq<real>, i: nat)
    requires i < |renderTimes|
    ensures var before := Pace(frameTime, renderTimes[..i]);
      var s := Step(frameTime, renderTimes[i], before.debt);
      Pace(frameTime, renderTimes[..i + 1]) == Playback(before.sleeps + [s.sleep], s.debt)
  {
    assert renderTimes[..i + 1][..i] == renderTimes[..i];
  }

  /** While every frame renders within one interval, the debt stays in [0, frameTime]
      and no frame sleeps longer than one interval. */
  lemma {:induction false} PaceWithinInterval(frameTime: real, renderTimes: seq<real>)
    requires frameTime >= 0.0
    requires forall i :: 0 <= i < |renderTimes| ==> 0.0 <= renderTimes[i] <= frameTime
    ensures 0.0 <= Pace(frameTime, renderTimes).debt <= frameTime
    ensures forall i :: 0 <= i < |renderTimes| ==> Pace(frameTime, renderTimes).sleeps[i] <= frameTime.Floor
    decreases |renderTimes|
  {
    if renderTimes != [] {
      var shorter := renderTimes[..|renderTimes| - 1];
      PaceWithinInterval(frameTime, shorter);
      var before := Pace(frameTime, shorter);
      var s := Step(frameTime, renderTimes[|renderTimes| - 1], before.debt);
      assert Pace(frameTime, renderTimes).sleeps == before.sleeps + [s.sleep];
    }
  }

  /** `n` copies of `x`: frames that all render in the same time, or the sleeps they get. */
  function Repeat<T>(x: T, n: nat): (s: seq<T>)
    ensures |s| == n
    ensures forall i :: 0 <= i < n ==> s[i] == x
  {
    seq(n, i => x)
  }

  function Sum(xs: seq<int>): int
    decreases |xs|
  {
    if xs == [] then 0 else Sum(xs[..|xs| - 1]) + xs[|xs| - 1]
  }

  function SumReal(xs: seq<real>): real
    decreases |xs|
  {
    if xs == [] then 0.0 else SumReal(xs[..|xs| - 1]) + xs[|xs| - 1]
  }

  /** As written, frames that all render in the same time `r` within one interval all
      sleep floor(frameTime - r): the debt settles at the floor remainder, which each
      frame re-applies and none pays out, so every frame ends that remainder early. */
  lemma {:induction false} AsWrittenConstantRender(frameTime: real, r: real, n: nat)
    requires 0.0 <= r <= frameTime
    requires n > 0
    ensures var w := (frameTime - r).Floor;
      Pace(frameTime, Repeat(r, n)) == Playback(Repeat(w, n), frameTime - r - w as real)
  {
    var w := (frameTime - r).Floor;
    if n == 1 {
      assert Repeat(r, 1)[..0] == [];
      assert Repeat(w, 1) == [w];
    } else {
      AsWrittenConstantRender(frameTime, r, n - 1);
      assert Repeat(r, n)[..n - 1] == Repeat(r, n - 1);
      assert (w as real).Floor == w;
      assert Repeat(w, n) == Repeat(w, n - 1) + [w];
    }
  }

  /** The interval at 30 frames per second, 33 1/3 ms. */
  const ThirtyFps: real := FrameInterval(30.0)

  /** At 30 frames per second with instant rendering, every frame sleeps 33 ms and
      the debt settles at 1/3 ms: the remainder is re-applied, never paid out. */
  lemma ThirtyFpsSleeps(n: nat)
    requires n > 0
    ensures Pace(ThirtyFps, Repeat(0.0, n)) == Playback(Repeat(33, n), 1.0 / 3.0)
  {
    assert ThirtyFps == 100.0 / 3.0;
    assert (100.0 / 3.0).Floor == 33;
    AsWrittenConstantRender(ThirtyFps, 0.0, n);
  }

  lemma {:induction false} SumRepeat(x: int, n: nat)
    ensures Sum(Repeat(x, n)) == x * n
  {
    if n > 0 {
      assert Repeat(x, n)[..n - 1] == Repeat(x, n - 1);
      SumRepeat(x, n - 1);
    }
  }

  /** As written, the wall-clock drift of instant frames at 30 frames per second is
      n/3 ms after n frames: it exceeds one frame interval from the 101st frame on. */
  lemma AsWrittenDrift(n: nat)
    requires n > 0
    ensures n as real * ThirtyFps - (SumReal(Repeat(0.0, n)) + Sum(Pace(ThirtyFps, Repeat(0.0, n)).sleeps) as real)
            == n as real / 3.0
    ensures n > 100 ==>
      n as real * ThirtyFps - (SumReal(Repeat(0.0, n)) + Sum(Pace(ThirtyFps, Repeat(0.0, n)).sleeps) as real) > ThirtyFps
  {
    ThirtyFpsSleeps(n);
    SumRepeat(33, n);
    SumZeros(n);
  }

  lemma {:induction false} SumZeros(n: nat)
    ensures SumReal(Repeat(0.0, n)) == 0.0
  {
    if n > 0 {
      assert Repeat(0.0, n)[..n - 1] == Repeat(0.0, n - 1);
      SumZeros(n - 1);
    }
  }

  /** Three instant frames at 30 frames per second sleep 33, 33 and 33 ms, not 33, 33 and 34. */
  lemma AsWrittenThirtyFpsScenario()
    ensures Pace(ThirtyFps, [0.0, 0.0, 0.0]).sleeps == [33, 33, 33]
  {
  }

  /** As written, a frame that renders in two intervals leaves a negative debt, so the
      next instant frame sleeps two intervals instead of making up the overrun. */
  lemma AsWrittenOverrunLengthensNextSleep(frameTime: real)
    requires frameTime >= 1.0
    ensures Pace(frameTime, [2.0 * frameTime, 0.0]).sleeps == [0, (2.0 * frameTime).Floor]
    ensures (2.0 * frameTime).Floor as real > frameTime
  {
  }
}
