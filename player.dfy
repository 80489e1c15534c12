/** The player's two loops: converting the ordered frame images, and playing
    the converted frames at the source's frame rate.

    The console is modelled by the list of operations the player issues on
    it; the wall clock by the render time measured for each frame, which the
    caller supplies; the image converter by a function parameter.
 */
module Player {
  import opened Pacing
  import opened FrameOrder

  /** One operation the playback loop performs on the console. */
  datatype ConsoleOp =
    | HideCursor
    | ShowCursor
    | Home              // cursor to column 0, row 0
    | Write(text: string)
    | Sleep(ms: int)

  /** The operations issued up to the sleep of frame `|sleeps| - 1`: hide the cursor,
      then per frame home the cursor, write the frame and sleep. */
  function Trace(frames: seq<string>, sleeps: seq<int>): (ops: seq<ConsoleOp>)
    requires |sleeps| <= |frames|
    ensures |ops| == 3 * |sleeps| + 1
    decreases |sleeps|
  {
    if sleeps == [] then [HideCursor]
    else Trace(frames, sleeps[..|sleeps| - 1])
         + [Home, Write(frames[|sleeps| - 1]), Sleep(sleeps[|sleeps| - 1])]
  }

  /** The texts written, in order. */
  function Written(ops: seq<ConsoleOp>): seq<string>
    decreases |ops|
  {
    if ops == [] then []
    else Written(ops[..|ops| - 1]) + (if ops[|ops| - 1].Write? then [ops[|ops| - 1].text] else [])
  }

  /** The sleeps issued, in order. */
  function Slept(ops: seq<ConsoleOp>): seq<int>
    decreases |ops|
  {
    if ops == [] then []
    else Slept(ops[..|ops| - 1]) + (if ops[|ops| - 1].Sleep? then [ops[|ops| - 1].ms] else [])
  }

  lemma {:induction false} WrittenAppend(a: seq<ConsoleOp>, b: seq<ConsoleOp>)
    ensures Written(a + b) == Written(a) + Written(b)
    decreases |b|
  {
    if b == [] {
      assert a + b == a;
    } else {
      var ab := a + b;
      WrittenAppend(a, b[..|b| - 1]);
      assert ab[..|ab| - 1] == a + b[..|b| - 1];
      assert ab[|ab| - 1] == b[|b| - 1];
    }
  }

  lemma {:induction false} SleptAppend(a: seq<ConsoleOp>, b: seq<ConsoleOp>)
    ensures Slept(a + b) == Slept(a) + Slept(b)
    decreases |b|
  {
    if b == [] {
      assert a + b == a;
    } else {
      var ab := a + b;
      SleptAppend(a, b[..|b| - 1]);
      assert ab[..|ab| - 1] == a + b[..|b| - 1];
      assert ab[|ab| - 1] == b[|b| - 1];
    }
  }

  lemma OneFrameOps(frame: string, sleep: int)
    ensures Written([Home, Write(frame), Sleep(sleep)]) == [frame]
    ensures Slept([Home, Write(frame), Sleep(sleep)]) == [sleep]
  {
    var ops := [Home, Write(frame), Sleep(sleep)];
    assert ops[..2] == [Home, Write(frame)] && ops[..2][..1] == [Home] && [Home][..0] == [];
    assert Written([Home]) == [] && Slept([Home]) == [];
    assert Written([Home, Write(frame)]) == [frame] && Slept([Home, Write(frame)]) == [];
  }

  lemma TraceExtend(frames: seq<string>, sleeps: seq<int>, sleep: int)
    requires |sleeps| < |frames|
    ensures Trace(frames, sleeps + [sleep])
         == Trace(frames, sleeps) + [Home, Write(frames[|sleeps|]), Sleep(sleep)]
  {
  }

  /** The operations so far write each frame once, each followed by exactly one
      sleep, in frame order. */
  lemma {:induction false} TraceWrittenSlept(frames: seq<string>, sleeps: seq<int>)
    requires |sleeps| <= |frames|
    ensures Written(Trace(frames, sleeps)) == frames[..|sleeps|]
    ensures Slept(Trace(frames, sleeps)) == sleeps
    decreases |sleeps|
  {
    if sleeps == [] {
      assert [HideCursor][..0] == [];
    } else {
      var n := |sleeps| - 1;
      TraceWrittenSlept(frames, sleeps[..n]);
      var tail := [Home, Write(frames[n]), Sleep(sleeps[n])];
      WrittenAppend(Trace(frames, sleeps[..n]), tail);
      SleptAppend(Trace(frames, sleeps[..n]), tail);
      OneFrameOps(frames[n], sleeps[n]);
      assert frames[..n + 1] == frames[..n] + [frames[n]];
      assert sleeps == sleeps[..n] + [sleeps[n]];
    }
  }

  /** The whole playback writes every frame once and sleeps once per frame, in frame
      order, between hiding the cursor and showing it again. */
  lemma PlaybackOps(frames: seq<string>, sleeps: seq<int>)
    requires |sleeps| == |frames|
    ensures var ops := Trace(frames, sleeps) + [ShowCursor];
      ops[0] == HideCursor && ops[|ops| - 1] == ShowCursor &&
      Written(ops) == frames && Slept(ops) == sleeps
  {
    var ops := Trace(frames, sleeps);
    TraceWrittenSlept(frames, sleeps);
    WrittenAppend(ops, [ShowCursor]);
    SleptAppend(ops, [ShowCursor]);
    assert [ShowCursor][..0] == [];
    assert frames[..|sleeps|] == frames;
    TraceStartsHidden(frames, sleeps);
  }

  lemma {:induction false} TraceStartsHidden(frames: seq<string>, sleeps: seq<int>)
    requires |sleeps| <= |frames|
    ensures Trace(frames, sleeps)[0] == HideCursor
    decreases |sleeps|
  {
    if sleeps != [] {
      TraceStartsHidden(frames, sleeps[..|sleeps| - 1]);
    }
  }

  /** `PlayAllFrames`: hides the cursor, then for every frame writes it at the origin,
      takes the measured render time, works out the corrected wait with `Step` and
      sleeps; finally shows the cursor again. Returns the console operations and the
      final debt. */
  method PlayAllFrames(frames: seq<string>, frameRate: real, renderTimes: seq<real>)
    returns (ops: seq<ConsoleOp>, timeDebt: real)
    requires frameRate > 0.0
    requires |renderTimes| == |frames|
    ensures ops == Trace(frames, Pace(FrameInterval(frameRate), renderTimes).sleeps) + [ShowCursor]
    ensures timeDebt == Pace(FrameInterval(frameRate), renderTimes).debt
  {
    var frameTime := FrameInterval(frameRate);
    timeDebt := 0.0;
    ops := [HideCursor];
    var sleeps: seq<int> := [];
    for i := 0 to |frames|
      invariant |sleeps| == i
      invariant sleeps == Pace(frameTime, renderTimes[..i]).sleeps
      invariant timeDebt == Pace(frameTime, renderTimes[..i]).debt
      invariant ops == Trace(frames, sleeps)
    {
      var step := Step(frameTime, renderTimes[i], timeDebt);
      ops := ops + [Home, Write(frames[i]), Sleep(step.sleep)];
      PaceExtend(frameTime, renderTimes, i);
      TraceExtend(frames, sleeps, step.sleep);
      timeDebt := step.debt;
      sleeps := sleeps + [step.sleep];
    }
    assert renderTimes[..|frames|] == renderTimes;
    assert sleeps == Pace(frameTime, renderTimes).sleeps;
    ops := ops + [ShowCursor];
  }

  /** `ConvertAllImagesToAscii`: orders the frame images by frame number and converts
      each, appending the text to the result, one per file in that order. Reading a
      key that fails aborts the whole conversion before any image is converted. */
  method ConvertAllImagesToAscii(files: seq<FrameFile>, targetWidth: int, targetHeight: int,
                                 processImage: (string, int, int) -> string)
    returns (r: Result<seq<string>>)
    ensures OrderFiles(files).Err? ==> r == Err(OrderFiles(files).error)
    ensures OrderFiles(files).Ok? ==>
      r.Ok? && |r.value| == |files| &&
      forall i :: 0 <= i < |files| ==>
        r.value[i] == processImage(OrderFiles(files).value[i].fullName, targetWidth, targetHeight)
  {
    var ordered := OrderFiles(files);
    if ordered.Err? {
      return Err(ordered.error);
    }
    var working: seq<string> := [];
    for i := 0 to |ordered.value|
      invariant |working| == i
      invariant forall j :: 0 <= j < i ==>
        working[j] == processImage(ordered.value[j].fullName, targetWidth, targetHeight)
    {
      var ascii := processImage(ordered.value[i].fullName, targetWidth, targetHeight);
      working := working + [ascii];
    }
    return Ok(working);
  }
}
