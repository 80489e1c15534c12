# ConsoleVideoPlayer: frame pacing and frame ordering

This project models the playback core of ConsoleVideoPlayer, a terminal video player that shows
pre-rendered text-art frames in step with an audio track. It covers two parts of the player:

- **Frame pacing** (`PlayAllFrames`). Each frame is written at the top-left of the console, and its
  render time is measured. The render time plus the carried "time debt" is the makeup target. The
  correction is the makeup target capped at one frame interval (`1000 / frameRate` ms). If the
  target overruns the interval, the debt is adjusted. The wait is what remains of the interval; it
  is floored to whole milliseconds, and the floor remainder is added to the debt. Then the player
  sleeps.
- **Frame ordering** (`ConvertAllImagesToAscii`). The raw frame images are sorted by the integer
  between a 6-character prefix and a 4-character extension of their names, read with
  `Convert.ToInt32`, using the stable `OrderBy`. The sorted images are then converted one by one,
  and one text frame per file is appended in that order.

Modules:

- `Pacing` (pacing.dfy): the per-frame `Step` with the code's own signs and the fold `Pace` over
  the measured render times, with their properties.
- `PacingFixed` (pacing_fixed.dfy): the step with the debt kept as a running balance (see
  Findings).
- `FrameOrder` (frame_order.dfy): the name slice, the Int32 parse, the stable sort by key and the
  ordering of the frame files.
- `Player` (player.dfy): the two loops as methods. The console is modelled as the list of
  operations issued on it. The clock is the render time measured for each frame, supplied by the
  caller. The image converter (`Converter.ProcessImage`) is a function parameter.

Times are exact reals, in milliseconds.

## Model

| member | source | states |
|---|---|---|
| `Pacing.FrameInterval` | ConsoleVideoPlayer.Player/Program.cs:145 | the frame interval is positive and frame interval × frame rate = 1000 ms |
| `Pacing.Min` | ConsoleVideoPlayer.Player/Program.cs:165 | `Math.Min`: the result is one of the two arguments and is at most either |
| `Pacing.Step` | ConsoleVideoPlayer.Player/Program.cs:160-172 | the sleep is never negative. With makeup target ≤ interval, the sleep is the floor of `frameTime - renderTime - debt` and the debt grows by the remainder, which is in [0, 1). With makeup target > interval, the sleep is 0 and the new debt is `frameTime - renderTime`. In both branches the new debt equals this frame's slack `frameTime - renderTime - sleep`. A sleep longer than one interval needs a negative makeup target, and with a non-negative target the sleep is at most floor(frameTime) |
| `Pacing.Pace` | ConsoleVideoPlayer.Player/Program.cs:145-176 | the debt starts at 0, and no frames give no sleeps and debt 0. There is one sleep per frame, every sleep is ≥ 0, and the final debt is the last frame's slack |
| `Pacing.PacePrefix` | ConsoleVideoPlayer.Player/Program.cs:151-176 | pacing the first n frames yields the first n sleeps: a sleep never depends on later frames |
| `Pacing.PaceAt` | ConsoleVideoPlayer.Player/Program.cs:151-176 | sleep i is `Step` applied to render time i and the debt left by frames 0..i-1, and that step yields the debt after frame i |
| `Pacing.PaceExtend` | ConsoleVideoPlayer.Player/Program.cs:151-176 | pacing one more frame appends exactly one sleep and replaces the debt by that step's debt |
| `Pacing.PaceWithinInterval` | ConsoleVideoPlayer.Player/Program.cs:163-172 | if every render time is in [0, interval], the debt stays in [0, interval] and no sleep exceeds floor(interval) |
| `Pacing.AsWrittenConstantRender` | ConsoleVideoPlayer.Player/Program.cs:163-172 | for any interval and any render time r in [0, interval] shared by all n frames, every frame sleeps floor(interval − r) and the debt stays at the floor remainder; each frame therefore ends that remainder early |
| `Pacing.ThirtyFpsSleeps` | ConsoleVideoPlayer.Player/Program.cs:163-172 | at 30 fps with instant frames, every one of n frames sleeps 33 ms and the debt stays at 1/3 ms |
| `Pacing.AsWrittenDrift` | ConsoleVideoPlayer.Player/Program.cs:163-172 | at 30 fps with instant frames, n frames finish n/3 ms early; from 101 frames on that is more than one interval |
| `Pacing.AsWrittenThirtyFpsScenario` | ConsoleVideoPlayer.Player/Program.cs:163-172 | three instant frames at 30 fps sleep 33, 33 and 33 ms |
| `Pacing.AsWrittenOverrunLengthensNextSleep` | ConsoleVideoPlayer.Player/Program.cs:163-172 | a frame rendering in two intervals sleeps 0, and the next instant frame sleeps floor(2 × interval) ms, longer than one interval |
| `PacingFixed.FixedStep` | ConsoleVideoPlayer.Player/Program.cs:163-172 | corrected step: the sleep is ≥ 0, and the debt grows by exactly render + sleep − interval. When the target fits, the debt lands in (−1, 0]. When it does not, the sleep is 0 and the excess is carried |
| `PacingFixed.FixedPace` | ConsoleVideoPlayer.Player/Program.cs:145-176 | corrected fold: one non-negative sleep per frame; no frames give debt 0 |
| `PacingFixed.FixedPaceConserves` | ConsoleVideoPlayer.Player/Program.cs:163-172 | corrected fold: the final debt equals the total render and sleep time minus n intervals, for n frames |
| `PacingFixed.FixedPaceDebtBounded` | ConsoleVideoPlayer.Player/Program.cs:163-172 | corrected fold: with every render time ≤ interval, the debt stays in (−1, 0] |
| `PacingFixed.FixedDriftBounded` | ConsoleVideoPlayer.Player/Program.cs:163-172 | corrected fold: with every render time ≤ interval, n frames take n intervals to within 1 ms (never more), for any n |
| `PacingFixed.FixedThirtyFpsScenario` | ConsoleVideoPlayer.Player/Program.cs:163-172 | corrected fold: three instant frames at 30 fps sleep 33, 33 and 34 ms |
| `PacingFixed.FixedOverrunShortensNextSleep` | ConsoleVideoPlayer.Player/Program.cs:163-172 | corrected fold: after a frame rendering in two intervals, the next instant frame sleeps 0 and the debt is back to 0 |
| `FrameOrder.IndexText` | ConsoleVideoPlayer.Player/Program.cs:130 | `Name[6 .. Length-4]` exists exactly when the name has at least 10 characters (counted as Unicode scalar values, see Left out) (otherwise the range is rejected), and the name is prefix + slice + extension |
| `FrameOrder.Decimal` | ConsoleVideoPlayer.Player/Program.cs:130 | the decimal numeral of a number is a non-empty digit string with no leading zero |
| `FrameOrder.DecimalRoundTrip` | ConsoleVideoPlayer.Player/Program.cs:130 | reading back the decimal numeral of n gives n |
| `FrameOrder.LeadingZero` | ConsoleVideoPlayer.Player/Program.cs:130 | a leading zero does not change the number read ("frame_007.png" has key 7) |
| `FrameOrder.ParseInt32` | ConsoleVideoPlayer.Player/Program.cs:130 | `Convert.ToInt32` on digits: success exactly for a non-empty digit string of value ≤ Int32.MaxValue, with that value. An empty or non-digit text is a format error; a larger value is an overflow |
| `FrameOrder.FrameKey` | ConsoleVideoPlayer.Player/Program.cs:130 | the key is read exactly when the name has ≥ 10 characters (Unicode scalar values, see Left out) and its middle is a numeral ≤ Int32.MaxValue; a too-short name is an error |
| `FrameOrder.FrameKeyOfNumberedName` | ConsoleVideoPlayer.Player/Program.cs:130 | any frame number ≤ Int32.MaxValue written between a 6-character prefix and a 4-character extension is read back as the key |
| `FrameOrder.FirstKeyError` | ConsoleVideoPlayer.Player/Program.cs:128-131 | no error exactly when every key can be read |
| `FrameOrder.FirstKeyErrorIsFirst` | ConsoleVideoPlayer.Player/Program.cs:128-131 | an error reported is that of a file whose key fails, with every earlier file's key read |
| `FrameOrder.WithKey` | ConsoleVideoPlayer.Player/Program.cs:130 | the elements kept all have the given key |
| `FrameOrder.Insert` | ConsoleVideoPlayer.Player/Program.cs:130 | insertion adds one element and puts it first or keeps the first element |
| `FrameOrder.InsertPermutes` | ConsoleVideoPlayer.Player/Program.cs:130 | insertion adds exactly the inserted element |
| `FrameOrder.InsertSorted` | ConsoleVideoPlayer.Player/Program.cs:130 | insertion into a list sorted by key keeps it sorted |
| `FrameOrder.SortBy` | ConsoleVideoPlayer.Player/Program.cs:130 | `OrderBy` keeps the number of elements |
| `FrameOrder.SortBySortedPermutes` | ConsoleVideoPlayer.Player/Program.cs:130 | `OrderBy` yields ascending keys and a permutation of its input |
| `FrameOrder.InsertWithKey` | ConsoleVideoPlayer.Player/Program.cs:130 | insertion places the element before all others of equal key |
| `FrameOrder.SortByStable` | ConsoleVideoPlayer.Player/Program.cs:130 | `OrderBy` is stable: for every key, the elements with that key come out in their input order |
| `FrameOrder.OrderFiles` | ConsoleVideoPlayer.Player/Program.cs:128-130 | ordering succeeds exactly when every file's key can be read, and then keeps the number of files |
| `FrameOrder.OrderFilesSpec` | ConsoleVideoPlayer.Player/Program.cs:128-131 | the ordered files are a permutation of the enumerated files, ascending by frame number, and files of equal number keep enumeration order. A failure is the error of some file whose key fails, with no earlier file failing |
| `FrameOrder.NumericNotLexical` | ConsoleVideoPlayer.Player/Program.cs:128-130 | "frame_10.png" precedes "frame_2.png" as text, yet frame 2 is ordered before frame 10 |
| `Player.Trace` | ConsoleVideoPlayer.Player/Program.cs:149-176 | the console operations up to frame k: cursor hidden, then three operations per frame |
| `Player.TraceExtend` | ConsoleVideoPlayer.Player/Program.cs:151-176 | one more frame appends cursor-home, the frame's write and its sleep |
| `Player.TraceWrittenSlept` | ConsoleVideoPlayer.Player/Program.cs:151-176 | the texts written are the frames so far, in order, and the sleeps issued are the sleeps so far, in order |
| `Player.PlaybackOps` | ConsoleVideoPlayer.Player/Program.cs:149-178 | a whole playback starts by hiding the cursor and ends by showing it. It writes each frame exactly once in frame order and issues exactly one sleep per frame in frame order |
| `Player.PlayAllFrames` | ConsoleVideoPlayer.Player/Program.cs:143-179 | the loop issues exactly the operations `Trace(frames, Pace(1000 / frameRate, renderTimes).sleeps)` followed by showing the cursor, and leaves the debt `Pace` computes |
| `Player.ConvertAllImagesToAscii` | ConsoleVideoPlayer.Player/Program.cs:120-141 | if a key cannot be read, the conversion fails with that error. Otherwise it returns one converted frame per file, frame i being the converter applied to the i-th ordered file's path and the target size |

## Left out

- Console effects: cursor position, cursor visibility, `Console.Write`, `Clear` and `ReadLine`
  (Program.cs:65-66, 78, 149-158, 178). They are modelled only as the `ConsoleOp` list the loop
  issues; nothing about a real terminal is modelled.
- The clock and sleeping: each `DateTime.Now` pair (Program.cs:154, 161) becomes one render time
  supplied by the caller, and `Thread.Sleep` (Program.cs:175) becomes a `Sleep` operation. Time
  spent outside the measured write is not modelled.
- Floating point: times are exact reals, so IEEE-754 rounding of `1000 / frameRate` and of the debt
  sums is not modelled.
- Pacing.Step: `Convert.ToInt32(Math.Floor(toWait))` overflowing for waits above Int32.MaxValue ms,
  and `TimeSpan` limits, are not modelled; the sleep is an unbounded integer.
- Player.PlayAllFrames: a write that throws is not modelled. The code has no `finally`, so such a
  fault would leave the cursor hidden. The frame rate is required to be positive, although the code
  never checks it (Program.cs:145, with the rate passed on from Program.cs:48 and :72). A rate of 0
  or NaN makes the interval infinite or NaN, so `Convert.ToInt32(Math.Floor(toWait))` (Program.cs:172)
  throws an `OverflowException` on the first frame and the cursor stays hidden. A negative rate runs
  the loop with a negative interval. Neither path is modelled.
- FrameOrder.IndexText: names are sequences of Unicode scalar values, while `Name.Length` and the
  range at Program.cs:130 count UTF-16 code units. A name with a character outside the Basic
  Multilingual Plane is therefore sliced differently ("😀ram_1.png" has key 1 in the program but is
  `NotANumber` here), and `FrameOrder.FrameKey` inherits the difference.
- FrameOrder.ParseInt32: only unsigned decimal digits are read. `Convert.ToInt32` also accepts
  surrounding white space and a sign, and under other cultures other forms; such names give
  `NotANumber` here where the program would read a key.
- Directory enumeration: the files are an input sequence in enumeration order. File-system access
  (`DirectoryInfo.EnumerateFiles`, `Directory.Delete`/`CreateDirectory`,
  `File.ReadAllBytes`/`WriteAllBytes`) is not modelled.
- `Converter.ProcessImage` (Program.cs:133-134) belongs to the image-to-text project and is a
  function parameter here.
- The progress messages and their timings (Program.cs:123-125, 138).
- `Main`, `MainAsync` and `ProcessArgs` (Program.cs:18-95): argument parsing and plumbing.
- `PreProcess` (Program.cs:98-118): media decoding and audio extraction through ffmpeg.
- Audio playback (Program.cs:82): started and never awaited, so it is a concurrency concern outside
  this model.
- The saved-frames container: `SavedFrames.Save` and `FrameIO.ReadFrames` (Program.cs:53-58, 70)
  are not part of this model, so no save/load round trip is stated.
- ConsoleVideoPlayer.Tests/PreProcessorTests.cs checks the external decoder only.

## Findings

The player model (`Pacing.Step`, `Pacing.Pace`, `Player.PlayAllFrames`) follows the code as
written, since that is what the program does. `PacingFixed` holds the corrected step and fold, with
the intended properties proved about them.

| source | as written | input that shows it | evidently intended | confidence | as-written member | corrected member |
|---|---|---|---|---|---|---|
| ConsoleVideoPlayer.Player/Program.cs:166-170 | Without an overrun the debt is never reduced by the correction it paid for, and only the floor remainder is added. Every frame therefore re-applies the same remainder, and after any frame the debt equals that frame's own slack. Drift is not bounded. | 30 fps, every render time 0: sleeps 33, 33, 33, … After n frames the frames have taken n/3 ms less than due, which is more than one interval from frame 101 on. In general, any constant render time r in [0, interval] gives sleeps of floor(interval − r) on every frame, as `Pacing.AsWrittenConstantRender` states. | Carry the debt as a running balance: new debt = debt + render + sleep − interval. Three instant frames then sleep 33, 33 and 34 ms, and the drift stays within 1 ms. | medium; not executed | `Pacing.AsWrittenDrift` | `PacingFixed.FixedDriftBounded` |
| ConsoleVideoPlayer.Player/Program.cs:167-168 | On an overrun the code adds `frameTime - makeupTarget`. This sets the debt to `frameTime - renderTime`, which is negative after a slow frame, so the next frame waits longer instead of making up time. | interval ≥ 1 ms, render times [2 × interval, 0]: sleeps 0 and floor(2 × interval) | Carry the excess `makeupTarget - frameTime` forward, so the next instant frame sleeps 0. | medium; not executed | `Pacing.AsWrittenOverrunLengthensNextSleep` | `PacingFixed.FixedOverrunShortensNextSleep` |
