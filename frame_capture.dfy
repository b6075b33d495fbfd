/**
 * The standalone capture worker (backend/scripts/generate_gif_standalone.py):
 * the probe and one-time re-injection of the time hijacker, the frame loop
 * that advances the virtual clock before every frame but the first, and the
 * parameters handed to the GIF writer.  A screenshot is an abstract function
 * of the page's virtual time; a screenshot taken while the hijacker is absent
 * is an abstract real-time frame.
 */
module FrameCapture {
  import opened Wrappers
  import opened VirtualClock
  import opened CliArgs

  /** What the worker's `except` turns into exit status 1. */
  datatype CaptureError =
    | DivisionByZero        // `1000.0 / fps` with fps == 0
    | NoFramesCaptured      // `duration * fps <= 0`: the loop never ran
    | AdvanceTimeMissing    // `window.advanceTime(...)` evaluated on a page without the hijacker

  /**
   * What `frames[0].save(...)` is asked to write: the frames in order, the
   * per-frame duration in ms, the loop count (0 = forever) and the disposal
   * method (2 = restore to background, the GIF89a Graphic Control Extension).
   */
  datatype GifFile<F> = GifFile(frames: seq<F>, delayMs: int, loop: nat, disposal: nat)

  const LoopForever: nat := 0
  const RestoreToBackground: nat := 2

  /** `total_frames = duration * fps`. */
  function TotalFrames(duration: int, fps: int): int {
    duration * fps
  }

  /** `frame_interval_ms = 1000.0 / fps`, as an exact real. */
  function FrameIntervalMs(fps: int): real
    requires fps != 0
  {
    1000.0 / fps as real
  }

  /** Python's `int(x)` on a number: truncation toward zero. */
  function Trunc(x: real): (n: int)
    ensures x >= 0.0 ==> n as real <= x < n as real + 1.0
    ensures x < 0.0 ==> n as real - 1.0 < x <= n as real
  {
    if x >= 0.0 then x.Floor else -((-x).Floor)
  }

  /** The GIF frame duration: `int(frame_interval_ms)`. */
  function GifDelayMs(fps: int): int
    requires fps != 0
  {
    Trunc(FrameIntervalMs(fps))
  }

  /** Whether the worker gets as far as writing the GIF. */
  predicate CaptureSucceeds(duration: int, fps: int, controlled: bool) {
    fps != 0 && TotalFrames(duration, fps) >= 1 && (controlled || TotalFrames(duration, fps) == 1)
  }

  lemma IntMulAsReal(a: int, b: int)
    ensures (a * b) as real == a as real * b as real
  {}

  lemma LeDivOfMulLe(p: real, a: real, b: real)
    requires b > 0.0 && p * b <= a
    ensures p <= a / b
  {}

  lemma DivLtOfLtMul(a: real, p: real, b: real)
    requires b > 0.0 && a < p * b
    ensures a / b < p
  {}

  /**
   * For a positive frame rate the delay is the integer quotient 1000 / fps:
   * truncated, never rounded up.
   */
  lemma GifDelayIsQuotient(fps: int)
    requires fps > 0
    ensures GifDelayMs(fps) == 1000 / fps
    ensures GifDelayMs(fps) * fps <= 1000 < (GifDelayMs(fps) + 1) * fps
  {
    var q := 1000 / fps;
    assert q * fps <= 1000 < q * fps + fps;
    assert (q + 1) * fps == q * fps + fps;
    IntMulAsReal(q, fps);
    IntMulAsReal(q + 1, fps);
    LeDivOfMulLe(q as real, 1000.0, fps as real);
    DivLtOfLtMul(1000.0, (q + 1) as real, fps as real);
  }

  /** At the default 30 fps each frame is shown for 33 ms, not 33.3 or 34. */
  lemma GifDelayAt30Fps()
    ensures GifDelayMs(30) == 33
  {
    GifDelayIsQuotient(30);
  }

  /**
   * Frame i is captured at virtual time i * 1000/fps but starts being shown at
   * i * delay: the truncation makes the GIF run fast by less than 1 ms per frame.
   */
  lemma PlaybackDrift(fps: int, i: nat)
    requires fps > 0
    ensures 0.0 <= i as real * FrameIntervalMs(fps) - i as real * GifDelayMs(fps) as real
    ensures i > 0 ==> i as real * FrameIntervalMs(fps) - i as real * GifDelayMs(fps) as real < i as real
  {
    DelayBand(fps);
    TruncationLag(FrameIntervalMs(fps), GifDelayMs(fps) as real, i as real);
  }

  /** The GIF delay is the frame interval rounded down to a whole millisecond. */
  lemma DelayBand(fps: int)
    requires fps > 0
    ensures GifDelayMs(fps) as real <= FrameIntervalMs(fps) < GifDelayMs(fps) as real + 1.0
  {
    LeDivOfMulLe(0.0, 1000.0, fps as real);
  }

  /** n copies of a value x that lies in the band [d, d + 1) exceed n copies of d by less than n. */
  lemma TruncationLag(x: real, d: real, n: real)
    requires n >= 0.0 && d <= x < d + 1.0
    ensures 0.0 <= n * x - n * d
    ensures n > 0.0 ==> n * x - n * d < n
  {
    assert n * x - n * d == n * (x - d);
    if n > 0.0 {
      assert n * (x - d) < n * 1.0;
    }
  }

  /** The virtual time of frame k when frame 0 is taken at `start`: one interval per advance. */
  function FrameTime(start: real, k: nat, interval: real): real {
    if k == 0 then start else FrameTime(start, k - 1, interval) + interval
  }

  lemma {:induction false} FrameTimeIsLinear(start: real, k: nat, interval: real)
    ensures FrameTime(start, k, interval) == start + k as real * interval
  {
    if k > 0 {
      FrameTimeIsLinear(start, k - 1, interval);
      assert (k - 1) as real * interval + interval == k as real * interval;
    }
  }

  /** The screenshots of frames 0 .. n-1 of a page whose clock starts at `start`. */
  function Shots<F>(render: real -> F, start: real, n: nat, interval: real): (s: seq<F>)
    ensures |s| == n
    ensures forall k :: 0 <= k < n ==> s[k] == render(FrameTime(start, k, interval))
  {
    if n == 0 then [] else Shots(render, start, n - 1, interval) + [render(FrameTime(start, n - 1, interval))]
  }

  /**
   * The frame loop of `generate_gif` (`for i in range(total_frames)`): before
   * every frame but the first, `window.advanceTime(frame_interval_ms)`; then a
   * screenshot.  Without the hijacker the first frame is still taken, and the
   * first advance fails.
   */
  method CaptureFrames<F>(clock: Clock, controlled: bool, total: int, interval: real,
                          render: real -> F, realTimeFrame: F)
    returns (r: Result<seq<F>, CaptureError>)
    requires clock.Valid()
    modifies clock
    ensures clock.Valid() && clock.dateRecurses == old(clock.dateRecurses)
    ensures r.Err? <==> !controlled && total >= 2
    ensures r.Err? ==> r.error == AdvanceTimeMissing
    ensures r.Ok? ==> |r.value| == if total < 0 then 0 else total
    ensures r.Ok? && controlled ==>
              r.value == Shots(render, old(clock.time), |r.value|, interval)
              && clock.time == FrameTime(old(clock.time), if total <= 0 then 0 else total - 1, interval)
    ensures r.Ok? && !controlled ==> r.value == (if total <= 0 then [] else [realTimeFrame])
  {
    ghost var start := clock.time;
    var frames: seq<F> := [];
    var i := 0;
    while i < total
      invariant 0 <= i && (total >= 0 ==> i <= total) && (total < 0 ==> i == 0)
      invariant |frames| == i
      invariant clock.Valid() && clock.dateRecurses == old(clock.dateRecurses)
      invariant controlled ==> frames == Shots(render, start, i, interval)
      invariant controlled && i == 0 ==> clock.time == start
      invariant controlled && i > 0 ==> clock.time == FrameTime(start, i - 1, interval)
      invariant !controlled ==> i <= 1 && (i == 1 ==> frames == [realTimeFrame])
    {
      if i > 0 {
        if !controlled {
          return Err(AdvanceTimeMissing);
        }
        clock.AdvanceTime(interval);
        assert clock.time == FrameTime(start, i, interval);
      }
      var shot := if controlled then render(clock.time) else realTimeFrame;
      frames := frames + [shot];
      i := i + 1;
    }
    return Ok(frames);
  }

  /**
   * `generate_gif` after the page has loaded.  `injected` is the probe's answer;
   * when it is false the script is evaluated once more and `reinjected` says
   * whether that installed it (which also resets the clock and, the script
   * having run before, leaves `new Date` recursing).  The probe is not
   * repeated: when neither worked the run fails at the first advance.
   */
  method GenerateGif<F>(clock: Clock, injected: bool, reinjected: bool,
                        duration: int, fps: int,
                        render: real -> F, realTimeFrame: F)
    returns (r: Result<GifFile<F>, CaptureError>)
    requires clock.Valid()
    modifies clock
    ensures clock.Valid()
    ensures r.Ok? <==> CaptureSucceeds(duration, fps, injected || reinjected)
    ensures !injected && reinjected ==> clock.dateRecurses
    ensures (injected || !reinjected) ==> clock.dateRecurses == old(clock.dateRecurses)
    ensures fps == 0 ==> r == Err(DivisionByZero)
    ensures fps != 0 && TotalFrames(duration, fps) <= 0 ==> r == Err(NoFramesCaptured)
    ensures (fps != 0 && TotalFrames(duration, fps) >= 2 && !(injected || reinjected))
              ==> r == Err(AdvanceTimeMissing)
    ensures r.Ok? ==> |r.value.frames| == TotalFrames(duration, fps)
                      && r.value.delayMs == GifDelayMs(fps)
                      && r.value.loop == LoopForever
                      && r.value.disposal == RestoreToBackground
    ensures r.Ok? && (injected || reinjected) ==>
              var start := if injected then old(clock.time) else 0.0;
              && r.value.frames == Shots(render, start, |r.value.frames|, FrameIntervalMs(fps))
              && clock.time == FrameTime(start, |r.value.frames| - 1, FrameIntervalMs(fps))
    ensures r.Ok? && !(injected || reinjected) ==> r.value.frames == [realTimeFrame]
  {
    if !injected && reinjected {
      clock.Reinject();
    }
    var total := duration * fps;
    if fps == 0 {
      return Err(DivisionByZero);
    }
    var interval := 1000.0 / fps as real;
    var controlled := injected || reinjected;
    var frames := CaptureFrames(clock, controlled, total, interval, render, realTimeFrame);
    if frames.Err? {
      return Err(frames.error);
    }
    if frames.value == [] {
      return Err(NoFramesCaptured);
    }
    r := Ok(GifFile(frames.value, Trunc(interval), LoopForever, RestoreToBackground));
  }

  /**
   * The `__main__` block: parse the command line, then capture.  Help exits 0
   * without writing, a parse error exits 2, a capture error exits 1, and a
   * written GIF exits 0.  `stepFails` says that a step this model does not
   * cover raised: reading `--input`, launching the browser or setting its
   * viewport, or Pillow refusing the frames or their delay on save; the
   * `except` turns that into exit status 1 as well.
   */
  method RunStandalone<F>(args: seq<string>, clock: Clock, injected: bool, reinjected: bool,
                          stepFails: bool, render: real -> F, realTimeFrame: F)
    returns (status: int, written: Option<(string, GifFile<F>)>)
    requires clock.Valid()
    modifies clock
    ensures Parse(args).HelpShown? ==> status == 0 && written == None
    ensures Parse(args).ParseFailed? ==> status == 2 && written == None
    ensures Parse(args).Parsed? ==>
              var a := Parse(args).args;
              && (status == 0 <==> !stepFails && CaptureSucceeds(a.duration, a.fps, injected || reinjected))
              && (status != 0 ==> status == 1 && written == None)
              && (status == 0 ==> written.Some? && written.value.0 == a.output
                                  && |written.value.1.frames| == TotalFrames(a.duration, a.fps))
  {
    match Parse(args) {
      case HelpShown =>
        return 0, None;
      case ParseFailed(_) =>
        return 2, None;
      case Parsed(a) =>
        var r := GenerateGif(clock, injected, reinjected, a.duration, a.fps, render, realTimeFrame);
        if r.Ok? && !stepFails {
          return 0, Some((a.output, r.value));
        }
        return 1, None;
    }
  }
}
