/** The frame loop of `process_video` (lines 91-125): read a frame, work out its time
    stamp, size and place the caption, write the frame, report progress. Decoding,
    drawing and encoding are not modelled: a frame is an opaque value and the writer is
    the sequence of annotated frames handed to it. */
module FrameEngine {
  import opened Wrappers
  import opened CivilTime
  import opened TimeText
  import opened CaptionSizer

  /** The frame rate used when the capture reports 0. */
  const DefaultFps: nat := 25

  /** The caption's anchor: 10 pixels from the left, 20 above the bottom edge. */
  const CaptionLeft: int := 10
  const CaptionLift: int := 20

  /** Lines 76-78: a reported frame rate of 0 is replaced by 25, any other is kept. */
  function EffectiveFps(reported: nat): (fps: nat)
    ensures fps > 0
    ensures reported != 0 ==> fps == reported
    ensures reported == 0 ==> fps == DefaultFps
  {
    if reported == 0 then DefaultFps else reported
  }

  /** Whole seconds elapsed at frame `index`: `frame_index / fps` rounded down, counted
      one full second of frames at a time. */
  function Elapsed(index: nat, fps: nat): nat
    requires fps > 0
    decreases index
  {
    if index < fps then 0 else 1 + Elapsed(index - fps, fps)
  }

  /** `Elapsed` is floor division. */
  lemma {:induction false} ElapsedIsQuotient(index: nat, fps: nat)
    requires fps > 0
    ensures Elapsed(index, fps) == index / fps
    decreases index
  {
    if index < fps {
      DivUnique(index, fps, 0, index);
    } else {
      var q, r := (index - fps) / fps, (index - fps) % fps;
      ElapsedIsQuotient(index - fps, fps);
      assert index == (q + 1) * fps + r;
      DivUnique(index, fps, q + 1, r);
    }
  }

  /** Line 101: `start_time + timedelta(seconds=frame_index / fps)`, truncated to the
      second as `strftime` shows it; `None` is the `OverflowError` past year 9999. */
  function FrameTime(start: DateTime, index: nat, fps: nat): (r: Option<DateTime>)
    requires Valid(start) && fps > 0
    ensures r.Some? ==> Valid(r.value) && ToSeconds(r.value) == ToSeconds(start) + Elapsed(index, fps)
    ensures r.None? <==> ToSeconds(start) + Elapsed(index, fps) >= EndOfRange()
  {
    RangeBySeconds(start);
    Add(start, Elapsed(index, fps))
  }

  /** Line 102: the caption text of frame `index`. */
  function CaptionText(start: DateTime, index: nat, fps: nat): (r: Option<string>)
    requires Valid(start) && fps > 0
    ensures r.Some? <==> FrameTime(start, index, fps).Some?
  {
    match FrameTime(start, index, fps)
    case None => None
    case Some(t) => Some(Format(t))
  }

  /** Line 123: `int(frame_index * 100 / total_frames)`; `int` truncates toward zero and
      a zero count raises `ZeroDivisionError` (`None`). */
  function Progress(done: nat, total: int): (p: Option<int>)
    ensures p.None? <==> total == 0
  {
    if total == 0 then None
    else if total > 0 then Some(done * 100 / total)
    else Some(-(done * 100 / -total))
  }

  datatype Read<F> = Frame(image: F) | Failure

  /** The text, the font scale (in hundredths) and the anchor passed to `cv2.putText`. */
  datatype Overlay = Overlay(text: string, scale: nat, x: int, y: int)

  datatype Annotated<F> = Annotated(image: F, overlay: Overlay)

  /** Why the loop ended: the read failed (the only normal end), or an exception left the
      worker thread: the time stamp passed year 9999, or the frame count was 0. */
  datatype Stop = EndOfStream | TimestampOverflow | ProgressDivisionByZero

  /** The frames handed to the writer, the progress values reported, and how it ended. */
  datatype Run<F> = Run(written: seq<Annotated<F>>, progress: seq<int>, stop: Stop)

  /** How many results succeed before the first failed one. */
  function GoodFrames<F>(results: seq<Read<F>>): (n: nat)
    ensures n <= |results|
    ensures forall k :: 0 <= k < n ==> results[k].Frame?
    ensures n < |results| ==> results[n].Failure?
  {
    if results == [] || results[0].Failure? then 0 else 1 + GoodFrames(results[1..])
  }

  /** Below the count of good frames, a read succeeds exactly before the count. */
  lemma GoodFramesStep<F>(results: seq<Read<F>>, n: nat)
    requires n <= GoodFrames(results)
    ensures n < GoodFrames(results) <==> n < |results| && results[n].Frame?
  {
  }

  /** Frame `index` written as the program writes it: the frame read at that position,
      its time-stamp caption, the scale the search settles on, the fixed anchor. */
  ghost predicate Captioned<F>(a: Annotated<F>, r: Read<F>, start: DateTime, index: nat, fps: nat,
                              width: nat, height: int, measure: (string, nat) -> nat)
    requires Valid(start) && fps > 0
  {
    && r.Frame? && a.image == r.image
    && CaptionText(start, index, fps) == Some(a.overlay.text)
    && Fitted(measure, a.overlay.text, TargetWidth(width), a.overlay.scale)
    && a.overlay.x == CaptionLeft && a.overlay.y == height - CaptionLift
  }

  /** What one pass of the loop body does with the next read result. */
  datatype Step<F> = Wrote(frame: Annotated<F>) | Ended | Overflowed

  /** The coarse loop ends for every caption the program can draw: at scale `ceiling`,
      every `YYYY-MM-DD HH:MM:SS` text is at least as wide as the target. */
  ghost predicate CaptionsReach(measure: (string, nat) -> nat, width: nat, ceiling: nat) {
    forall t :: Valid(t) ==> measure(Format(t), ceiling) >= TargetWidth(width)
  }

  /** `CaptionsReach` can be met by a width function of OpenCV's kind, a fixed stroke
      allowance plus a part proportional to the text length and the scale, even though
      that function leaves the empty text at the allowance at every scale. */
  lemma ProportionalCaptionsReach(width: nat)
    ensures var measure := (text: string, scale: nat) => |text| * scale / 10 + 2;
      Monotone(measure) && CaptionsReach(measure, width, width)
  {
    var measure := (text: string, scale: nat) => |text| * scale / 10 + 2;
    forall text: string, a: nat, b: nat | a <= b
      ensures measure(text, a) <= measure(text, b)
    {
      MulMonotone(|text|, a, b);
      DivMonotone(|text| * a, |text| * b, 10);
    }
    forall t | Valid(t)
      ensures measure(Format(t), width) >= TargetWidth(width)
    {
      assert |Format(t)| * width == 19 * width;
    }
  }

  lemma MulMonotone(n: nat, a: nat, b: nat)
    requires a <= b
    ensures n * a <= n * b
  {
    assert n * b == n * a + n * (b - a);
  }

  /** Lines 96-119: one pass of the loop body up to `out.write`. A failed read ends the
      loop; an `OverflowError` from the time stamp ends it too; otherwise the frame is
      captioned as `Captioned` describes. */
  method CaptionFrame<F>(r: Read<F>, start: DateTime, index: nat, fps: nat, width: nat, height: int,
                         measure: (string, nat) -> nat, ghost ceiling: nat)
    returns (step: Step<F>)
    requires Valid(start) && fps > 0
    requires Monotone(measure)
    requires CaptionsReach(measure, width, ceiling)
    ensures step.Ended? <==> r.Failure?
    ensures step.Overflowed? <==> r.Frame? && CaptionText(start, index, fps).None?
    ensures step.Wrote? ==> Captioned(step.frame, r, start, index, fps, width, height, measure)
  {
    if r.Failure? {
      return Ended;
    }
    var text := CaptionText(start, index, fps);
    if text.None? {
      return Overflowed;
    }
    assert text.value == Format(FrameTime(start, index, fps).value);
    var scale := FitScale(measure, text.value, TargetWidth(width), ceiling);
    step := Wrote(Annotated(r.image, Overlay(text.value, scale, CaptionLeft, height - CaptionLift)));
  }

  /** The progress values reported after each of the first `n` written frames. */
  function Reported(n: nat, total: int): (r: seq<int>)
    requires total != 0
    ensures |r| == n
    ensures forall k :: 0 <= k < n ==> Progress(k + 1, total) == Some(r[k])
  {
    if n == 0 then [] else Reported(n - 1, total) + [Progress(n, total).value]
  }

  lemma ReportedStep(n: nat, total: int)
    requires total != 0
    ensures Reported(n + 1, total) == Reported(n, total) + [Progress(n + 1, total).value]
  {
  }

  /** Every frame written so far is captioned as `Captioned` describes, at its own index,
      stated frame by frame from the last one back. */
  ghost predicate AllCaptioned<F>(written: seq<Annotated<F>>, results: seq<Read<F>>, start: DateTime,
                                  fps: nat, width: nat, height: int, measure: (string, nat) -> nat)
    requires Valid(start) && fps > 0
    decreases |written|
  {
    && |written| <= |results|
    && (written == [] ||
         var n := |written| - 1;
         && AllCaptioned(written[..n], results, start, fps, width, height, measure)
         && Captioned(written[n], results[n], start, n, fps, width, height, measure))
  }

  /** `AllCaptioned` says of each written frame that it is captioned at its index. */
  lemma {:induction false} AllCaptionedEach<F>(written: seq<Annotated<F>>, results: seq<Read<F>>,
                                               start: DateTime, fps: nat, width: nat, height: int,
                                               measure: (string, nat) -> nat)
    requires Valid(start) && fps > 0
    requires AllCaptioned(written, results, start, fps, width, height, measure)
    ensures |written| <= |results|
    ensures forall k :: 0 <= k < |written| ==>
      Captioned(written[k], results[k], start, k, fps, width, height, measure)
    decreases |written|
  {
    if written != [] {
      var n := |written| - 1;
      var front := written[..n];
      AllCaptionedEach(front, results, start, fps, width, height, measure);
      forall k | 0 <= k < |written|
        ensures Captioned(written[k], results[k], start, k, fps, width, height, measure)
      {
        if k < n {
          assert front[k] == written[k];
        } else {
          assert k == n;
        }
      }
    }
  }

  /** Conversely, frames each captioned at their index satisfy `AllCaptioned`. */
  lemma {:induction false} AllCaptionedFromEach<F>(written: seq<Annotated<F>>, results: seq<Read<F>>,
                                                   start: DateTime, fps: nat, width: nat, height: int,
                                                   measure: (string, nat) -> nat)
    requires Valid(start) && fps > 0 && |written| <= |results|
    requires forall k :: 0 <= k < |written| ==>
      Captioned(written[k], results[k], start, k, fps, width, height, measure)
    ensures AllCaptioned(written, results, start, fps, width, height, measure)
    decreases |written|
  {
    if written != [] {
      var n := |written| - 1;
      var front := written[..n];
      forall k | 0 <= k < n
        ensures Captioned(front[k], results[k], start, k, fps, width, height, measure)
      {
        assert front[k] == written[k];
      }
      AllCaptionedFromEach(front, results, start, fps, width, height, measure);
    }
  }

  /** Appending the next captioned frame keeps every frame at its own index. */
  lemma CaptionedExtend<F>(written: seq<Annotated<F>>, frame: Annotated<F>, results: seq<Read<F>>,
                           start: DateTime, fps: nat, width: nat, height: int, measure: (string, nat) -> nat)
    requires Valid(start) && fps > 0 && |written| < |results|
    requires AllCaptioned(written, results, start, fps, width, height, measure)
    requires Captioned(frame, results[|written|], start, |written|, fps, width, height, measure)
    ensures AllCaptioned(written + [frame], results, start, fps, width, height, measure)
  {
    assert (written + [frame])[..|written|] == written;
  }

  /** Lines 97-121: the loop body up to the write. `stop` is the reason the loop ends
      before writing, if it does; otherwise one more captioned frame is written. */
  method WriteNext<F>(written: seq<Annotated<F>>, results: seq<Read<F>>, start: DateTime, fps: nat,
                      width: nat, height: int, measure: (string, nat) -> nat, ghost ceiling: nat)
    returns (next: seq<Annotated<F>>, stop: Option<Stop>)
    requires Valid(start) && fps > 0
    requires Monotone(measure)
    requires CaptionsReach(measure, width, ceiling)
    requires |written| <= GoodFrames(results)
    requires AllCaptioned(written, results, start, fps, width, height, measure)
    ensures stop.None? ==> |next| == |written| + 1 && |next| <= GoodFrames(results)
    ensures stop.None? ==> AllCaptioned(next, results, start, fps, width, height, measure)
    ensures stop == Some(EndOfStream) ==> |written| == GoodFrames(results)
    ensures stop == Some(TimestampOverflow) ==>
      |written| < GoodFrames(results) && CaptionText(start, |written|, fps).None?
    ensures stop != Some(ProgressDivisionByZero)
  {
    var index := |written|;
    var r := if index < |results| then results[index] else Failure;
    GoodFramesStep(results, index);
    var step := CaptionFrame(r, start, index, fps, width, height, measure, ceiling);
    if step.Ended? {
      return written, Some(EndOfStream);
    }
    if step.Overflowed? {
      return written, Some(TimestampOverflow);
    }
    CaptionedExtend(written, step.frame, results, start, fps, width, height, measure);
    next, stop := written + [step.frame], None;
  }

  /** Lines 123-124: the percentage reported after frame `done` is written, appended to
      the ones reported before it. */
  method ReportProgress(progress: seq<int>, done: nat, total: int) returns (next: seq<int>)
    requires total != 0 && done > 0 && progress == Reported(done - 1, total)
    ensures next == Reported(done, total)
  {
    ReportedStep(done - 1, total);
    next := progress + [Progress(done, total).value];
  }

  /** Lines 97-124: one pass of the loop body. `stop` is the reason the loop ends on this
      pass, if it does; otherwise one more captioned frame and its progress value are added. */
  method AdvanceOne<F>(written: seq<Annotated<F>>, progress: seq<int>, results: seq<Read<F>>,
                       start: DateTime, fps: nat, width: nat, height: int, totalFrames: int,
                       measure: (string, nat) -> nat, ghost ceiling: nat)
    returns (next: seq<Annotated<F>>, nextProgress: seq<int>, stop: Option<Stop>)
    requires Valid(start) && fps > 0
    requires Monotone(measure)
    requires CaptionsReach(measure, width, ceiling)
    requires |written| <= GoodFrames(results)
    requires AllCaptioned(written, results, start, fps, width, height, measure)
    requires totalFrames == 0 ==> written == [] && progress == []
    requires totalFrames != 0 ==> progress == Reported(|written|, totalFrames)
    ensures |next| <= GoodFrames(results)
    ensures AllCaptioned(next, results, start, fps, width, height, measure)
    ensures stop == Some(EndOfStream) ==>
      next == written && nextProgress == progress && |written| == GoodFrames(results)
    ensures stop == Some(TimestampOverflow) ==>
      next == written && nextProgress == progress &&
      |written| < GoodFrames(results) && CaptionText(start, |written|, fps).None?
    ensures stop == Some(ProgressDivisionByZero) ==>
      totalFrames == 0 && |next| == 1 && nextProgress == []
    ensures stop.None? ==>
      totalFrames != 0 && |next| == |written| + 1 && nextProgress == Reported(|next|, totalFrames)
  {
    var written2, ended := WriteNext(written, results, start, fps, width, height, measure, ceiling);
    if ended.Some? {
      return written, progress, ended;
    }
    if totalFrames == 0 {
      return written2, progress, Some(ProgressDivisionByZero);
    }
    nextProgress := ReportProgress(progress, |written2|, totalFrames);
    next, stop := written2, None;
  }

  /** Lines 91-125. `results` are the outcomes of successive `cap.read()` calls (reading
      past the end fails). The loop writes one captioned frame per successful read, in
      order and without gaps, and stops at the first failure or at an exception. */
  method AnnotateFrames<F>(results: seq<Read<F>>, start: DateTime, fps: nat, width: nat, height: int,
                           totalFrames: int, measure: (string, nat) -> nat, ghost ceiling: nat)
    returns (run: Run<F>)
    requires Valid(start) && fps > 0
    requires Monotone(measure)
    requires CaptionsReach(measure, width, ceiling)
    ensures |run.written| <= GoodFrames(results)
    ensures AllCaptioned(run.written, results, start, fps, width, height, measure)
    ensures run.stop == EndOfStream ==> |run.written| == GoodFrames(results)
    ensures run.stop == TimestampOverflow ==>
      |run.written| < GoodFrames(results) && CaptionText(start, |run.written|, fps).None?
    ensures run.stop == ProgressDivisionByZero ==>
      totalFrames == 0 && |run.written| == 1 && run.progress == []
    ensures totalFrames == 0 ==>
      run.progress == [] && |run.written| <= 1 && (|run.written| == 1 <==> run.stop == ProgressDivisionByZero)
    ensures totalFrames != 0 ==> run.stop != ProgressDivisionByZero && run.progress == Reported(|run.written|, totalFrames)
  {
    var written: seq<Annotated<F>> := [];
    var progress: seq<int> := [];
    while true
      invariant |written| <= GoodFrames(results)
      invariant AllCaptioned(written, results, start, fps, width, height, measure)
      invariant totalFrames == 0 ==> written == [] && progress == []
      invariant totalFrames != 0 ==> progress == Reported(|written|, totalFrames)
      decreases GoodFrames(results) - |written|
    {
      var next, nextProgress, stop := AdvanceOne(written, progress, results, start, fps, width, height,
                                                 totalFrames, measure, ceiling);
      if stop.Some? {
        return Run(next, nextProgress, stop.value);
      }
      written, progress := next, nextProgress;
    }
  }

  // ---------------------------------------------------------------------------
  // What the captions and the progress values say
  // ---------------------------------------------------------------------------

  /** Frame `index` shows the start time advanced by the whole seconds elapsed. */
  lemma CaptionAt(start: DateTime, index: nat, fps: nat)
    requires Valid(start) && fps > 0
    requires ToSeconds(start) + index / fps < EndOfRange()
    ensures var t := AddSeconds(start, index / fps); Valid(t) && CaptionText(start, index, fps) == Some(Format(t))
  {
    ElapsedIsQuotient(index, fps);
    AddSecondsCounts(start, index / fps);
    RangeBySeconds(start);
    var t := FrameTime(start, index, fps).value;
    AddSecondsUnique(start, index / fps, t);
  }

  /** Every frame of the first second shows the start time itself: the elapsed time is
      truncated to whole seconds, not rounded. */
  lemma FirstSecondShowsStart(start: DateTime, index: nat, fps: nat)
    requires Valid(start) && fps > 0 && index < fps
    ensures CaptionText(start, index, fps) == Some(Format(start))
  {
    assert index / fps == 0;
    RangeBySeconds(start);
    CaptionAt(start, index, fps);
    AddSecondsZero(start);
  }

  /** Consecutive frames show the same second or the next one. */
  lemma CaptionsAdvance(start: DateTime, index: nat, fps: nat)
    requires Valid(start) && fps > 0
    requires FrameTime(start, index + 1, fps).Some?
    ensures FrameTime(start, index, fps).Some?
    ensures var a, b := FrameTime(start, index, fps).value, FrameTime(start, index + 1, fps).value;
      b == a || b == Tick(a)
  {
    var q := index / fps;
    ElapsedIsQuotient(index, fps);
    ElapsedIsQuotient(index + 1, fps);
    NextQuotient(index, fps);
    assert ToSeconds(start) + q < EndOfRange();
    var a := FrameTime(start, index, fps).value;
    var b := FrameTime(start, index + 1, fps).value;
    if (index + 1) / fps == q {
      ToSecondsInjective(a, b);
    } else {
      AddSecondsUnique(a, 1, b);
      AddOneSecondIsTick(a);
    }
  }

  /** One more frame adds at most one whole second. */
  lemma NextQuotient(index: nat, fps: nat)
    requires fps > 0
    ensures (index + 1) / fps == index / fps || (index + 1) / fps == index / fps + 1
  {
    var q, r := index / fps, index % fps;
    if r + 1 < fps {
      DivUnique(index + 1, fps, q, r + 1);
    } else {
      DivUnique(index + 1, fps, q + 1, 0);
    }
  }

  /** With a known positive frame count, every reported percentage up to the last frame
      lies between 0 and 100. */
  lemma ProgressBounds(done: nat, total: int)
    requires 0 < total && done <= total
    ensures Progress(done, total).Some?
    ensures 0 <= Progress(done, total).value <= 100
  {
    assert done * 100 <= total * 100;
  }

  /** Later frames never report a smaller percentage. */
  lemma ProgressMonotone(a: nat, b: nat, total: int)
    requires 0 < total && a <= b
    ensures Progress(a, total).value <= Progress(b, total).value
  {
    DivMonotone(a * 100, b * 100, total);
  }

  lemma DivMonotone(x: nat, y: nat, d: int)
    requires 0 < d && x <= y
    ensures x / d <= y / d
  {
    var qx, qy := x / d, y / d;
    assert qx * d <= x <= y < (qy + 1) * d;
  }

  /** The last frame of a correctly counted video reports exactly 100. */
  lemma ProgressComplete(total: int)
    requires 0 < total
    ensures Progress(total, total) == Some(100)
  {
    assert total * 100 == 100 * total;
  }

  /** The reported sequence never goes down and, while no more frames are written than
      counted, stays within [0, 100]. */
  lemma ReportedNondecreasing(n: nat, total: int)
    requires 0 < total
    ensures forall i, j :: 0 <= i <= j < n ==> Reported(n, total)[i] <= Reported(n, total)[j]
    ensures n <= total ==> forall i :: 0 <= i < n ==> 0 <= Reported(n, total)[i] <= 100
  {
    var r := Reported(n, total);
    forall i, j | 0 <= i <= j < n
      ensures r[i] <= r[j]
    {
      ProgressMonotone(i + 1, j + 1, total);
    }
    if n <= total {
      forall i | 0 <= i < n
        ensures 0 <= r[i] <= 100
      {
        ProgressBounds(i + 1, total);
      }
    }
  }
}
