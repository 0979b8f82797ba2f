/** `start_processing` (lines 167-178) and `process_video` (lines 61-135) around the frame
    loop: the checks made before any frame is read, the output path, the effective frame
    rate, and how the run ends. The capture is an input: whether it opened, the
    properties it reports and the successive results of `cap.read()`. */
module Driver {
  import opened Wrappers
  import opened CivilTime
  import opened TimeText
  import opened CaptionSizer
  import opened FrameEngine
  import opened OutputPath
  import opened TimeSource

  /** What `cv2.VideoCapture(video_path)` offers the program: `isOpened()`, the frame
      rate, width, height and frame count it reports, and the frames `read()` returns. */
  datatype Capture<F> = Capture(isOpen: bool, fps: nat, width: nat, height: nat,
                                frameCount: int, results: seq<Read<F>>)

  /** How `process_video` ends: the start text was refused (line 67), the capture did not
      open (line 73), or the frame loop ran and wrote to `output`. */
  datatype Outcome<F> = InvalidStartTime | CannotOpen | Processed(output: string, run: Run<F>)

  /** The completion message of line 134 is shown only when the loop ended at the end of
      the stream; the other stops are exceptions that end the worker thread. */
  predicate Completed<F>(o: Outcome<F>) {
    o.Processed? && o.run.stop == EndOfStream
  }

  /** Lines 61-135. */
  method ProcessVideo<F>(videoPath: string, startText: string, capture: Capture<F>,
                         measure: (string, nat) -> nat, ghost ceiling: nat)
    returns (o: Outcome<F>)
    requires Monotone(measure)
    requires CaptionsReach(measure, capture.width, ceiling)
    ensures o.InvalidStartTime? <==> Parse(startText).None?
    ensures o.CannotOpen? <==> Parse(startText).Some? && !capture.isOpen
    ensures o.Processed? ==> o.output == TimestampedPath(videoPath)
    ensures o.Processed? ==>
      var start, fps := Parse(startText).value, EffectiveFps(capture.fps);
      && |o.run.written| <= GoodFrames(capture.results)
      && AllCaptioned(o.run.written, capture.results, start, fps, capture.width, capture.height, measure)
      && (Completed(o) ==> |o.run.written| == GoodFrames(capture.results))
      && (o.run.stop == TimestampOverflow ==>
            |o.run.written| < GoodFrames(capture.results) && CaptionText(start, |o.run.written|, fps).None?)
      && (capture.frameCount == 0 ==>
            && o.run.progress == [] && |o.run.written| <= 1
            && (|o.run.written| == 1 <==> o.run.stop == ProgressDivisionByZero))
      && (capture.frameCount != 0 ==>
            o.run.stop != ProgressDivisionByZero && o.run.progress == Reported(|o.run.written|, capture.frameCount))
  {
    var start := Parse(startText);
    if start.None? {
      return InvalidStartTime;
    }
    if !capture.isOpen {
      return CannotOpen;
    }
    var fps := EffectiveFps(capture.fps);
    var output := TimestampedPath(videoPath);
    var run := AnnotateFrames(capture.results, start.value, fps, capture.width, capture.height,
                              capture.frameCount, measure, ceiling);
    o := Processed(output, run);
  }

  /** What the start button does with the two entry fields. */
  datatype Launch = MissingInput | Started(video: string, startText: string)

  /** Lines 167-178: an empty path or an empty start text is refused; otherwise the
      button is disabled and `process_video` runs on the two texts as entered. */
  function StartProcessing(entries: Entries): (r: Launch)
    ensures r.MissingInput? <==> entries.video == "" || entries.time == ""
    ensures r.Started? ==> r.video == entries.video && r.startText == entries.time
  {
    if entries.video == "" || entries.time == "" then MissingInput
    else Started(entries.video, entries.time)
  }

  /** A clip whose capture reports no frame rate is stamped at 25 frames per second:
      its first 25 frames all show the start time, the 26th shows one second later. */
  lemma DefaultRateCaptions(start: DateTime)
    requires Valid(start)
    requires ToSeconds(start) + 1 < EndOfRange()
    ensures forall k :: 0 <= k < 25 ==> CaptionText(start, k, EffectiveFps(0)) == Some(Format(start))
    ensures var next := Tick(start); Valid(next) && CaptionText(start, 25, EffectiveFps(0)) == Some(Format(next))
  {
    forall k | 0 <= k < 25
      ensures CaptionText(start, k, EffectiveFps(0)) == Some(Format(start))
    {
      FirstSecondShowsStart(start, k, EffectiveFps(0));
    }
    assert 25 / 25 == 1;
    CaptionAt(start, 25, 25);
    AddOneSecondIsTick(start);
  }
}
