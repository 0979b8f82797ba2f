# Dashcam timestamp overlay — a verified model

`01.mainTkinter.py` burns a wall-clock caption into every frame of a video. The user
picks a clip. The program fills in its start time from one of three places:
- the container's `creation_time` tag, shown in Taipei time;
- a `YYYY-MM-DD_HH-MM-SS` file name;
- the file's modification time.

For each frame, `process_video` then:
1. adds `frame_index / fps` seconds to the start time;
2. prints the result as `YYYY-MM-DD HH:MM:SS`;
3. sizes the caption to a fifth of the frame width, with a coarse-then-fine font-scale search;
4. writes the frame to `<base>_timestamp<ext>`;
5. reports an integer progress percentage.

The Dafny project models that arithmetic and string handling, and the loops around it.

| module | file | what it holds |
|---|---|---|
| `Wrappers` | `wrappers.dfy` | `Option` |
| `Strings` | `strings.dfy` | `find`, `rfind`, `split` and `join` on one character, with their round trips |
| `CivilTime` | `civil_time.dfy` | proleptic Gregorian date-times with a days-in-month/leap-year table, plus `AddSeconds` with carry. It is proved against a linear second count. `Add` is `datetime + timedelta`, where `None` is the `OverflowError` outside the years 1–9999 |
| `TimeText` | `time_text.dfy` | `strftime('%Y-%m-%d %H:%M:%S')` as `Format`. `strptime` with that format as `Parse`, and with `'%Y-%m-%d'` as `ParseDate`; both accept unpadded fields and `\s+` between the date and the time, as `strptime` does |
| `CaptionSizer` | `caption_sizer.dfy` | the two font-scale loops, with scales in hundredths (1.0 is 100) and an abstract monotone text-width function |
| `FrameEngine` | `frame_engine.dfy` | the fps fallback, each frame's caption, one pass of the loop body, the frame loop as a method over the sequence of read results, and the progress percentages |
| `OutputPath` | `output_path.dfy` | POSIX `os.path.splitext` and the `_timestamp` suffix |
| `TimeSource` | `time_source.dfy` | `select_video`'s fallback chain, the file-name parser, and the +08:00 shift of the metadata time |
| `Driver` | `driver.dfy` | `process_video` (its early returns, then the loop) and `start_processing` |

Some of the code's behaviour is worth knowing. The model follows the code in each case:
- **The file name's time pieces are not checked.** Only the date token goes through `strptime`. The three `-`-separated time pieces are joined with `:` as they are. So `2024-05-01_14-30-00.mp4` fills in `2024-05-01 14:30:00.mp4`, which `process_video` then refuses as a malformed start time (`TimeSource.FileNameExtensionRefused`).
- **A zero frame count crashes after the first frame.** When the capture reports 0 frames, line 123 divides by zero after the first frame has been written. The model ends that run with `ProgressDivisionByZero`, one frame written and no progress reported. A guarded percentage would be a design change, not a reading of the code.
- **Only a reported rate of exactly 0 is replaced by 25.**
- **The coarse scale loop has no bound.** The model requires a scale (a ghost `ceiling`) at which every caption the program can draw, a `YYYY-MM-DD HH:MM:SS` text, reaches the target (`FrameEngine.CaptionsReach`), and proves termination from it. The requirement says nothing about other texts, so OpenCV-like width functions meet it (`FrameEngine.ProportionalCaptionsReach`).

## Model

| member | source | states |
|---|---|---|
| `CivilTime.AddSeconds` | 01.mainTkinter.py:101 | the carried result is always a well-formed date-time; `AddSecondsCounts` and `AddSecondsUnique` fix it as the one `n` seconds later |
| `CivilTime.Add` | 01.mainTkinter.py:101 | `start + timedelta(seconds=n)`: a valid date-time exactly `n` seconds later on the linear count, or `None` exactly when that instant leaves the years 1–9999 |
| `CivilTime.AddSecondsCounts` | 01.mainTkinter.py:101 | carrying seconds through minutes, hours, days, months and leap years moves the linear second count by exactly `n` |
| `CivilTime.AddSecondsUnique` | 01.mainTkinter.py:101 | any well-formed date-time `n` seconds after `t` is `AddSeconds(t, n)` |
| `CivilTime.AddSecondsAdditive` | 01.mainTkinter.py:101 | adding `a` then `b` seconds is adding `a + b` |
| `CivilTime.AddSecondsMonotone` | 01.mainTkinter.py:101 | a larger offset never gives an earlier date-time |
| `CivilTime.AddOneSecondIsTick` | 01.mainTkinter.py:101 | one second later is the textbook carry chain, including year-end and 29 February only in leap years |
| `CivilTime.RangeBySeconds` | 01.mainTkinter.py:101 | a date-time is inside `datetime`'s years exactly when its second count is inside `[0, EndOfRange())` |
| `CivilTime.ChronologicalOrder` | 01.mainTkinter.py:101 | field-wise chronological order agrees with the second count |
| `CivilTime.ToSecondsInjective` | 01.mainTkinter.py:101 | two well-formed date-times with the same second count are equal |
| `TimeText.Format` | 01.mainTkinter.py:102 | `strftime` writes 19 characters; `FormatCanonical`, `ParseFormat` and `FormatParse` give their layout and make it the inverse of `Parse` |
| `TimeText.ParseDate` | 01.mainTkinter.py:152 | `strptime(..., '%Y-%m-%d')` returns only valid date-times, at midnight |
| `TimeText.ParseFormat` | 01.mainTkinter.py:102 | reading back what `strftime` wrote gives the same date-time |
| `TimeText.FormatParse` | 01.mainTkinter.py:64 | a zero-padded `YYYY-MM-DD HH:MM:SS` text that parses is written back unchanged |
| `TimeText.FormatCanonical` | 01.mainTkinter.py:102 | `strftime` always writes the 19-character zero-padded layout |
| `TimeText.ParseFixedLayout` | 01.mainTkinter.py:64 | on the zero-padded layout, `strptime` succeeds exactly when the six numbers form a valid date-time, and then returns them |
| `TimeText.ParseRejectsTrailing` | 01.mainTkinter.py:64-67 | any text after the seconds makes `strptime` fail (the `ValueError` of line 65) |
| `TimeText.Parse` | 01.mainTkinter.py:64 | whatever `strptime` returns is a valid date-time |
| `TimeText.MakeDateTime` | 01.mainTkinter.py:64 | the `datetime` constructor accepts exactly the valid field combinations |
| `FrameEngine.EffectiveFps` | 01.mainTkinter.py:76-78 | a reported rate of 0 becomes 25; any other rate is kept |
| `FrameEngine.ElapsedIsQuotient` | 01.mainTkinter.py:101 | the whole seconds elapsed at frame `i` are `i / fps`, rounded down |
| `FrameEngine.FrameTime` | 01.mainTkinter.py:101 | frame `i`'s time lies `i / fps` whole seconds after the start; `None` (the `OverflowError`) exactly when that passes year 9999 |
| `FrameEngine.CaptionText` | 01.mainTkinter.py:101-102 | a frame has a caption exactly when its time stays within year 9999 |
| `FrameEngine.Progress` | 01.mainTkinter.py:123 | `int(frame_index * 100 / total_frames)` truncated toward zero; it fails (the `ZeroDivisionError`) exactly when the count is 0 |
| `FrameEngine.CaptionAt` | 01.mainTkinter.py:101-102 | frame `i` shows `Format(AddSeconds(start, i / fps))` |
| `FrameEngine.FirstSecondShowsStart` | 01.mainTkinter.py:101-102 | frames `0 .. fps-1` all show the start time, because elapsed time is truncated |
| `FrameEngine.CaptionsAdvance` | 01.mainTkinter.py:101-102 | consecutive frames show the same second or the next one |
| `FrameEngine.ProportionalCaptionsReach` | 01.mainTkinter.py:111-115 | a width function with a fixed allowance plus a part proportional to length and scale is monotone and makes every caption reach the target at scale `width`, so the loop requirement can be met |
| `FrameEngine.CaptionFrame` | 01.mainTkinter.py:97-121 | a failed read ends the loop; a timestamp overflow ends it; otherwise the frame is written with its time text, the fitted scale, and anchor `(10, height - 20)` |
| `FrameEngine.WriteNext` | 01.mainTkinter.py:96-121 | one pass up to the write: it ends at the end of the good reads, ends on an overflow naming that frame, or writes exactly one more frame captioned at its own index |
| `FrameEngine.ReportProgress` | 01.mainTkinter.py:123-124 | after frame `done` is written, the reported list is the one for `done` frames |
| `FrameEngine.AdvanceOne` | 01.mainTkinter.py:96-124 | one pass of the loop: either the reason it stops (nothing more written on end or overflow; the one frame written before the division by zero), or one more captioned frame and its percentage |
| `FrameEngine.AnnotateFrames` | 01.mainTkinter.py:91-125 | the written frames are the successful reads before the first failure, in order. Frame `k` is captioned for index `k`, with no gaps. An end-of-stream stop writes all of them. An overflow stop names the frame that overflowed. With a zero frame count, no progress is reported and at most one frame is written; exactly one is written precisely when the run stops on the division by zero. Otherwise progress is one percentage per written frame |
| `FrameEngine.AllCaptionedEach` | 01.mainTkinter.py:96-122 | the loop's invariant means every written frame `k` is read result `k`, captioned at index `k` |
| `FrameEngine.AllCaptionedFromEach` | 01.mainTkinter.py:96-122 | conversely, frames captioned one by one satisfy the loop's invariant |
| `FrameEngine.GoodFramesStep` | 01.mainTkinter.py:96-99 | the loop can write one more frame exactly when the next read succeeds |
| `FrameEngine.Reported` | 01.mainTkinter.py:123-124 | after `n` frames, exactly `n` percentages have been reported, the `k`-th being `int((k+1)*100/total)` |
| `FrameEngine.ProgressBounds` | 01.mainTkinter.py:123 | with a positive frame count and no more frames than counted, the percentage is in `[0, 100]` |
| `FrameEngine.ProgressMonotone` | 01.mainTkinter.py:123 | more frames never report a smaller percentage |
| `FrameEngine.ProgressComplete` | 01.mainTkinter.py:123 | the last counted frame reports exactly 100 |
| `FrameEngine.ReportedNondecreasing` | 01.mainTkinter.py:123-124 | the reported sequence never decreases, and stays within `[0, 100]` while no more frames are written than counted |
| `FrameEngine.NextQuotient` | 01.mainTkinter.py:101 | one more frame adds at most one whole second |
| `CaptionSizer.TargetWidth` | 01.mainTkinter.py:109 | the target is the largest `w` with `5 * w <= width`, i.e. `int(width * 0.20)` |
| `CaptionSizer.Grow` | 01.mainTkinter.py:110-115 | from scale 1.0, stepping by 0.1, the loop stops at the first scale whose width reaches the target |
| `CaptionSizer.Shrink` | 01.mainTkinter.py:116-118 | stepping down by 0.01, the loop stops at the first scale whose width is within the target or that has reached the 0.1 floor; every scale it passed was too wide |
| `CaptionSizer.FitScale` | 01.mainTkinter.py:109-118 | the caption scale is the result of the coarse phase followed by the fine phase |
| `CaptionSizer.FittedMeaning` | 01.mainTkinter.py:113-118 | the fitted scale is at least 0.1. Its width is within the target unless the floor was reached. When that width is strictly below the target, 0.01 more would exceed it |
| `CaptionSizer.CoarseStaysAtOne` | 01.mainTkinter.py:110-115 | if 1.0 already reaches the target, the coarse phase stays at 1.0 |
| `CaptionSizer.CoarseStopUnique` | 01.mainTkinter.py:113-115 | the coarse phase can stop at only one scale |
| `CaptionSizer.FittedUnique` | 01.mainTkinter.py:109-118 | a text and a target determine the fitted scale |
| `OutputPath.SplitExt` | 01.mainTkinter.py:83 | `splitext` returns a base and an extension that put back together give the path |
| `OutputPath.SplitExtShape` | 01.mainTkinter.py:83 | `base + ext` is the path. `ext` is empty, or starts at the last `.` of the final component with no `.` or `/` after it, and never at a leading dot |
| `OutputPath.SplitExtOf` | 01.mainTkinter.py:83 | a base whose final component is not all dots, followed by a proper extension, splits exactly there |
| `OutputPath.TimestampedPath` | 01.mainTkinter.py:84 | the output path is exactly `_timestamp` longer than the input |
| `OutputPath.TimestampedPathKeepsExtension` | 01.mainTkinter.py:83-84 | the output is `base + "_timestamp" + ext`; its own extension is the input's; it never equals the input path |
| `OutputPath.SuffixBeforeExtension` | 01.mainTkinter.py:84 | `_timestamp` inserted before a proper extension leaves that extension in place |
| `OutputPath.LastComponent` | 01.mainTkinter.py:83 | the final path component is the suffix of the path that contains no `/` and is preceded by a `/` or is the whole path |
| `TimeSource.TaipeiText` | 01.mainTkinter.py:44-52 | the tag gives a text exactly when its UTC instant and that instant plus eight hours both lie in the years 1–9999 |
| `TimeSource.UtcOf` | 01.mainTkinter.py:46 | `astimezone(pytz.utc)` gives the tag's instant as a UTC date-time, or `None` outside the years 1–9999 |
| `TimeSource.TaipeiTextMeaning` | 01.mainTkinter.py:44-52 | the tag yields a text exactly when both conversions stay in range. The text is the date-time eight hours after the tag's UTC instant |
| `TimeSource.TaipeiTextSameInstant` | 01.mainTkinter.py:44-49 | two tags denoting the same instant, whatever their offsets, give the same text |
| `TimeSource.TaipeiTextOfUtc` | 01.mainTkinter.py:44-49 | a `Z` tag is shown as the date-time eight hours later (the zone's offset from 1980 on) |
| `TimeSource.FileName` | 01.mainTkinter.py:149 | the last piece of `split("/")` is exactly the text after the last `/` (`rfind`), the whole path when there is none |
| `TimeSource.FileNameText` | 01.mainTkinter.py:151-157 | a name yields a text exactly when its first `_`-token is a date `strptime` accepts, a second token exists, and that token has at least three `-`-pieces; the text starts with the date token verbatim and a space |
| `TimeSource.ParseDateCanonical` | 01.mainTkinter.py:152 | on a zero-padded `YYYY-MM-DD`, `strptime` accepts exactly the valid dates, and the accepted date is written back as the same text |
| `TimeSource.FileNameConvention` | 01.mainTkinter.py:149-156 | `YYYY-MM-DD_HH-MM-SS`, alone or followed by `_` and more, gives `YYYY-MM-DD HH:MM:SS`, which `process_video` parses back to the same date-time |
| `TimeSource.FileNameTextOfStamp` | 01.mainTkinter.py:151-154 | text after the seconds up to the next `_` stays attached to the seconds; text after a further `_` is dropped |
| `TimeSource.FileNameTextParts` | 01.mainTkinter.py:151-154 | an accepted date, `_`, and three `-`-separated pieces give the date, a space, and the pieces joined with `:`; further `-`-pieces after the third are dropped |
| `TimeSource.FileNameWithoutTime` | 01.mainTkinter.py:151-157 | a name without `_`, such as `2024-05-01.mp4`, yields nothing, so the modification time is used |
| `TimeSource.FileNameShortTime` | 01.mainTkinter.py:151-157 | a time token with fewer than three `-`-pieces yields nothing, whatever the date |
| `TimeSource.FileNameHoursMinutes` | 01.mainTkinter.py:151-157 | `HH-MM` alone, as in `2024-05-01_14-30.mp4`, yields nothing |
| `TimeSource.FileNameExtensionRefused` | 01.mainTkinter.py:151-154 | a name whose extension follows the seconds directly yields a start text that `strptime` refuses |
| `TimeSource.FileNameNoConvention` | 01.mainTkinter.py:151-157 | a name not starting with a digit, such as `clip.mp4`, yields nothing |
| `TimeSource.SelectVideo` | 01.mainTkinter.py:137-165 | a cancelled dialog changes nothing; otherwise the path field is set to the chosen path |
| `TimeSource.SelectVideoPrecedence` | 01.mainTkinter.py:143-165 | the time comes from the tag whenever it converts; else the file name; else the modification time; else the old field is kept |
| `TimeSource.SelectVideoParses` | 01.mainTkinter.py:143-163 | a time taken from the tag or the modification time always parses in `process_video` |
| `TimeSource.SelectVideoByName` | 01.mainTkinter.py:148-156 | a camera-named file without a tag gets its start time from the name |
| `Strings.JoinSplit` | 01.mainTkinter.py:149-153 | joining the pieces of `split(c)` with `c` gives back the text |
| `Strings.SplitJoin` | 01.mainTkinter.py:149-153 | splitting pieces joined with `c`, when none of them contains `c`, gives back the pieces |
| `Strings.Split` | 01.mainTkinter.py:149-153 | `split(c)` returns at least one piece, and no piece contains `c` |
| `Strings.RFind` | 01.mainTkinter.py:83 | `rfind` is the last position of the character, or -1 |
| `Driver.ProcessVideo` | 01.mainTkinter.py:61-135 | it refuses exactly the start texts `strptime` refuses, and then opens nothing. It stops exactly when the capture did not open. Otherwise it writes to `<base>_timestamp<ext>` the successive good frames, each captioned at its index from the parsed start at the effective rate. A completed run has written every good frame. An overflow stop names the frame whose time overflowed. With a zero frame count no progress is reported and exactly one frame is written precisely when the run stops on the division by zero; with any other count it never stops that way, and the progress values are those of line 123 |
| `Driver.StartProcessing` | 01.mainTkinter.py:167-178 | it refuses exactly when either field is empty; otherwise it starts processing with both texts as entered |
| `Driver.DefaultRateCaptions` | 01.mainTkinter.py:76-78 | at the fallback rate, frames 0–24 show the start time and frame 25 shows one second later |

## Left out

- The Tk window, `messagebox`, `progress_var.set`, `root.update_idletasks` and the button state are user interface only. The error returns of lines 67 and 73 never reach line 135, so the start button stays disabled after them; the model has no button.
- The worker thread of line 178 is concurrency plumbing. `Driver.StartProcessing` returns what it would run.
- `get_video_creation_time`'s `ffprobe` subprocess (lines 34-40) and `fromisoformat` (line 44) are external. The tag is an input, already read as civil fields and a UTC offset. A naive tag, which `astimezone` would read in the host's zone, is not modelled.
- `os.path.getmtime` and `fromtimestamp` (lines 160-161) depend on the host's time zone. The modification time is an input, already converted to local civil time.
- OpenCV is abstracted:
  - decoding is the input sequence of read results;
  - a frame is an opaque value;
  - drawing is the recorded caption (text, scale, anchor);
  - the writer is the sequence of frames handed to it.
- The writer is never checked for having opened (the code never calls `out.isOpened()`). So a run that writes nowhere is not distinguished.
- Releasing the capture and the writer (lines 129-130) and the completion message (line 134) are side effects. They are represented only by `Completed`.
- `compress_video`, `MyBarLogger` and the compressed output name (lines 17-30, 57-59, 85) are left out: the compression call is disabled at line 132, and the logger only feeds the UI.
- `FrameEngine.EffectiveFps`: fps is a natural number. Non-integer rates such as 29.97, microsecond rounding in `timedelta`, and negative rates are not modelled. For integer rates up to about 2,000,000, truncating `frame_index / fps` to whole seconds is what `strftime` shows; above that, `timedelta` rounds `(fps-1)/fps` seconds to the microsecond and so up to a whole second, which the model does not do.
- `CaptionSizer.FitScale`: scales are exact hundredths, not accumulated binary floating point. Both the 0.1 steps of line 114 and the 0.01 steps of line 117 accumulate rounding error, so the program's scale can differ from the exact value in its last bits. The floor test `font_scale > 0.1` of line 116 is then made on an inexact value, and the program can stop one fine step above or below where the exact floor of 10 hundredths stops.
- `CaptionSizer.TargetWidth`: computed as `width / 5`, not as the floating-point `int(width * 0.20)`.
- `CaptionSizer.Grow` requires a scale wide enough for the target (the ghost `ceiling`). Without one, the program's loop does not terminate.
- `Driver.ProcessVideo`, `FrameEngine.AnnotateFrames`, `FrameEngine.AdvanceOne`, `FrameEngine.WriteNext` and `FrameEngine.CaptionFrame` require one `ceiling` for all the captions the program can draw (`CaptionsReach`), where `Grow` requires it only for the one text it measures; they also require the width function to be monotone in the scale.
- `TimeSource.TaipeiText`: Asia/Taipei is a fixed +08:00, which is the zone's offset from 1980 on. `pytz`'s zone also has local mean time +08:06 before 1896, Japan Standard Time +09:00 from 1937-10-01 to 1945-09-21, and the daylight-saving periods of 1946-1979. For instants in those periods the model's text differs from the program's.
- `TimeSource.TaipeiTextMeaning`: its "eight hours after the UTC instant" is the model's fixed offset, so it matches the program only for instants outside the periods named for `TimeSource.TaipeiText`.
- `TimeSource.TaipeiTextOfUtc`: likewise holds for the program only for instants outside those periods.
- `TimeText.Format`: years are padded to four digits. `strftime`'s platform-dependent output for years before 1000 is not modelled.
- `TimeText.Parse`: only ASCII digits and ASCII whitespace are recognised. The Unicode digits and spaces that Python's regular expressions also accept are not.
- `OutputPath.SplitExt`: POSIX rules. Windows `\` separators and drive letters are not modelled.
- `FrameEngine.AnnotateFrames`: a frame count lower than the true count would report more than 100. This is stated only as the precondition of the bound lemmas (`ProgressBounds`, `ReportedNondecreasing`).
