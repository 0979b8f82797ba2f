/** How `select_video` (lines 137-165) fills in the start-time field: the container's
    `creation_time` tag converted to Taipei time (lines 41-52), else the date and time
    spelled in the file name, else the file's modification time, else nothing.

    The external probes are inputs here: the tag arrives already read by `fromisoformat`
    as a civil date-time with its UTC offset (`None` when `ffprobe` printed nothing or
    the text did not parse), and the modification time arrives already converted to
    local civil time (`None` when the file system could not give one). */
module TimeSource {
  import opened Wrappers
  import opened Strings
  import opened CivilTime
  import opened TimeText

  /** An offset-aware `datetime`: civil fields and their offset from UTC in seconds. */
  datatype Aware = Aware(local: DateTime, offset: int)

  predicate ValidAware(a: Aware) {
    Valid(a.local) && -86400 < a.offset < 86400
  }

  /** Asia/Taipei's offset from UTC, +08:00, as it has been since 1980. Earlier the zone
      also used +08:06 (before 1896), +09:00 (1937-10-01 to 1945-09-21) and daylight
      saving (1946-1979); the model uses +08:00 throughout. */
  const TaipeiOffset: int := 8 * 3600

  /** The instant `a` denotes, in seconds since 0001-01-01 00:00:00 UTC. */
  function InstantOf(a: Aware): int
    requires 1 <= a.local.month <= 12
  {
    ToSeconds(a.local) - a.offset
  }

  /** Lines 44-49: `dt.astimezone(pytz.utc)`, then `.astimezone(Asia/Taipei)`, then
      `strftime`. Either conversion raises `OverflowError` outside the years 1 to 9999;
      the handler at line 50 turns that into `None`. */
  function TaipeiText(a: Aware): (r: Option<string>)
    requires ValidAware(a)
    ensures r.Some? <==> 0 <= InstantOf(a) < EndOfRange() && InstantOf(a) + TaipeiOffset < EndOfRange()
  {
    UtcToTaipeiText(UtcOf(a))
  }

  /** Line 46: `dt.astimezone(pytz.utc)`, `None` on overflow. */
  function UtcOf(a: Aware): (u: Option<DateTime>)
    requires ValidAware(a)
    ensures u.Some? ==> Valid(u.value) && ToSeconds(u.value) == InstantOf(a)
    ensures u.None? <==> !(0 <= InstantOf(a) < EndOfRange())
  {
    Add(a.local, -a.offset)
  }

  /** The second conversion and the formatting, once the UTC time is known. */
  function UtcToTaipeiText(utc: Option<DateTime>): Option<string>
    requires utc.Some? ==> Valid(utc.value)
  {
    match utc
    case None => None
    case Some(u) =>
      match Add(u, TaipeiOffset)
      case None => None
      case Some(tw) => Some(Format(tw))
  }

  /** The tag's instant shown on a +08:00 clock: the text is the one date-time eight hours
      after the UTC instant, and it exists exactly when the UTC instant and the Taipei
      time both lie in the years 1 to 9999. */
  lemma TaipeiTextMeaning(a: Aware)
    requires ValidAware(a)
    ensures TaipeiText(a).Some? <==>
      0 <= InstantOf(a) < EndOfRange() && InstantOf(a) + TaipeiOffset < EndOfRange()
    ensures TaipeiText(a).Some? ==>
      (exists t :: Valid(t) && ToSeconds(t) == InstantOf(a) + TaipeiOffset && TaipeiText(a) == Some(Format(t)))
  {
    var u := Add(a.local, -a.offset);
    if u.Some? {
      var w := Add(u.value, TaipeiOffset);
      if w.Some? {
        assert Valid(w.value) && ToSeconds(w.value) == InstantOf(a) + TaipeiOffset;
      }
    }
  }

  /** Two tags that denote the same instant, whatever their offsets, give the same text. */
  lemma TaipeiTextSameInstant(a: Aware, b: Aware)
    requires ValidAware(a) && ValidAware(b)
    requires InstantOf(a) == InstantOf(b)
    ensures TaipeiText(a) == TaipeiText(b)
  {
    SameUtc(a, b);
  }

  lemma SameUtc(a: Aware, b: Aware)
    requires ValidAware(a) && ValidAware(b)
    requires InstantOf(a) == InstantOf(b)
    ensures UtcOf(a) == UtcOf(b)
  {
    var ua, ub := UtcOf(a), UtcOf(b);
    if ua.Some? {
      ToSecondsInjective(ua.value, ub.value);
    }
  }

  /** A UTC tag (`...Z`) is shown as the date-time eight hours later: the +08:00 the
      zone has kept since 1980, taken here for every instant. */
  lemma TaipeiTextOfUtc(t: DateTime, u: DateTime)
    requires Valid(t) && Valid(u)
    requires ToSeconds(u) == ToSeconds(t) + TaipeiOffset
    ensures TaipeiText(Aware(t, 0)) == Some(Format(u))
  {
    RangeBySeconds(t);
    RangeBySeconds(u);
    var a := Add(t, -0);
    ToSecondsInjective(a.value, t);
    var w := Add(t, TaipeiOffset);
    ToSecondsInjective(w.value, u);
  }

  // ---------------------------------------------------------------------------
  // The file-name convention
  // ---------------------------------------------------------------------------

  /** Line 149: `video_path.split("/")[-1]`. */
  function FileName(path: string): (name: string)
    ensures '/' !in name
    ensures name == path[RFind(path, '/') + 1..]
  {
    var parts := Split(path, '/');
    assert parts[|parts| - 1] in parts;
    SplitLastPiece(path, '/');
    parts[|parts| - 1]
  }

  /** Lines 151-154. The first `_`-separated token must be a date `strptime` accepts under
      `'%Y-%m-%d'` and is kept as written; the second token is split on `-` and its first
      three pieces are joined with `:` without any check. A missing token or piece is an
      `IndexError`; every failure is caught at line 157 (`None`). */
  function FileNameText(name: string): (r: Option<string>)
    ensures var tokens := Split(name, '_');
      r.Some? <==> ParseDate(tokens[0]).Some? && |tokens| >= 2 && |Split(tokens[1], '-')| >= 3
    ensures r.Some? ==> var date := Split(name, '_')[0]; ParseDate(date).Some? && date + " " <= r.value
  {
    var tokens := Split(name, '_');
    if ParseDate(tokens[0]).None? || |tokens| < 2 then None
    else
      var pieces := Split(tokens[1], '-');
      if |pieces| < 3 then None
      else Some(tokens[0] + " " + pieces[0] + ":" + pieces[1] + ":" + pieces[2])
  }

  /** The date part `YYYY-MM-DD` of a formatted date-time. */
  function DateText(t: DateTime): string
    requires Valid(t)
  {
    Pad4(t.year) + "-" + Pad2(t.month) + "-" + Pad2(t.day)
  }

  /** The naming convention of the cameras: `YYYY-MM-DD_HH-MM-SS`. */
  function StampName(t: DateTime): string
    requires Valid(t)
  {
    DateText(t) + "_" + ClockName(t)
  }

  /** The time part `HH-MM-SS` of a camera file name. */
  function ClockName(t: DateTime): string
    requires Valid(t)
  {
    Pad2(t.hour) + "-" + Pad2(t.minute) + "-" + Pad2(t.second)
  }

  /** `strptime(..., '%Y-%m-%d')` accepts every formatted date, at midnight. */
  lemma ParseDateText(t: DateTime)
    requires Valid(t)
    ensures ParseDate(DateText(t)) == Some(DateTime(t.year, t.month, t.day, 0, 0, 0))
  {
    FieldDigits(t);
    var y, m, d := Pad4(t.year), Pad2(t.month), Pad2(t.day);
    DigitsExclude(m, '-');
    SplitDateOf(y, m, d);
    assert NumberValue("0") == 0 by {
      assert "0"[..0] == "";
    }
  }

  /** A zero-padded `YYYY-MM-DD`. */
  predicate CanonicalDate(s: string) {
    && |s| == 10 && s[4] == '-' && s[7] == '-'
    && AllDigits(s[0..4]) && AllDigits(s[5..7]) && AllDigits(s[8..10])
  }

  /** Conversely, on the zero-padded layout `strptime(..., '%Y-%m-%d')` accepts exactly the
      valid dates, and the date it accepts is written back as the same text. */
  lemma ParseDateCanonical(s: string)
    requires CanonicalDate(s)
    ensures ParseDate(s).Some? <==>
      Valid(DateTime(NumberValue(s[0..4]), NumberValue(s[5..7]), NumberValue(s[8..10]), 0, 0, 0))
    ensures ParseDate(s).Some? ==> DateText(ParseDate(s).value) == s
  {
    var y, m, d := s[0..4], s[5..7], s[8..10];
    assert s == y + "-" + m + "-" + d;
    DigitsExclude(m, '-');
    SplitDateOf(y, m, d);
    PadOfNumber4(y);
    PadOfNumber2(m);
    PadOfNumber2(d);
    assert NumberValue("0") == 0 by {
      assert "0"[..0] == "";
    }
  }

  /** `YYYY-` and then text up to the next `-`: the year, the month text and the rest. */
  lemma SplitDateOf(y: string, m: string, d: string)
    requires |y| == 4 && AllDigits(y) && '-' !in m
    ensures SplitYearMonth(y + "-" + m + "-" + d) == Some(DateParts(y, m, d))
  {
    var s, r := y + "-" + m + "-" + d, m + "-" + d;
    assert |s| >= 5 && s[..4] == y && s[4] == '-' && s[5..] == r by {
      assert s == y + "-" + r;
    }
    assert IndexOf(r, '-') == |m| && r[..|m|] == m && r[|m| + 1..] == d by {
      assert r == m + ("-" + d);
      IndexOfAppend(m, "-" + d, '-');
    }
  }

  /** A file named by the convention yields its date and time as `process_video` expects
      them. Whatever follows the seconds up to the next `_` (`ext`, free of `-`) is not
      checked and stays attached to the seconds; text after a further `_` (`rest`) is
      dropped. */
  lemma FileNameTextOfStamp(t: DateTime, ext: string, rest: string)
    requires Valid(t)
    requires '_' !in ext && '-' !in ext
    requires rest == "" || rest[0] == '_'
    ensures FileNameText(StampName(t) + ext + rest) == Some(Format(t) + ext)
  {
    var h, mi, s := Pad2(t.hour), Pad2(t.minute), Pad2(t.second);
    var date := DateText(t);
    FieldDigits(t);
    assert '_' !in date && '-' !in h && '-' !in mi && '-' !in s + ext
      && '_' !in h + "-" + mi + "-" + (s + ext) by {
      DigitsExclude(Pad4(t.year), '_');
      DigitsExclude(Pad2(t.month), '_');
      DigitsExclude(Pad2(t.day), '_');
      DigitsExclude(h, '_');
      DigitsExclude(mi, '_');
      DigitsExclude(s, '_');
      DigitsExclude(h, '-');
      DigitsExclude(mi, '-');
      DigitsExclude(s, '-');
    }
    assert StampName(t) + ext + rest == date + "_" + (h + "-" + mi + "-" + (s + ext)) + rest;
    ParseDateText(t);
    assert h + "-" + mi + "-" + (s + ext) + "" == h + "-" + mi + "-" + (s + ext);
    FileNameTextParts(date, h, mi, s + ext, "", rest);
    FormatWithSuffix(t, ext);
  }

  /** What the name parser reads: a date `strptime` accepts, `_`, three `-`-separated
      pieces free of `_` (and possibly more `-` pieces, which are dropped), then nothing or
      `_` and anything, gives the date, a space and the three pieces joined with `:`. */
  lemma FileNameTextParts(date: string, h: string, m: string, s: string, more: string, rest: string)
    requires ParseDate(date).Some?
    requires '_' !in date && '_' !in h + "-" + m + "-" + s + more
    requires '-' !in h && '-' !in m && '-' !in s
    requires more == "" || more[0] == '-'
    requires rest == "" || rest[0] == '_'
    ensures FileNameText(date + "_" + (h + "-" + m + "-" + s + more) + rest) ==
      Some(date + " " + h + ":" + m + ":" + s)
  {
    TwoTokens(date, h + "-" + m + "-" + s + more, rest);
    ThreePieces(h, m, s, more);
  }

  /** A name without `_` has no time token: the lookup of the second token fails and
      the name gives nothing (`2024-05-01.mp4`). */
  lemma FileNameWithoutTime(name: string)
    requires '_' !in name
    ensures FileNameText(name) == None
  {
    SplitNone(name, '_');
  }

  /** A time token with fewer than three `-`-separated pieces fails the lookup of the
      third piece, whatever the date and whatever follows a further `_`. */
  lemma FileNameShortTime(date: string, time: string, rest: string)
    requires '_' !in date && '_' !in time
    requires rest == "" || rest[0] == '_'
    requires |Split(time, '-')| < 3
    ensures FileNameText(date + "_" + time + rest) == None
  {
    TwoTokens(date, time, rest);
  }

  /** `HH-MM` alone, as in `2024-05-01_14-30.mp4`, is such a token. */
  lemma FileNameHoursMinutes(date: string, h: string, m: string, rest: string)
    requires '_' !in date && '_' !in h + "-" + m
    requires '-' !in h && '-' !in m
    requires rest == "" || rest[0] == '_'
    ensures FileNameText(date + "_" + (h + "-" + m) + rest) == None
  {
    assert h + "-" + m == h + ['-'] + m;
    SplitAtFirst(h, m, '-');
    SplitNone(m, '-');
    FileNameShortTime(date, h + "-" + m, rest);
  }

  /** The first two `_`-separated tokens of `date_time` followed by nothing or by `_`
      and more text. */
  lemma TwoTokens(date: string, time: string, rest: string)
    requires '_' !in date && '_' !in time
    requires rest == "" || rest[0] == '_'
    ensures var tokens := Split(date + "_" + time + rest, '_');
      |tokens| >= 2 && tokens[0] == date && tokens[1] == time
  {
    assert date + "_" + time + rest == date + ['_'] + (time + rest);
    SplitAtFirst(date, time + rest, '_');
    if rest == "" {
      assert time + rest == time;
      SplitNone(time, '_');
    } else {
      assert time + rest == time + ['_'] + rest[1..];
      SplitAtFirst(time, rest[1..], '_');
    }
  }

  /** The first three `-`-separated pieces of `h-m-s` followed by nothing or by `-` and
      more text. */
  lemma ThreePieces(h: string, m: string, s: string, more: string)
    requires '-' !in h && '-' !in m && '-' !in s
    requires more == "" || more[0] == '-'
    ensures var pieces := Split(h + "-" + m + "-" + s + more, '-');
      |pieces| >= 3 && pieces[0] == h && pieces[1] == m && pieces[2] == s
  {
    var tail := m + ['-'] + (s + more);
    assert h + "-" + m + "-" + s + more == h + ['-'] + tail;
    SplitAtFirst(h, tail, '-');
    SplitAtFirst(m, s + more, '-');
    FirstPiece(s, more);
  }

  /** A `-`-free text followed by nothing or by `-` is the first `-`-separated piece. */
  lemma FirstPiece(s: string, more: string)
    requires '-' !in s
    requires more == "" || more[0] == '-'
    ensures Split(s + more, '-')[0] == s
  {
    if more == "" {
      assert s + more == s;
      SplitNone(s, '-');
    } else {
      assert s + more == s + ['-'] + more[1..];
      SplitAtFirst(s, more[1..], '-');
    }
  }

  /** `Format` is the date text, a space, then the time of day. */
  lemma FormatWithSuffix(t: DateTime, ext: string)
    requires Valid(t)
    ensures Format(t) + ext ==
      DateText(t) + " " + Pad2(t.hour) + ":" + Pad2(t.minute) + ":" + (Pad2(t.second) + ext)
  {
  }

  /** The camera convention proper: `YYYY-MM-DD_HH-MM-SS`, alone or followed by `_` and
      more text (`2024-05-01_14-30-00_clip.mp4`), gives `YYYY-MM-DD HH:MM:SS`, which
      `process_video` reads back as the same date-time. */
  lemma FileNameConvention(t: DateTime, rest: string)
    requires Valid(t)
    requires rest == "" || rest[0] == '_'
    ensures FileNameText(StampName(t) + rest) == Some(Format(t))
    ensures Parse(FileNameText(StampName(t) + rest).value) == Some(t)
  {
    FileNameTextOfStamp(t, "", rest);
    assert StampName(t) + "" + rest == StampName(t) + rest;
    assert Format(t) + "" == Format(t);
    ParseFormat(t);
  }

  /** Because the pieces are unchecked, a name whose extension follows the seconds
      directly (`2024-05-01_14-30-00.mp4`) fills in a text that `process_video` refuses. */
  lemma FileNameExtensionRefused(t: DateTime, ext: string)
    requires Valid(t)
    requires ext != "" && '_' !in ext && '-' !in ext
    ensures FileNameText(StampName(t) + ext) == Some(Format(t) + ext)
    ensures Parse(Format(t) + ext) == None
  {
    FileNameTextOfStamp(t, ext, "");
    assert StampName(t) + ext + "" == StampName(t) + ext;
    FormatCanonical(t);
    ParseRejectsTrailing(Format(t), ext);
  }

  /** A name that does not start with a digit (`clip.mp4`) gives nothing. */
  lemma FileNameNoConvention(name: string)
    requires name == [] || !IsDigit(name[0])
    ensures FileNameText(name) == None
  {
    var i := IndexOf(name, '_');
    var first := Split(name, '_')[0];
    assert first == name[..i];
    assert SplitYearMonth(first) == None by {
      if |first| >= 5 {
        assert first[..4][0] == name[0];
      }
    }
  }

  // ---------------------------------------------------------------------------
  // The fallback chain
  // ---------------------------------------------------------------------------

  /** The two entry fields of the window: the video path and the start time. */
  datatype Entries = Entries(video: string, time: string)

  /** Lines 139-165 after the file dialog returned `path`: an empty path (the dialog was
      cancelled) changes nothing; otherwise the path is shown and the start time comes
      from the tag, else the file name, else the modification time, else it is kept. */
  function SelectVideo(entries: Entries, path: string, tag: Option<Aware>, mtime: Option<DateTime>)
    : (r: Entries)
    requires tag.Some? ==> ValidAware(tag.value)
    requires mtime.Some? ==> Valid(mtime.value)
    ensures path == "" ==> r == entries
    ensures path != "" ==> r.video == path
  {
    if path == "" then entries
    else
      var fromTag := if tag.Some? then TaipeiText(tag.value) else None;
      var fromName := FileNameText(FileName(path));
      var time :=
        if fromTag.Some? then fromTag.value
        else if fromName.Some? then fromName.value
        else if mtime.Some? then Format(mtime.value)
        else entries.time;
      Entries(path, time)
  }

  /** The precedence of the sources: the tag whenever it converts, the file name only
      when the tag does not, the modification time only when neither does, and the old
      field only when no source gives a time. */
  lemma SelectVideoPrecedence(entries: Entries, path: string, tag: Option<Aware>, mtime: Option<DateTime>)
    requires path != ""
    requires tag.Some? ==> ValidAware(tag.value)
    requires mtime.Some? ==> Valid(mtime.value)
    ensures var r := SelectVideo(entries, path, tag, mtime);
      var tagText := if tag.Some? then TaipeiText(tag.value) else None;
      var nameText := FileNameText(FileName(path));
      && (tagText.Some? ==> r.time == tagText.value)
      && (tagText.None? && nameText.Some? ==> r.time == nameText.value)
      && (tagText.None? && nameText.None? && mtime.Some? ==> r.time == Format(mtime.value))
      && (tagText.None? && nameText.None? && mtime.None? ==> r.time == entries.time)
  {
  }

  /** Whatever the tag or the modification time supplied reads back, under
      `process_video`'s format, as a valid date-time. */
  lemma SelectVideoParses(entries: Entries, path: string, tag: Option<Aware>, mtime: Option<DateTime>)
    requires path != ""
    requires tag.Some? ==> ValidAware(tag.value)
    requires mtime.Some? ==> Valid(mtime.value)
    requires (tag.Some? && TaipeiText(tag.value).Some?) || mtime.Some?
    requires FileNameText(FileName(path)).None? || (tag.Some? && TaipeiText(tag.value).Some?)
    ensures Parse(SelectVideo(entries, path, tag, mtime).time).Some?
  {
    if tag.Some? && TaipeiText(tag.value).Some? {
      TaipeiTextMeaning(tag.value);
      var t :| Valid(t) && ToSeconds(t) == InstantOf(tag.value) + TaipeiOffset && TaipeiText(tag.value) == Some(Format(t));
      ParseFormat(t);
    } else {
      ParseFormat(mtime.value);
    }
  }

  /** A conventional name holds digits, `-` and `_` only. */
  lemma StampNameExcludes(t: DateTime, c: char)
    requires Valid(t) && !IsDigit(c) && c != '-' && c != '_'
    ensures c !in StampName(t)
  {
    FieldDigits(t);
    assert c !in DateText(t) by {
      DigitsExclude(Pad4(t.year), c);
      DigitsExclude(Pad2(t.month), c);
      DigitsExclude(Pad2(t.day), c);
    }
    assert c !in ClockName(t) by {
      DigitsExclude(Pad2(t.hour), c);
      DigitsExclude(Pad2(t.minute), c);
      DigitsExclude(Pad2(t.second), c);
    }
  }

  /** A camera-named file without a tag gets its start time from the name. */
  lemma SelectVideoByName(entries: Entries, dir: string, t: DateTime, rest: string, mtime: Option<DateTime>)
    requires Valid(t) && (rest == "" || rest[0] == '_') && '/' !in rest
    requires mtime.Some? ==> Valid(mtime.value)
    ensures SelectVideo(entries, dir + "/" + StampName(t) + rest, None, mtime) ==
      Entries(dir + "/" + StampName(t) + rest, Format(t))
  {
    var name := StampName(t) + rest;
    var path := dir + "/" + StampName(t) + rest;
    assert '/' !in name by {
      StampNameExcludes(t, '/');
    }
    assert FileName(path) == name by {
      assert path == dir + ['/'] + name;
      SplitLast(dir, name, '/');
    }
    FileNameConvention(t, rest);
    assert FileNameText(FileName(path)) == Some(Format(t));
  }
}
