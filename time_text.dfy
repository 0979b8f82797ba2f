/** `strftime('%Y-%m-%d %H:%M:%S')` and the `strptime` parses that the program applies
    to start-time strings (`'%Y-%m-%d %H:%M:%S'`) and to file-name dates (`'%Y-%m-%d'`).

    Python's `strptime` compiles the format into a regular expression: `%Y` is exactly
    four digits; `%m`, `%H`, `%M` and `%S` are one or two digits in their ranges (`%S`
    up to 61); `%d` is one or two digits from 1 to 31 or a space and a non-zero digit;
    a space in the format matches one or more whitespace characters. The match must
    cover the whole string, and `datetime` then rejects day numbers past the end of
    the month, year 0 and seconds 60 and 61. */
module TimeText {
  import opened Wrappers
  import opened Strings
  import opened CivilTime

  predicate IsDigit(c: char) { '0' <= c <= '9' }

  /** The ASCII characters Python's `\s` matches. */
  predicate IsSpace(c: char) { 9 <= c as int <= 13 || 28 <= c as int <= 32 }

  predicate AllDigits(s: string) { forall i :: 0 <= i < |s| ==> IsDigit(s[i]) }

  /** A string of digits holds no separator. */
  lemma DigitsExclude(s: string, c: char)
    requires AllDigits(s) && !IsDigit(c)
    ensures c !in s
  {
    assert forall i :: 0 <= i < |s| ==> s[i] != c;
  }

  function DigitChar(d: int): (c: char)
    requires 0 <= d <= 9
    ensures IsDigit(c)
  {
    ('0' as int + d) as char
  }

  function DigitValue(c: char): int
    requires IsDigit(c)
  {
    c as int - '0' as int
  }

  /** The decimal value of a string of digits. */
  function NumberValue(s: string): nat
    requires AllDigits(s)
  {
    if s == [] then 0 else NumberValue(s[..|s| - 1]) * 10 + DigitValue(s[|s| - 1])
  }

  // ---------------------------------------------------------------------------
  // strftime
  // ---------------------------------------------------------------------------

  lemma NumberValueAppend(a: string, c: char)
    requires AllDigits(a) && IsDigit(c)
    ensures AllDigits(a + [c]) && NumberValue(a + [c]) == NumberValue(a) * 10 + DigitValue(c)
  {
    assert (a + [c])[..|a|] == a;
  }

  /** Appending two digits multiplies the value by one hundred. */
  lemma NumberValueAppendTwo(a: string, b: string)
    requires AllDigits(a) && AllDigits(b) && |b| == 2
    ensures AllDigits(a + b) && NumberValue(a + b) == NumberValue(a) * 100 + NumberValue(b)
  {
    assert a + b == a + [b[0]] + [b[1]];
    assert b == [] + [b[0]] + [b[1]];
    NumberValueAppend(a, b[0]);
    NumberValueAppend(a + [b[0]], b[1]);
    NumberValueAppend([], b[0]);
    NumberValueAppend([] + [b[0]], b[1]);
  }

  /** A number below 100 in two digits, zero-padded. */
  function Pad2(n: int): (s: string)
    requires 0 <= n <= 99
    ensures |s| == 2
  {
    [DigitChar(n / 10), DigitChar(n % 10)]
  }

  /** A number below 10000 in four digits, zero-padded. */
  function Pad4(n: int): (s: string)
    requires 0 <= n <= 9999
    ensures |s| == 4
  {
    Pad2(n / 100) + Pad2(n % 100)
  }

  /** The two digits written by `Pad2` read back as the number. */
  lemma Pad2Digits(n: int)
    requires 0 <= n <= 99
    ensures AllDigits(Pad2(n)) && NumberValue(Pad2(n)) == n
  {
    var s := Pad2(n);
    assert s == [] + [s[0]] + [s[1]];
    NumberValueAppend([], s[0]);
    NumberValueAppend([] + [s[0]], s[1]);
  }

  /** The four digits written by `Pad4` read back as the number. */
  lemma Pad4Digits(n: int)
    requires 0 <= n <= 9999
    ensures AllDigits(Pad4(n)) && NumberValue(Pad4(n)) == n
  {
    Pad2Digits(n / 100);
    Pad2Digits(n % 100);
    NumberValueAppendTwo(Pad2(n / 100), Pad2(n % 100));
  }

  /** The six fields of a valid date-time read back from their padded digits. */
  lemma FieldDigits(t: DateTime)
    requires Valid(t)
    ensures AllDigits(Pad4(t.year)) && NumberValue(Pad4(t.year)) == t.year
    ensures AllDigits(Pad2(t.month)) && NumberValue(Pad2(t.month)) == t.month
    ensures AllDigits(Pad2(t.day)) && NumberValue(Pad2(t.day)) == t.day
    ensures AllDigits(Pad2(t.hour)) && NumberValue(Pad2(t.hour)) == t.hour
    ensures AllDigits(Pad2(t.minute)) && NumberValue(Pad2(t.minute)) == t.minute
    ensures AllDigits(Pad2(t.second)) && NumberValue(Pad2(t.second)) == t.second
  {
    Pad4Digits(t.year);
    Pad2Digits(t.month);
    Pad2Digits(t.day);
    Pad2Digits(t.hour);
    Pad2Digits(t.minute);
    Pad2Digits(t.second);
  }

  /** The positions of the separators in the layout `YYYY-MM-DD HH:MM:SS`. */
  predicate IsSeparatorPosition(i: int) { i == 4 || i == 7 || i == 10 || i == 13 || i == 16 }

  /** The fixed nineteen-character layout `YYYY-MM-DD HH:MM:SS`. */
  predicate Canonical(s: string) {
    && |s| == 19
    && (forall i :: 0 <= i < 19 && !IsSeparatorPosition(i) ==> IsDigit(s[i]))
    && s[4] == '-' && s[7] == '-' && s[10] == ' ' && s[13] == ':' && s[16] == ':'
  }

  /** `t.strftime('%Y-%m-%d %H:%M:%S')`, every field zero-padded. */
  function Format(t: DateTime): (s: string)
    requires Valid(t)
    ensures |s| == 19
  {
    Pad4(t.year) + "-" + Pad2(t.month) + "-" + Pad2(t.day) + " "
      + Pad2(t.hour) + ":" + Pad2(t.minute) + ":" + Pad2(t.second)
  }

  /** `strftime` always writes the nineteen-character zero-padded layout. */
  lemma FormatCanonical(t: DateTime)
    requires Valid(t)
    ensures Canonical(Format(t))
  {
    FieldDigits(t);
    CanonicalOf(Pad4(t.year), Pad2(t.month), Pad2(t.day), Pad2(t.hour), Pad2(t.minute), Pad2(t.second));
  }

  /** Four digits and five pairs of digits joined by the separators of the layout. */
  lemma CanonicalOf(y: string, mo: string, d: string, h: string, mi: string, sc: string)
    requires |y| == 4 && |mo| == 2 && |d| == 2 && |h| == 2 && |mi| == 2 && |sc| == 2
    requires AllDigits(y) && AllDigits(mo) && AllDigits(d) && AllDigits(h) && AllDigits(mi) && AllDigits(sc)
    ensures Canonical(y + "-" + mo + "-" + d + " " + h + ":" + mi + ":" + sc)
  {
    var s := y + "-" + mo + "-" + d + " " + h + ":" + mi + ":" + sc;
    assert s[0..4] == y && s[5..7] == mo && s[8..10] == d;
    assert s[11..13] == h && s[14..16] == mi && s[17..19] == sc;
  }

  /** A canonical string is its six fields joined by the separators of the layout. */
  lemma CanonicalJoin(s: string)
    requires Canonical(s)
    ensures s == s[0..4] + "-" + s[5..7] + "-" + s[8..10] + " " + s[11..13] + ":" + s[14..16] + ":" + s[17..19]
  {
    var f := s[0..4] + "-" + s[5..7] + "-" + s[8..10] + " " + s[11..13] + ":" + s[14..16] + ":" + s[17..19];
    assert f[0..4] == s[0..4] && f[5..7] == s[5..7] && f[8..10] == s[8..10];
    assert f[11..13] == s[11..13] && f[14..16] == s[14..16] && f[17..19] == s[17..19];
    forall i | 0 <= i < 19
      ensures f[i] == s[i]
    {
      if i < 4 { assert f[i] == f[0..4][i]; }
      else if 4 < i < 7 { assert f[i] == f[5..7][i - 5]; }
      else if 7 < i < 10 { assert f[i] == f[8..10][i - 8]; }
      else if 10 < i < 13 { assert f[i] == f[11..13][i - 11]; }
      else if 13 < i < 16 { assert f[i] == f[14..16][i - 14]; }
      else if 16 < i { assert f[i] == f[17..19][i - 17]; }
    }
  }

  // ---------------------------------------------------------------------------
  // strptime
  // ---------------------------------------------------------------------------

  /** A `%m`, `%H`, `%M` or `%S` field: one or two digits with a value in [lo, hi]. */
  predicate IsNumField(s: string, lo: int, hi: int) {
    1 <= |s| <= 2 && AllDigits(s) && lo <= NumberValue(s) <= hi
  }

  /** A `%d` field: `3[01]|[12]\d|0[1-9]|[1-9]| [1-9]`. */
  predicate IsDayField(s: string) {
    IsNumField(s, 1, 31) || (|s| == 2 && s[0] == ' ' && '1' <= s[1] <= '9')
  }

  function DayFieldValue(s: string): int
    requires IsDayField(s)
  {
    if s[0] == ' ' then DigitValue(s[1]) else NumberValue(s)
  }

  /** Where a `%d` field ends: the first whitespace character after its first character. */
  function DayEnd(s: string): (i: nat)
    ensures i <= |s|
    ensures |s| > 0 ==> 1 <= i
    ensures i < |s| ==> IsSpace(s[i])
    ensures forall k :: 1 <= k < i ==> !IsSpace(s[k])
  {
    if |s| <= 1 then |s| else 1 + SpaceIndex(s[1..])
  }

  function SpaceIndex(s: string): (i: nat)
    ensures i <= |s|
    ensures i < |s| ==> IsSpace(s[i])
    ensures forall k :: 0 <= k < i ==> !IsSpace(s[k])
  {
    if s == [] then 0 else if IsSpace(s[0]) then 0 else 1 + SpaceIndex(s[1..])
  }

  /** The length of the run of whitespace that starts `s`. */
  function SpaceRun(s: string): (n: nat)
    ensures n <= |s|
    ensures forall k :: 0 <= k < n ==> IsSpace(s[k])
    ensures n < |s| ==> !IsSpace(s[n])
  {
    if s != [] && IsSpace(s[0]) then 1 + SpaceRun(s[1..]) else 0
  }

  /** The range checks of the `datetime` constructor. */
  function MakeDateTime(y: int, m: int, d: int, h: int, mi: int, sec: int): (r: Option<DateTime>)
    requires 1 <= m <= 12
    ensures r.Some? <==> Valid(DateTime(y, m, d, h, mi, sec))
    ensures r.Some? ==> r.value == DateTime(y, m, d, h, mi, sec)
  {
    if MinYear <= y <= MaxYear && 1 <= d <= DaysInMonth(y, m) && 0 <= h <= 23
       && 0 <= mi <= 59 && 0 <= sec <= 59
    then Some(DateTime(y, m, d, h, mi, sec))
    else None
  }

  /** The texts of `%Y` and `%m`, and what follows the second `-`. */
  datatype DateParts = DateParts(year: string, month: string, rest: string)

  /** The texts of `%d`, `%H`, `%M` and `%S`. */
  datatype TimeParts = TimeParts(day: string, hour: string, minute: string, second: string)

  /** Cuts off `YYYY-` and the month text up to the next `-`. */
  function SplitYearMonth(s: string): Option<DateParts> {
    if |s| < 5 || !AllDigits(s[..4]) || s[4] != '-' then None
    else
      var r := s[5..];
      var i := IndexOf(r, '-');
      if i == |r| then None else Some(DateParts(s[..4], r[..i], r[i + 1..]))
  }

  /** Cuts what follows the month into the day text, the whitespace run, and the hour,
      minute and second texts separated by `:`. */
  function SplitDayTime(r: string): Option<TimeParts> {
    var j := DayEnd(r);
    var r3 := r[j..];
    var k := SpaceRun(r3);
    var r4 := r3[k..];
    var a := IndexOf(r4, ':');
    var r5 := if a < |r4| then r4[a + 1..] else "";
    var b := IndexOf(r5, ':');
    if k == 0 || a == |r4| || b == |r5| then None
    else Some(TimeParts(r[..j], r4[..a], r5[..b], r5[b + 1..]))
  }

  /** The field checks of the regular expression, then those of `datetime`. */
  function FromParts(y: string, m: string, p: TimeParts): (r: Option<DateTime>)
    ensures r.Some? ==> Valid(r.value)
  {
    if AllDigits(y) && IsNumField(m, 1, 12) && IsDayField(p.day) && IsNumField(p.hour, 0, 23)
       && IsNumField(p.minute, 0, 59) && IsNumField(p.second, 0, 61)
    then MakeDateTime(NumberValue(y), NumberValue(m), DayFieldValue(p.day),
                      NumberValue(p.hour), NumberValue(p.minute), NumberValue(p.second))
    else None
  }

  /** `datetime.strptime(s, '%Y-%m-%d %H:%M:%S')`; `None` is the `ValueError`. */
  function Parse(s: string): (r: Option<DateTime>)
    ensures r.Some? ==> Valid(r.value)
  {
    match SplitYearMonth(s)
    case None => None
    case Some(dp) =>
      match SplitDayTime(dp.rest)
      case None => None
      case Some(tp) => FromParts(dp.year, dp.month, tp)
  }

  /** `datetime.strptime(s, '%Y-%m-%d')` (midnight of that day); `None` is the `ValueError`. */
  function ParseDate(s: string): (r: Option<DateTime>)
    ensures r.Some? ==> Valid(r.value)
    ensures r.Some? ==> r.value.hour == 0 && r.value.minute == 0 && r.value.second == 0
  {
    assert NumberValue("0") == 0 by {
      assert "0"[..0] == "";
    }
    match SplitYearMonth(s)
    case None => None
    case Some(dp) => FromParts(dp.year, dp.month, TimeParts(dp.rest, "0", "0", "0"))
  }

  // ---------------------------------------------------------------------------
  // Round trips
  // ---------------------------------------------------------------------------

  /** The six numbers written at the fixed positions of a canonical string. */
  function FieldsOf(s: string): DateTime
    requires Canonical(s)
  {
    DateTime(NumberValue(s[0..4]), NumberValue(s[5..7]), NumberValue(s[8..10]),
             NumberValue(s[11..13]), NumberValue(s[14..16]), NumberValue(s[17..19]))
  }

  /** On the zero-padded layout, followed by any text `ext`, the year and the month are
      cut at their fixed positions. */
  lemma SplitYearMonthFixed(s: string, ext: string)
    requires Canonical(s)
    ensures SplitYearMonth(s + ext) == Some(DateParts(s[0..4], s[5..7], s[8..] + ext))
  {
    var u := s + ext;
    assert forall k :: 0 <= k < 19 ==> u[k] == s[k];
    var r := u[5..];
    assert r[2] == '-' && r[0] != '-' && r[1] != '-';
    assert IndexOf(r, '-') == 2;
    assert u[..4] == s[..4];
    assert AllDigits(u[..4]);
    assert r[..2] == s[5..7] by {
      assert r[..2] == u[5..7] && u[5..7] == s[5..7];
    }
    assert r[3..] == s[8..] + ext by {
      assert r[3..] == u[8..];
    }
  }

  /** The day, hour, minute and second texts are cut at their fixed positions too; any
      text `ext` after the layout stays attached to the seconds. */
  lemma SplitDayTimeFixed(s: string, ext: string)
    requires Canonical(s)
    ensures SplitDayTime(s[8..] + ext) == Some(TimeParts(s[8..10], s[11..13], s[14..16], s[17..19] + ext))
  {
    var r2 := s[8..] + ext;
    assert forall k :: 0 <= k < 11 ==> r2[k] == s[8 + k];
    assert IsSpace(r2[2]) && !IsSpace(r2[1]);
    assert DayEnd(r2) == 2;
    var r3 := r2[2..];
    assert r2[..2] == s[8..10];
    assert IsSpace(r3[0]) && !IsSpace(r3[1]);
    assert SpaceRun(r3) == 1;
    var r4 := r3[1..];
    assert r4 == s[11..] + ext;
    assert r4[2] == ':' && r4[0] != ':' && r4[1] != ':';
    assert IndexOf(r4, ':') == 2;
    var r5 := r4[3..];
    assert r5 == s[14..] + ext;
    assert r4[..2] == s[11..13];
    assert r5[2] == ':' && r5[0] != ':' && r5[1] != ':';
    assert IndexOf(r5, ':') == 2;
    assert r5[..2] == s[14..16] && r5[3..] == s[17..19] + ext;
  }

  /** On the zero-padded layout, `strptime` reads the fixed positions and accepts
      exactly the valid date-times. */
  lemma FromPartsFixed(s: string)
    requires Canonical(s)
    ensures var r := FromParts(s[0..4], s[5..7], TimeParts(s[8..10], s[11..13], s[14..16], s[17..19]));
      (r.Some? <==> Valid(FieldsOf(s))) && (r.Some? ==> r.value == FieldsOf(s))
  {
    var y, m, d, h, mi, sc := s[0..4], s[5..7], s[8..10], s[11..13], s[14..16], s[17..19];
    assert AllDigits(y) && AllDigits(m) && AllDigits(d) && AllDigits(h) && AllDigits(mi) && AllDigits(sc);
    assert d[0] != ' ';
  }

  /** On the zero-padded layout, `strptime` reads the fixed positions and accepts
      exactly the valid date-times. */
  lemma ParseFixedLayout(s: string)
    requires Canonical(s)
    ensures Parse(s).Some? <==> Valid(FieldsOf(s))
    ensures Parse(s).Some? ==> Parse(s).value == FieldsOf(s)
  {
    ParseCanonical(s);
    FromPartsFixed(s);
  }

  /** On the zero-padded layout the cuts fall at the fixed positions. */
  lemma ParseCanonical(s: string)
    requires Canonical(s)
    ensures Parse(s) == FromParts(s[0..4], s[5..7], TimeParts(s[8..10], s[11..13], s[14..16], s[17..19]))
  {
    var dp := DateParts(s[0..4], s[5..7], s[8..]);
    var tp := TimeParts(s[8..10], s[11..13], s[14..16], s[17..19]);
    assert SplitYearMonth(s) == Some(dp) by {
      assert s + "" == s && s[8..] + "" == s[8..];
      SplitYearMonthFixed(s, "");
    }
    assert SplitDayTime(dp.rest) == Some(tp) by {
      assert s[8..] + "" == s[8..] && s[17..19] + "" == s[17..19];
      SplitDayTimeFixed(s, "");
    }
  }

  /** Reading back what `strftime` wrote gives the same date-time. */
  lemma ParseFormat(t: DateTime)
    requires Valid(t)
    ensures Parse(Format(t)) == Some(t)
  {
    var s := Format(t);
    FormatCanonical(t);
    FieldDigits(t);
    assert s[0..4] == Pad4(t.year) && s[5..7] == Pad2(t.month) && s[8..10] == Pad2(t.day);
    assert s[11..13] == Pad2(t.hour) && s[14..16] == Pad2(t.minute) && s[17..19] == Pad2(t.second);
    assert FieldsOf(s) == t;
    ParseFixedLayout(s);
  }

  lemma PadOfNumber2(x: string)
    requires |x| == 2 && AllDigits(x)
    ensures NumberValue(x) <= 99 && Pad2(NumberValue(x)) == x
  {
    var hi, lo := DigitValue(x[0]), DigitValue(x[1]);
    assert NumberValue(x) == hi * 10 + lo by {
      assert x == [] + [x[0]] + [x[1]];
      NumberValueAppend([], x[0]);
      NumberValueAppend([] + [x[0]], x[1]);
    }
    DivMod10(hi, lo);
    assert DigitChar(hi) == x[0] && DigitChar(lo) == x[1];
  }

  lemma DivMod10(a: int, b: int)
    requires 0 <= b < 10
    ensures (a * 10 + b) / 10 == a && (a * 10 + b) % 10 == b
  {
  }

  lemma PadOfNumber4(x: string)
    requires |x| == 4 && AllDigits(x)
    ensures NumberValue(x) <= 9999 && Pad4(NumberValue(x)) == x
  {
    var hi, lo := x[..2], x[2..];
    assert AllDigits(hi) && AllDigits(lo);
    PadOfNumber2(hi);
    PadOfNumber2(lo);
    var h, l, n := NumberValue(hi), NumberValue(lo), NumberValue(x);
    assert n == h * 100 + l by {
      assert x == hi + lo;
      NumberValueAppendTwo(hi, lo);
    }
    assert n / 100 == h && n % 100 == l by {
      DivMod100(h, l);
    }
    assert Pad4(n) == hi + lo by {
      assert Pad4(n) == Pad2(h) + Pad2(l);
    }
    assert hi + lo == x;
  }


  lemma DivMod100(a: int, b: int)
    requires 0 <= b < 100
    ensures (a * 100 + b) / 100 == a && (a * 100 + b) % 100 == b
  {
  }

  lemma FormatFieldsOf(s: string)
    requires Canonical(s) && Valid(FieldsOf(s))
    ensures Format(FieldsOf(s)) == s
  {
    PadOfNumber4(s[0..4]);
    PadOfNumber2(s[5..7]);
    PadOfNumber2(s[8..10]);
    PadOfNumber2(s[11..13]);
    PadOfNumber2(s[14..16]);
    PadOfNumber2(s[17..19]);
    CanonicalJoin(s);
  }

  /** A zero-padded string that parses is written back unchanged. */
  lemma FormatParse(s: string)
    requires Canonical(s) && Parse(s).Some?
    ensures Format(Parse(s).value) == s
  {
    ParseFixedLayout(s);
    FormatFieldsOf(s);
  }

  /** `strptime` refuses any text left after the seconds ("unconverted data remains"). */
  lemma ParseRejectsTrailing(s: string, ext: string)
    requires Canonical(s) && ext != ""
    ensures Parse(s + ext) == None
  {
    var u := s + ext;
    var tp := TimeParts(s[8..10], s[11..13], s[14..16], s[17..19] + ext);
    assert SplitYearMonth(u) == Some(DateParts(s[0..4], s[5..7], s[8..] + ext)) by {
      SplitYearMonthFixed(s, ext);
    }
    assert SplitDayTime(s[8..] + ext) == Some(tp) by {
      SplitDayTimeFixed(s, ext);
    }
    assert !IsNumField(tp.second, 0, 61);
  }
}
