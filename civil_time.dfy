/** Proleptic Gregorian civil date-times at second resolution, as Python's
    `datetime.datetime` holds them, and the addition of a signed number of seconds
    with carry into minutes, hours, days, months and years. */
module CivilTime {
  import opened Wrappers

  datatype DateTime = DateTime(year: int, month: int, day: int, hour: int, minute: int, second: int)

  /** The year range of Python's `datetime` (`MINYEAR` and `MAXYEAR`). */
  const MinYear: int := 1
  const MaxYear: int := 9999

  predicate IsLeapYear(y: int) {
    y % 4 == 0 && (y % 100 != 0 || y % 400 == 0)
  }

  function DaysInMonth(y: int, m: int): (n: int)
    requires 1 <= m <= 12
    ensures 28 <= n <= 31
    ensures n == 29 <==> m == 2 && IsLeapYear(y)
  {
    if m == 2 then (if IsLeapYear(y) then 29 else 28)
    else if m == 4 || m == 6 || m == 9 || m == 11 then 30
    else 31
  }

  function DaysInYear(y: int): int {
    if IsLeapYear(y) then 366 else 365
  }

  /** The field ranges of a civil date-time, for any year. */
  predicate WellFormed(t: DateTime) {
    && 1 <= t.month <= 12
    && 1 <= t.day <= DaysInMonth(t.year, t.month)
    && 0 <= t.hour < 24 && 0 <= t.minute < 60 && 0 <= t.second < 60
  }

  /** A value a Python `datetime` can hold. */
  predicate Valid(t: DateTime) {
    WellFormed(t) && MinYear <= t.year <= MaxYear
  }

  // ---------------------------------------------------------------------------
  // The linear time line: seconds since 0001-01-01 00:00:00
  // ---------------------------------------------------------------------------

  function DaysBeforeMonth(y: int, m: int): int
    requires 1 <= m <= 13
  {
    if m == 1 then 0 else DaysBeforeMonth(y, m - 1) + DaysInMonth(y, m - 1)
  }

  /** Days in the years before `y`, counted from year 1 (negative for `y < 1`). */
  function DaysBeforeYear(y: int): int {
    var p := y - 1;
    365 * p + p / 4 - p / 100 + p / 400
  }

  /** Days from 0001-01-01 to the date of `t`. */
  function DayNumber(t: DateTime): int
    requires 1 <= t.month <= 12
  {
    DaysBeforeYear(t.year) + DaysBeforeMonth(t.year, t.month) + t.day - 1
  }

  function SecondOfDay(t: DateTime): int {
    t.hour * 3600 + t.minute * 60 + t.second
  }

  /** Seconds from 0001-01-01 00:00:00 to `t`: the reference against which the
      carrying arithmetic below is proved. */
  function ToSeconds(t: DateTime): int
    requires 1 <= t.month <= 12
  {
    DayNumber(t) * 86400 + SecondOfDay(t)
  }

  /** All twelve months add up to the length of the year. */
  lemma YearLength(y: int)
    ensures DaysBeforeMonth(y, 13) == DaysInYear(y)
  {
    var f := DaysInMonth(y, 2);
    assert DaysBeforeMonth(y, 2) == 31;
    assert DaysBeforeMonth(y, 3) == 31 + f;
    assert DaysBeforeMonth(y, 4) == 62 + f;
    assert DaysBeforeMonth(y, 5) == 92 + f;
    assert DaysBeforeMonth(y, 6) == 123 + f;
    assert DaysBeforeMonth(y, 7) == 153 + f;
    assert DaysBeforeMonth(y, 8) == 184 + f;
    assert DaysBeforeMonth(y, 9) == 215 + f;
    assert DaysBeforeMonth(y, 10) == 245 + f;
    assert DaysBeforeMonth(y, 11) == 276 + f;
    assert DaysBeforeMonth(y, 12) == 306 + f;
    assert DaysBeforeMonth(y, 13) == 337 + f;
  }

  /** Floor division by a positive constant `d` steps up exactly at multiples of `d`. */
  lemma DivStep(p: int, d: int)
    requires d == 4 || d == 100 || d == 400
    ensures (p + 1) / d == p / d + (if (p + 1) % d == 0 then 1 else 0)
  {
    var q, r := p / d, p % d;
    assert p == d * q + r && 0 <= r < d;
    if r == d - 1 {
      assert p + 1 == d * (q + 1);
    } else {
      assert p + 1 == d * q + (r + 1);
    }
  }

  /** The closed form of `DaysBeforeYear` advances by one year length. */
  lemma NextYear(y: int)
    ensures DaysBeforeYear(y + 1) == DaysBeforeYear(y) + DaysInYear(y)
  {
    var p := y - 1;
    DivStep(p, 4);
    DivStep(p, 100);
    DivStep(p, 400);
    DivisibleChain(y);
    assert p + 1 == y;
    var step := (if y % 4 == 0 then 1 else 0) - (if y % 100 == 0 then 1 else 0) + (if y % 400 == 0 then 1 else 0);
    assert DaysBeforeYear(y + 1) == DaysBeforeYear(y) + 365 + step;
    assert DaysInYear(y) == 365 + step;
  }

  /** A multiple of 400 is a multiple of 100, and a multiple of 100 a multiple of 4. */
  lemma DivisibleChain(y: int)
    ensures y % 400 == 0 ==> y % 100 == 0
    ensures y % 100 == 0 ==> y % 4 == 0
  {
    if y % 400 == 0 {
      var q := y / 400;
      assert y == (4 * q) * 100 + 0;
      DivUnique(y, 100, 4 * q, 0);
    }
    if y % 100 == 0 {
      var q := y / 100;
      assert y == (25 * q) * 4 + 0;
      DivUnique(y, 4, 25 * q, 0);
    }
  }

  lemma MulAtLeast(a: int, d: int)
    requires a >= 1 && d > 0
    ensures a * d >= d
  {
  }

  /** Floor division is determined by quotient and remainder. */
  lemma DivUnique(n: int, d: int, q: int, r: int)
    requires 0 < d && 0 <= r < d && n == q * d + r
    ensures n / d == q && n % d == r
  {
    var q2, r2 := n / d, n % d;
    assert (q - q2) * d == r2 - r;
    if q > q2 {
      MulAtLeast(q - q2, d);
      assert false;
    } else if q < q2 {
      MulAtLeast(q2 - q, d);
      assert false;
    }
  }


  lemma {:induction false} DaysBeforeMonthMonotone(y: int, m1: int, m2: int)
    requires 1 <= m1 <= m2 <= 13
    ensures DaysBeforeMonth(y, m1) <= DaysBeforeMonth(y, m2)
    decreases m2 - m1
  {
    if m1 < m2 {
      DaysBeforeMonthMonotone(y, m1, m2 - 1);
    }
  }

  lemma {:induction false} DaysBeforeYearMonotone(y1: int, y2: int)
    requires y1 <= y2
    ensures DaysBeforeYear(y1) <= DaysBeforeYear(y2)
    decreases y2 - y1
  {
    if y1 < y2 {
      NextYear(y2 - 1);
      DaysBeforeYearMonotone(y1, y2 - 1);
    }
  }

  /** A well-formed date lies inside its own year on the day line. */
  lemma DayNumberInYear(t: DateTime)
    requires WellFormed(t)
    ensures DaysBeforeYear(t.year) <= DayNumber(t) < DaysBeforeYear(t.year + 1)
  {
    var y := t.year;
    assert DaysBeforeMonth(y, t.month + 1) == DaysBeforeMonth(y, t.month) + DaysInMonth(y, t.month);
    DaysBeforeMonthMonotone(y, 1, t.month);
    DaysBeforeMonthMonotone(y, t.month + 1, 13);
    YearLength(y);
    NextYear(y);
    assert 0 <= DaysBeforeMonth(y, t.month) + t.day - 1 < DaysInYear(y);
  }

  predicate DateBefore(a: DateTime, b: DateTime) {
    || a.year < b.year
    || (a.year == b.year && a.month < b.month)
    || (a.year == b.year && a.month == b.month && a.day < b.day)
  }

  /** Lexicographic order of the fields of `a` and `b`. */
  predicate Before(a: DateTime, b: DateTime) {
    || DateBefore(a, b)
    || (a.year == b.year && a.month == b.month && a.day == b.day && SecondOfDay(a) < SecondOfDay(b))
  }

  lemma DayNumberOrder(a: DateTime, b: DateTime)
    requires WellFormed(a) && WellFormed(b) && DateBefore(a, b)
    ensures DayNumber(a) < DayNumber(b)
  {
    if a.year < b.year {
      DayNumberInYear(a);
      DayNumberInYear(b);
      DaysBeforeYearMonotone(a.year + 1, b.year);
    } else if a.month < b.month {
      DaysBeforeMonthMonotone(a.year, a.month + 1, b.month);
    }
  }

  /** The carrying field layout and the linear second count order instants alike. */
  lemma ChronologicalOrder(a: DateTime, b: DateTime)
    requires WellFormed(a) && WellFormed(b)
    ensures Before(a, b) <==> ToSeconds(a) < ToSeconds(b)
  {
    if DateBefore(a, b) {
      DayNumberOrder(a, b);
    } else if DateBefore(b, a) {
      DayNumberOrder(b, a);
    }
  }

  /** Distinct well-formed date-times are distinct instants. */
  lemma ToSecondsInjective(a: DateTime, b: DateTime)
    requires WellFormed(a) && WellFormed(b)
    requires ToSeconds(a) == ToSeconds(b)
    ensures a == b
  {
    ChronologicalOrder(a, b);
    ChronologicalOrder(b, a);
  }

  // ---------------------------------------------------------------------------
  // Carrying arithmetic
  // ---------------------------------------------------------------------------

  /** The following calendar day, carrying into the month and the year. */
  function NextDay(t: DateTime): (r: DateTime)
    requires WellFormed(t)
    ensures WellFormed(r)
  {
    if t.day < DaysInMonth(t.year, t.month) then t.(day := t.day + 1)
    else if t.month < 12 then t.(month := t.month + 1, day := 1)
    else t.(year := t.year + 1, month := 1, day := 1)
  }

  /** The preceding calendar day, borrowing from the month and the year. */
  function PrevDay(t: DateTime): (r: DateTime)
    requires WellFormed(t)
    ensures WellFormed(r)
  {
    if t.day > 1 then t.(day := t.day - 1)
    else if t.month > 1 then t.(month := t.month - 1, day := DaysInMonth(t.year, t.month - 1))
    else t.(year := t.year - 1, month := 12, day := 31)
  }

  lemma NextDayStep(t: DateTime)
    requires WellFormed(t)
    ensures DayNumber(NextDay(t)) == DayNumber(t) + 1
    ensures SecondOfDay(NextDay(t)) == SecondOfDay(t)
  {
    if t.day == DaysInMonth(t.year, t.month) && t.month == 12 {
      YearLength(t.year);
      NextYear(t.year);
    }
  }

  lemma PrevDayStep(t: DateTime)
    requires WellFormed(t)
    ensures DayNumber(PrevDay(t)) == DayNumber(t) - 1
    ensures SecondOfDay(PrevDay(t)) == SecondOfDay(t)
  {
    if t.day == 1 && t.month == 1 {
      YearLength(t.year - 1);
      NextYear(t.year - 1);
    }
  }

  /** `k` calendar days later (earlier for negative `k`), one day at a time. */
  function AddDays(t: DateTime, k: int): (r: DateTime)
    requires WellFormed(t)
    ensures WellFormed(r)
    decreases if k < 0 then -k else k
  {
    if k == 0 then t
    else if k > 0 then AddDays(NextDay(t), k - 1)
    else AddDays(PrevDay(t), k + 1)
  }

  lemma {:induction false} AddDaysCounts(t: DateTime, k: int)
    requires WellFormed(t)
    ensures DayNumber(AddDays(t, k)) == DayNumber(t) + k
    ensures SecondOfDay(AddDays(t, k)) == SecondOfDay(t)
    decreases if k < 0 then -k else k
  {
    if k > 0 {
      NextDayStep(t);
      AddDaysCounts(NextDay(t), k - 1);
    } else if k < 0 {
      PrevDayStep(t);
      AddDaysCounts(PrevDay(t), k + 1);
    }
  }

  /** `t` plus `n` seconds: the time of day is normalised with floor division and
      the whole days are carried through the calendar. */
  function AddSeconds(t: DateTime, n: int): (r: DateTime)
    requires WellFormed(t)
    ensures WellFormed(r)
  {
    var total := SecondOfDay(t) + n;
    var rem := total % 86400;
    AddDays(t, total / 86400).(hour := rem / 3600, minute := rem % 3600 / 60, second := rem % 60)
  }

  /** Carrying arithmetic agrees with the linear second count. */
  lemma AddSecondsCounts(t: DateTime, n: int)
    requires WellFormed(t)
    ensures ToSeconds(AddSeconds(t, n)) == ToSeconds(t) + n
  {
    var total := SecondOfDay(t) + n;
    var q, rem := total / 86400, total % 86400;
    AddDaysCounts(t, q);
    var r := AddSeconds(t, n);
    assert SecondOfDay(r) == rem;
    assert DayNumber(r) == DayNumber(t) + q;
    assert q * 86400 + rem == total;
  }

  /** `AddSeconds(t, n)` is the one well-formed date-time `n` seconds after `t`. */
  lemma AddSecondsUnique(t: DateTime, n: int, u: DateTime)
    requires WellFormed(t) && WellFormed(u)
    requires ToSeconds(u) == ToSeconds(t) + n
    ensures u == AddSeconds(t, n)
  {
    AddSecondsCounts(t, n);
    ToSecondsInjective(u, AddSeconds(t, n));
  }

  lemma AddSecondsZero(t: DateTime)
    requires WellFormed(t)
    ensures AddSeconds(t, 0) == t
  {
    AddSecondsUnique(t, 0, t);
  }

  lemma AddSecondsAdditive(t: DateTime, a: int, b: int)
    requires WellFormed(t)
    ensures AddSeconds(AddSeconds(t, a), b) == AddSeconds(t, a + b)
  {
    AddSecondsCounts(t, a);
    AddSecondsCounts(AddSeconds(t, a), b);
    AddSecondsUnique(t, a + b, AddSeconds(AddSeconds(t, a), b));
  }

  /** Later offsets give later (or equal) instants. */
  lemma AddSecondsMonotone(t: DateTime, a: int, b: int)
    requires WellFormed(t) && a <= b
    ensures !Before(AddSeconds(t, b), AddSeconds(t, a))
  {
    AddSecondsCounts(t, a);
    AddSecondsCounts(t, b);
    ChronologicalOrder(AddSeconds(t, b), AddSeconds(t, a));
  }

  /** One second later, written as the textbook carry chain. */
  function Tick(t: DateTime): (r: DateTime)
    requires WellFormed(t)
    ensures WellFormed(r)
  {
    if t.second < 59 then t.(second := t.second + 1)
    else if t.minute < 59 then t.(minute := t.minute + 1, second := 0)
    else if t.hour < 23 then t.(hour := t.hour + 1, minute := 0, second := 0)
    else NextDay(t).(hour := 0, minute := 0, second := 0)
  }

  /** Adding one second is exactly the carry chain: 23:59:59 on 31 December moves to
      the next year, 28 February moves to 29 February only in a leap year. */
  lemma AddOneSecondIsTick(t: DateTime)
    requires WellFormed(t)
    ensures AddSeconds(t, 1) == Tick(t)
  {
    if t.second == 59 && t.minute == 59 && t.hour == 23 {
      NextDayStep(t);
    }
    AddSecondsUnique(t, 1, Tick(t));
  }

  /** The last instant a Python `datetime` can hold is one second before this count. */
  function EndOfRange(): int {
    DaysBeforeYear(MaxYear + 1) * 86400
  }

  /** A well-formed date-time is inside `datetime`'s year range exactly when its
      second count is inside [0, EndOfRange()). */
  lemma RangeBySeconds(u: DateTime)
    requires WellFormed(u)
    ensures MinYear <= u.year <= MaxYear <==> 0 <= ToSeconds(u) < EndOfRange()
  {
    DayNumberInYear(u);
    assert DaysBeforeYear(MinYear) == 0;
    if u.year < MinYear {
      DaysBeforeYearMonotone(u.year + 1, MinYear);
    } else if u.year > MaxYear {
      DaysBeforeYearMonotone(MaxYear + 1, u.year);
    } else {
      DaysBeforeYearMonotone(MinYear, u.year);
      DaysBeforeYearMonotone(u.year + 1, MaxYear + 1);
    }
  }

  /** `t + timedelta(seconds=n)`: Python raises `OverflowError` (here `None`) when the
      result leaves the years 1 to 9999. */
  function Add(t: DateTime, n: int): (r: Option<DateTime>)
    requires Valid(t)
    ensures r.Some? ==> Valid(r.value) && ToSeconds(r.value) == ToSeconds(t) + n
    ensures r.None? <==> !(0 <= ToSeconds(t) + n < EndOfRange())
  {
    AddSecondsCounts(t, n);
    RangeBySeconds(AddSeconds(t, n));
    var u := AddSeconds(t, n);
    if MinYear <= u.year <= MaxYear then Some(u) else None
  }
}
