/** `struct tm` and the conversions between it and a count of seconds (src/libc/time.c). */
module BrokenDownTime {
  import opened CArith
  import opened Calendar

  /** The fields of a `struct tm`, as a value. */
  datatype Fields = Fields(
    sec: int, min: int, hour: int, mday: int, mon: int, year: int, wday: int, yday: int, isdst: int)
  {
    predicate AreInts() {
      IsInt32(sec) && IsInt32(min) && IsInt32(hour) && IsInt32(mday) && IsInt32(mon) &&
      IsInt32(year) && IsInt32(wday) && IsInt32(yday) && IsInt32(isdst)
    }
  }

  const DAY: int := 86400

  /** Sunday is 0. One day later is one weekday later; 1970-01-01 was a Thursday. */
  function Weekday(n: int): (w: int)
    ensures 0 <= w <= 6
    decreases if n >= 0 then n else -n
  {
    if n == 0 then 4
    else if n > 0 then (Weekday(n - 1) + 1) % 7
    else (Weekday(n + 1) + 6) % 7
  }

  /** The seconds the fields stand for, carried without any range limit: months into years, days,
      hours, minutes and seconds linearly (section 7.27.2.3 of ISO/IEC 9899:2011). */
  function LinearCount(t: Fields): int {
    (DaysFromCivil(t.year + 1900 + t.mon / 12, t.mon % 12 + 1, 1) + t.mday - 1) * DAY
    + t.hour * 3600 + t.min * 60 + t.sec
  }

  /** The UTC calendar fields of a time, with a year of any size. */
  function CalendarFields(value: int): Fields {
    var date := DateOf(value / DAY);
    var rem := value % DAY;
    Fields(rem % 60, rem % 3600 / 60, rem / 3600,
           date.day, date.month - 1, date.year - 1900,
           Weekday(value / DAY), DayOfYear(date), -1)
  }

  /** Every field in the range the calendar allows, and the derived fields consistent. */
  predicate Normalised(t: Fields) {
    var date := Date(t.year + 1900, t.mon + 1, t.mday);
    && 0 <= t.sec <= 59 && 0 <= t.min <= 59 && 0 <= t.hour <= 23
    && ValidDate(date)
    && t.yday == DayOfYear(date)
    && t.wday == Weekday(Days(date))
    && t.isdst == -1
  }

  /** What seconds_to_tm stores: the year is narrowed to an `int`. */
  function FieldsOf(value: int): Fields {
    var t := CalendarFields(value);
    t.(year := ToInt32(t.year))
  }

  /** The fields as tm_to_seconds reads them: `tm_year + 1900` is an `int` addition, which wraps. */
  function AsRead(t: Fields): Fields {
    t.(year := ToInt32(t.year + 1900) - 1900)
  }

  /** The count tm_to_seconds computes. */
  function Count(t: Fields): int { LinearCount(AsRead(t)) }

  // ----- the calendar and the linear count -----

  lemma {:induction false} WeekdayClosedForm(n: int)
    ensures Weekday(n) == (n + 4) % 7
    decreases if n >= 0 then n else -n
  {
    if n > 0 {
      WeekdayClosedForm(n - 1);
      WeekdayStep(n + 3, 1);
    } else if n < 0 {
      WeekdayClosedForm(n + 1);
      WeekdayStep(n + 5, 6);
    }
  }

  lemma WeekdayStep(a: int, k: int)
    requires k == 1 || k == 6
    ensures (a % 7 + k) % 7 == if k == 1 then (a + 1) % 7 else (a - 1) % 7
  {
  }

  lemma ClockSplit(rem: int)
    requires 0 <= rem < DAY
    ensures 0 <= rem % 60 <= 59 && 0 <= rem % 3600 / 60 <= 59 && 0 <= rem / 3600 <= 23
    ensures rem / 3600 * 3600 + rem % 3600 / 60 * 60 + rem % 60 == rem
  {
    var h, m := rem / 3600, rem % 3600;
    assert rem == 60 * (60 * h) + m;
    DivisionSplit(m, 60, 60 * h);
  }

  lemma ClockJoin(hour: int, min: int, sec: int)
    requires 0 <= sec <= 59 && 0 <= min <= 59 && 0 <= hour <= 23
    ensures var rem := hour * 3600 + min * 60 + sec;
            0 <= rem < DAY && rem % 60 == sec && rem % 3600 / 60 == min && rem / 3600 == hour
  {
    var rem := hour * 3600 + min * 60 + sec;
    DivisionSplit(min * 60 + sec, 3600, hour);
    DivisionSplit(sec, 60, min);
    DivisionSplit(sec, 60, 60 * hour + min);
  }

  /** The count of a date plus a time of day. */
  lemma CountOfDate(t: Fields)
    requires 0 <= t.mon <= 11
    requires ValidDate(Date(t.year + 1900, t.mon + 1, t.mday))
    ensures LinearCount(t) == Days(Date(t.year + 1900, t.mon + 1, t.mday)) * DAY + t.hour * 3600 + t.min * 60 + t.sec
  {
    hide DaysFromCivil;
    var date := Date(t.year + 1900, t.mon + 1, t.mday);
    DaysWithinYear(date);
    DaysWithinYear(date.(day := 1));
    assert t.mon / 12 == 0 && t.mon % 12 == t.mon;
  }

  /** The linear count undoes the calendar fields of every time. */
  lemma CountOfCalendar(value: int)
    ensures LinearCount(CalendarFields(value)) == value
  {
    hide DaysFromCivil, Weekday, DateOf, IsLeap, MonthOffset;
    var n, rem := value / DAY, value % DAY;
    var date, t := DateOf(n), CalendarFields(value);
    ClockSplit(rem);
    DaysOfDateOf(n);
    assert Date(t.year + 1900, t.mon + 1, t.mday) == date;
    CountOfDate(t);
  }

  /** The calendar fields undo the linear count of every normalised time. */
  lemma CalendarOfCount(t: Fields)
    requires Normalised(t)
    ensures CalendarFields(LinearCount(t)) == t
  {
    hide DaysFromCivil;
    hide Weekday;
    var date := Date(t.year + 1900, t.mon + 1, t.mday);
    CountOfDate(t);
    ClockJoin(t.hour, t.min, t.sec);
    var rem := t.hour * 3600 + t.min * 60 + t.sec;
    assert LinearCount(t) == DAY * Days(date) + rem;
    hide LinearCount;
    DivisionSplit(rem, DAY, Days(date));
    DateOfDays(date);
    hide DateOf, IsLeap, DayOfYear;
  }

  /** Counts that differ in the year alone differ: no month, day or clock makes up for a year. */
  lemma CountTellsYears(t: Fields, a: int, b: int)
    ensures LinearCount(t.(year := a)) == LinearCount(t.(year := b)) <==> a == b
  {
    if a < b {
      LaterYearCountsMore(t, a, b);
    } else if b < a {
      LaterYearCountsMore(t, b, a);
    }
  }

  lemma LaterYearCountsMore(t: Fields, a: int, b: int)
    requires a < b
    ensures LinearCount(t.(year := a)) < LinearCount(t.(year := b))
  {
    hide DaysFromCivil, IsLeap, MonthOffset;
    var carry, month := t.mon / 12, t.mon % 12 + 1;
    var first, second := Date(a + 1900 + carry, month, 1), Date(b + 1900 + carry, month, 1);
    DaysWithinYear(first);
    DaysWithinYear(second);
    YearStartMonotone(first.year, second.year);
    assert DayOfYear(second) >= DayOfYear(first) - 1;
  }

  /** Whether a date keeps its calendar in another year: that year starts on the same weekday, and is
      a leap year alike unless the date lies before the leap day. */
  predicate KeepsCalendar(date: Date, year: int) {
    && (YearStart(year) - YearStart(date.year)) % 7 == 0
    && (IsLeap(year) == IsLeap(date.year) || (date.month <= 2 && !(date.month == 2 && date.day == 29)))
  }

  /** The fields of a time with the year replaced are normalised exactly when the date keeps its
      calendar; with its own year they always are. */
  lemma NormalisedInYear(value: int, year: int)
    ensures Normalised(CalendarFields(value).(year := year - 1900)) <==> KeepsCalendar(DateOf(value / DAY), year)
    ensures Normalised(CalendarFields(value))
  {
    hide DaysFromCivil, Weekday, DateOf, IsLeap, MonthOffset, YearLength;
    var n := value / DAY;
    var date := DateOf(n);
    var moved := Date(year, date.month, date.day);
    ClockSplit(value % DAY);
    DaysOfDateOf(n);
    DaysWithinYear(date);
    WeekdayClosedForm(n);
    if ValidDate(moved) {
      DaysWithinYear(moved);
      WeekdayClosedForm(Days(moved));
      if DayOfYear(moved) == DayOfYear(date) {
        SameWeekday(n, Days(moved));
      }
    }
  }

  lemma SameWeekday(n: int, m: int)
    ensures (n + 4) % 7 == (m + 4) % 7 <==> (m - n) % 7 == 0
  {
  }

  // ----- what the two narrowings do -----

  /** Narrowing the stored year and wrapping the addition together narrow the calendar year. */
  lemma ReadBackYear(value: int)
    ensures var date := DateOf(value / DAY);
            && AsRead(FieldsOf(value)) == CalendarFields(value).(year := ToInt32(date.year) - 1900)
            && FieldsOf(value).year == ToInt32(ToInt32(date.year) - 1900)
  {
    NarrowTwice(DateOf(value / DAY).year, 1900);
    hide DateOf, Weekday, DayOfYear, ToInt32;
  }

  lemma NarrowTwice(y: int, k: int)
    ensures ToInt32(ToInt32(y - k) + k) == ToInt32(y) && ToInt32(ToInt32(y) - k) == ToInt32(y - k)
  {
    NarrowShift(y - k, k);
    NarrowShift(y, -k);
  }

  lemma NarrowShift(x: int, k: int)
    ensures ToInt32(ToInt32(x) + k) == ToInt32(x + k)
  {
  }

  /** The count is the linear one exactly when the `int` addition does not overflow. */
  lemma CountIsLinear(t: Fields)
    ensures Count(t) == LinearCount(t) <==> IsInt32(t.year + 1900)
  {
    hide LinearCount;
    CountTellsYears(t, ToInt32(t.year + 1900) - 1900, t.year);
    assert t.(year := t.year) == t;
  }

  /** tm_to_seconds undoes seconds_to_tm exactly when the calendar year is an `int`. */
  lemma CountOfFields(value: int)
    ensures Count(FieldsOf(value)) == value <==> IsInt32(DateOf(value / DAY).year)
  {
    hide LinearCount, DateOf, CalendarFields, FieldsOf, AsRead;
    var t, year := CalendarFields(value), DateOf(value / DAY).year;
    ReadBackYear(value);
    CountOfCalendar(value);
    YearOfCalendar(value);
    CountTellsYears(t, ToInt32(year) - 1900, year - 1900);
    assert t.(year := t.year) == t;
  }

  lemma YearOfCalendar(value: int)
    ensures CalendarFields(value).year == DateOf(value / DAY).year - 1900
  {
  }

  lemma FieldsOfRead(t: Fields)
    requires IsInt32(t.year)
    ensures FieldsOf(Count(t)) == t <==> Normalised(AsRead(t))
  {
    hide LinearCount, DateOf, Weekday, Normalised, CalendarFields;
    var u := AsRead(t);
    NarrowTwice(t.year + 1900, 1900);
    hide ToInt32;
    if Normalised(u) {
      CalendarOfCount(u);
      assert FieldsOf(Count(t)) == t;
    } else if FieldsOf(Count(t)) == t {
      SameButYear(u, t);
      assert false;
    }
  }

  /** seconds_to_tm undoes tm_to_seconds on a normalised time exactly when its date keeps its calendar
      in the year it is read as; a year whose addition does not overflow is read as it is. */
  lemma FieldsOfCount(t: Fields)
    requires Normalised(t) && IsInt32(t.year)
    ensures var date := Date(t.year + 1900, t.mon + 1, t.mday);
            FieldsOf(Count(t)) == t <==> KeepsCalendar(date, ToInt32(date.year))
    ensures IsInt32(t.year + 1900) ==> FieldsOf(Count(t)) == t
  {
    hide LinearCount, DateOf, Weekday, Normalised, CalendarFields, KeepsCalendar, FieldsOf, Count, ToInt32;
    CalendarOfCount(t);
    NormalisedInYear(LinearCount(t), ToInt32(t.year + 1900));
    DateOfFields(LinearCount(t));
    FieldsOfRead(t);
    assert IsInt32(t.year + 1900) ==> AsRead(t) == t;
  }

  lemma DateOfFields(value: int)
    ensures var t := CalendarFields(value); DateOf(value / DAY) == Date(t.year + 1900, t.mon + 1, t.mday)
  {
  }

  /** If the stored fields of a count are its own fields but for the year, its fields are normalised. */
  lemma SameButYear(u: Fields, t: Fields)
    requires u == t.(year := u.year) && FieldsOf(LinearCount(u)) == t
    ensures Normalised(u)
  {
    hide LinearCount, DateOf, Weekday, Normalised, CalendarFields;
    var c := LinearCount(u);
    var w := CalendarFields(c);
    CountOfCalendar(c);
    assert w == u.(year := w.year) && u == u.(year := u.year);
    CountTellsYears(u, w.year, u.year);
    NormalisedInYear(c, 0);
  }

  /** What seconds_to_tm stores is normalised exactly for the dates that keep their calendar in the
      year the narrowing leaves them. */
  lemma NormalisedExactly(value: int)
    ensures var date := DateOf(value / DAY);
            Normalised(FieldsOf(value)) <==> KeepsCalendar(date, ToInt32(date.year - 1900) + 1900)
  {
    hide DateOf, Weekday, Normalised, KeepsCalendar, DayOfYear;
    var date := DateOf(value / DAY);
    NormalisedInYear(value, ToInt32(date.year - 1900) + 1900);
  }

  /** Normalising what mktime stored gives the same fields exactly for the dates that keep their
      calendar in the year they are read back as, and the same count exactly when that year is their
      own. */
  lemma NormalisationIsIdempotent(value: int)
    ensures var date := DateOf(value / DAY);
            FieldsOf(Count(FieldsOf(value))) == FieldsOf(value) <==> KeepsCalendar(date, ToInt32(date.year))
    ensures Count(FieldsOf(value)) == value <==> FIRST_SECOND <= value <= LAST_SECOND
    ensures FIRST_SECOND <= value <= LAST_SECOND ==> FieldsOf(Count(FieldsOf(value))) == FieldsOf(value)
  {
    hide LinearCount, Normalised, DateOf, Weekday, KeepsCalendar, CalendarFields;
    var date, t := DateOf(value / DAY), FieldsOf(value);
    var u := AsRead(t);
    ReadBackYear(value);
    NormalisedInYear(value, ToInt32(date.year));
    if Normalised(u) {
      CalendarOfCount(u);
      assert FieldsOf(Count(t)) == t;
    } else if FieldsOf(Count(t)) == t {
      SameButYear(u, t);
      assert false;
    }
    CountOfFields(value);
    YearFitsRange(value);
  }

  /** The fields of any time count to a time in the year they are read as, even on a 29 February that
      this year does not have. */
  lemma CountStaysInYear(t: Fields, date: Date)
    requires ValidDate(date) && t.mon == date.month - 1 && t.mday == date.day
    requires 0 <= t.sec <= 59 && 0 <= t.min <= 59 && 0 <= t.hour <= 23
    ensures DateOf(Count(t) / DAY).year == ToInt32(t.year + 1900)
  {
    hide DaysFromCivil, Weekday, DateOf, ToInt32;
    var year := ToInt32(t.year + 1900);
    var first := Date(year, date.month, 1);
    assert t.mon / 12 == 0 && t.mon % 12 == t.mon;
    var n := Days(first) + t.mday - 1;
    ClockJoin(t.hour, t.min, t.sec);
    var rem := t.hour * 3600 + t.min * 60 + t.sec;
    assert Count(t) == DAY * n + rem;
    DivisionSplit(rem, DAY, n);
    DaysWithinYear(first);
    YearStartStep(year);
    DaysOfDateOf(n);
    YearBound(DateOf(n), year);
    YearBound(DateOf(n), year + 1);
  }

  // ----- the ranges, in seconds -----

  /** The times whose calendar year is an `int`. */
  const FIRST_SECOND: int := -67768100567971200
  const LAST_SECOND: int := 67767976233532799

  /** The times whose `tm_year` is an `int`. */
  const FIRST_STORED: int := -67768040609740800
  const LAST_STORED: int := 67768036191676799

  /** Both conditions as ranges of seconds a caller can test. */
  lemma YearFitsRange(value: int)
    ensures IsInt32(DateOf(value / DAY).year) <==> FIRST_SECOND <= value <= LAST_SECOND
    ensures IsInt32(DateOf(value / DAY).year - 1900) <==> FIRST_STORED <= value <= LAST_STORED
  {
    hide DaysFromCivil, DateOf;
    YearRange(value, INT_MIN, INT_MAX);
    YearRange(value, INT_MIN + 1900, INT_MAX + 1900);
    YearStartIs(INT_MIN);
    YearStartIs(INT_MAX + 1);
    YearStartIs(INT_MIN + 1900);
    YearStartIs(INT_MAX + 1901);
  }

  lemma YearRange(value: int, low: int, high: int)
    ensures low <= DateOf(value / DAY).year <= high <==> YearStart(low) * DAY <= value < YearStart(high + 1) * DAY
  {
    hide DaysFromCivil, DateOf;
    var n := value / DAY;
    DaysOfDateOf(n);
    YearBound(DateOf(n), low);
    YearBound(DateOf(n), high + 1);
  }

  /** A date lies before a year exactly when its day number is before the year's first day. */
  lemma YearBound(date: Date, year: int)
    requires ValidDate(date)
    ensures date.year < year <==> Days(date) < YearStart(year)
  {
    hide DaysFromCivil;
    DaysWithinYear(date);
    if date.year < year {
      YearStartStep(date.year);
      YearStartMonotone(date.year + 1, year);
    } else {
      YearStartMonotone(year, date.year);
    }
  }

  /** The day number of 1 January without era arithmetic. */
  lemma YearStartIs(year: int)
    ensures var y := year - 1; YearStart(year) == 365 * y + y / 4 - y / 100 + y / 400 + 306 - 719468
  {
    DaysFromMarch(Date(year, 1, 1));
    hide DaysFromCivil;
    MarchStartIs(year - 1);
  }

  lemma MarchStartIs(y: int)
    ensures MarchStart(y) == 365 * y + y / 4 - y / 100 + y / 400
  {
  }

  /** No `struct tm` counts beyond 64 bits. */
  lemma CountFitsInt64(t: Fields)
    requires t.AreInts()
    ensures IsInt64(Count(t))
  {
    hide ToInt32, DaysFromCivil;
    var first := Date(ToInt32(t.year + 1900) + t.mon / 12, t.mon % 12 + 1, 1);
    DayBound(first);
    SecondBound(Days(first), t);
  }

  lemma SecondBound(n: int, t: Fields)
    requires t.AreInts() && -401 * 0x1_0000_0000 <= n <= 401 * 0x1_0000_0000
    ensures IsInt64((n + t.mday - 1) * DAY + t.hour * 3600 + t.min * 60 + t.sec)
  {
  }

  lemma DayBound(first: Date)
    requires ValidDate(first) && first.day == 1 && -0xffff_ffff <= first.year <= 0xffff_ffff
    ensures -401 * 0x1_0000_0000 <= Days(first) <= 401 * 0x1_0000_0000
  {
    DaysFromMarch(first);
    MonthOffsetBound(first.month);
    MarchBound(first.year - if first.month <= 2 then 1 else 0);
    hide DaysFromCivil, MarchStart, MonthOffset;
  }

  lemma MarchBound(y: int)
    requires -0x1_0000_0000 <= y <= 0x1_0000_0000
    ensures -400 * 0x1_0000_0000 <= MarchStart(y) <= 400 * 0x1_0000_0000
  {
  }

  lemma MonthOffsetBound(month: int)
    requires 1 <= month <= 12
    ensures 0 <= MonthOffset(month) <= 334
  {
  }

  // ----- inputs at which the promises fail -----

  /** The last second of 1969 is a proper time whose count is the failure value of mktime. */
  lemma MinusOneIsATime()
    ensures var t := Fields(59, 59, 23, 31, 11, 69, 3, 364, -1);
            Normalised(t) && FieldsOf(-1) == t && Count(t) == -1
  {
    hide Count, Weekday, DateOf, Normalised, ToInt32;
    LastDayOf1969();
    assert (-1) / DAY == -1 && (-1) % DAY == 86399;
    NormalisedInYear(-1, 0);
    CountOfFields(-1);
  }

  lemma LastDayOf1969()
    ensures DateOf(-1) == Date(1969, 12, 31) && DayOfYear(Date(1969, 12, 31)) == 364 && Weekday(-1) == 3
  {
    WeekdayClosedForm(-1);
    hide Weekday;
    assert DateOf(0) == EPOCH;
  }

  /** The second after the last good one: its fields are stored correctly, but read back as the first
      second of the smallest year. */
  lemma TopYearOverflows()
    ensures var t := FieldsOf(LAST_SECOND + 1);
            t.year == INT_MAX - 1899 && Normalised(t) && Count(t) == FIRST_SECOND
  {
    hide DaysFromCivil, Weekday, DateOf, Normalised, DayOfYear, LinearCount, CalendarFields;
    var value, first := LAST_SECOND + 1, Date(INT_MAX + 1, 1, 1);
    YearStartIs(INT_MAX + 1);
    YearStartIs(INT_MIN);
    MidnightOf(first);
    NormalisedInYear(value, 0);
    var t := FieldsOf(value);
    CountOfDate(AsRead(t));
  }

  lemma MidnightOf(date: Date)
    requires ValidDate(date)
    ensures CalendarFields(Days(date) * DAY)
         == Fields(0, 0, 0, date.day, date.month - 1, date.year - 1900, Weekday(Days(date)), DayOfYear(date), -1)
  {
    DateOfDays(date);
    DivisionSplit(0, DAY, Days(date));
    hide DaysFromCivil, Weekday, DateOf, DayOfYear;
  }

  /** Midnight of 1 January `extra` years, counted in months, after the year of the largest `int`. */
  function FarFuture(extra: int): Fields { Fields(0, 0, 0, 1, 12 * extra, INT_MAX - 1900, 0, 0, 0) }

  lemma CountOfFarFuture(extra: int)
    requires 1901 <= extra <= 2000
    ensures Count(FarFuture(extra)) == YearStart(INT_MAX + extra) * DAY
    ensures DateOf(Count(FarFuture(extra)) / DAY) == Date(INT_MAX + extra, 1, 1)
  {
    hide DaysFromCivil, DateOf;
    var first := Date(INT_MAX + extra, 1, 1);
    assert 12 * extra / 12 == extra && 12 * extra % 12 == 0;
    DateOfDays(first);
    DivisionSplit(0, DAY, Days(first));
  }

  /** A `struct tm` of plain ints whose months carry the year past an `int`: mktime succeeds, and
      stores the smallest `int` for the year after the largest. */
  lemma CarriedYearIsCut()
    ensures var t := FarFuture(1901);
            && t.AreInts() && Count(t) == LinearCount(t) == LAST_STORED + 1
            && FieldsOf(Count(t)).year == INT_MIN
  {
    hide DaysFromCivil, Weekday, DateOf, Count, LinearCount, CalendarFields, YearStart;
    var t := FarFuture(1901);
    CountOfFarFuture(1901);
    CountIsLinear(t);
    assert Count(t) == LAST_STORED + 1 by {
      YearStartIs(INT_MAX + 1901);
    }
    YearOfCalendar(Count(t));
  }

  /** Another one, whose year lands where the weekdays differ: normalising the result of mktime once
      more changes it. */
  lemma CutYearIsNotIdempotent()
    ensures var t := FarFuture(1950);
            t.AreInts() && FieldsOf(Count(FieldsOf(Count(t)))) != FieldsOf(Count(t))
  {
    hide DaysFromCivil, Weekday, DateOf, Count, FieldsOf, IsLeap;
    CountOfFarFuture(1950);
    YearStartIs(INT_MAX + 1950);
    YearStartIs(INT_MIN + 1949);
    NormalisationIsIdempotent(Count(FarFuture(1950)));
  }

  // ----- the operations on a `struct tm` -----

  class Tm {
    var sec: int
    var min: int
    var hour: int
    var mday: int
    var mon: int
    var year: int
    var wday: int
    var yday: int
    var isdst: int

    function Value(): Fields
      reads this
    {
      Fields(sec, min, hour, mday, mon, year, wday, yday, isdst)
    }

    /** tm_to_seconds: the carried count of any fields, linear exactly when the `int` addition
        `tm_year + 1900` does not overflow. */
    method ToSeconds() returns (result: int)
      requires Value().AreInts()
      ensures result == Count(Value())
      ensures result == LinearCount(Value()) <==> IsInt32(year + 1900)
    {
      hide DaysFromCivil, ToInt32;
      CountIsLinear(Value());
      var y: int := ToInt32(year + 1900);
      var month: int := mon;
      var day: int := mday;

      FloorIsEuclidean(month, 12);
      var monthCarry := FloorDiv(month, 12);
      month := month - monthCarry * 12;
      if month < 0 {
        month := month + 12;
        monthCarry := monthCarry - 1;
      }
      y := y + monthCarry;

      var seconds := sec + min * 60 + hour * 3600;
      var dayCarry := FloorDiv(seconds, DAY);
      var secOfDay := FloorMod(seconds, DAY);

      var days := DaysFromCivil(y, ToUint32(month) + 1, 1);
      days := days + (day - 1) + dayCarry;

      var total := days * DAY + secOfDay;
      CountFitsInt64(Value());
      result := if IsInt64(total) then total else -1;
    }

    /** seconds_to_tm: the fields of the day the stepping calendar reaches. */
    method FromSeconds(value: int)
      modifies this
      ensures Value() == FieldsOf(value)
    {
      hide DaysFromCivil;
      hide Weekday;
      FloorIsEuclidean(value, DAY);
      var days := FloorDiv(value, DAY);
      var rem := FloorMod(value, DAY);
      ClockSplit(rem);

      hour := CDiv(rem, 3600);
      rem := CMod(rem, 3600);
      min := CDiv(rem, 60);
      sec := CMod(rem, 60);
      assert sec == value % DAY % 60 by { RemainderOfRemainder(value % DAY); }

      WeekdayClosedForm(days);
      var w := CMod(days + 4, 7);
      assert w == (days + 4) % 7 || w == (days + 4) % 7 - 7 by { TruncatedRemainder(days + 4); }
      if w < 0 {
        w := w + 7;
      }
      wday := w;

      var y, m, d, yd := CivilFromDays(days);
      year := ToInt32(y - 1900);
      mon := m - 1;
      mday := d;
      yday := yd;
      isdst := -1;
    }
  }

  lemma RemainderOfRemainder(rem: int)
    requires rem >= 0
    ensures rem % 3600 % 60 == rem % 60
  {
    var h, m := rem / 3600, rem % 3600;
    DivisionSplit(m, 60, 60 * h);
  }

  lemma TruncatedRemainder(a: int)
    ensures CMod(a, 7) == if a >= 0 || a % 7 == 0 then a % 7 else a % 7 - 7
  {
  }

  /** mktime. A count of -1 is indistinguishable from failure: the call then reports an error and
      leaves the fields alone. Every other call succeeds with the count and its fields. */
  method Mktime(tm: Tm?) returns (result: int, einval: bool)
    requires tm != null ==> tm.Value().AreInts()
    modifies tm
    ensures tm == null ==> result == -1 && einval
    ensures tm != null ==>
              && result == Count(old(tm.Value()))
              && (result == LinearCount(old(tm.Value())) <==> IsInt32(old(tm.year) + 1900))
    ensures tm != null && result == -1 ==> einval && tm.Value() == old(tm.Value())
    ensures tm != null && result != -1 ==> !einval && tm.Value() == FieldsOf(result)
    ensures tm != null && result != -1 ==>
              var date := DateOf(result / DAY);
              Normalised(tm.Value()) <==> KeepsCalendar(date, ToInt32(date.year - 1900) + 1900)
    ensures tm != null && result != -1 && FIRST_STORED <= result <= LAST_STORED ==> Normalised(tm.Value())
  {
    hide Normalised, KeepsCalendar, Count, LinearCount, FieldsOf, DateOf;
    if tm == null {
      return -1, true;
    }
    var seconds := tm.ToSeconds();
    if seconds == -1 {
      return -1, true;
    }
    tm.FromSeconds(seconds);
    result, einval := seconds, false;
    NormalisedExactly(seconds);
    if FIRST_STORED <= seconds <= LAST_STORED {
      StoredIsNormalised(seconds);
    }
  }

  /** A `tm_year` that fits is stored with all its fields right. */
  lemma StoredIsNormalised(value: int)
    requires FIRST_STORED <= value <= LAST_STORED
    ensures Normalised(FieldsOf(value))
  {
    hide DateOf, Weekday, Normalised, DayOfYear;
    YearFitsRange(value);
    NormalisedInYear(value, 0);
    assert FieldsOf(value) == CalendarFields(value);
  }

  lemma FieldsAreInts(value: int)
    ensures FieldsOf(value).AreInts()
  {
    hide DateOf, Weekday;
    ClockSplit(value % DAY);
  }

  /** seconds_to_tm, then tm_to_seconds. */
  method ThereAndBack(tm: Tm, value: int) returns (result: int)
    modifies tm
    ensures result == value <==> FIRST_SECOND <= value <= LAST_SECOND
  {
    hide FieldsOf, Count, LinearCount, DateOf;
    tm.FromSeconds(value);
    FieldsAreInts(value);
    result := tm.ToSeconds();
    NormalisationIsIdempotent(value);
  }

  /** mktime on its own result: the count is the same exactly on the range of seconds, and the fields
      exactly for the dates that keep their calendar, unless the second call fails. */
  method MktimeTwice(tm: Tm) returns (first: int, second: int)
    requires tm.Value().AreInts()
    modifies tm
    ensures first == Count(old(tm.Value()))
    ensures first == -1 ==> second == -1 && tm.Value() == old(tm.Value())
    ensures first != -1 ==>
              var date := DateOf(first / DAY);
              && (second == first <==> FIRST_SECOND <= first <= LAST_SECOND)
              && (tm.Value() == FieldsOf(first) <==> second == -1 || KeepsCalendar(date, ToInt32(date.year)))
  {
    hide Normalised, KeepsCalendar, Count, LinearCount, FieldsOf, DateOf;
    var einval;
    first, einval := Mktime(tm);
    FieldsAreInts(first);
    second, einval := Mktime(tm);
    NormalisationIsIdempotent(first);
  }

  /** localtime_r with the zone offset already looked up: fails exactly when the shifted time
      leaves the 64-bit range. */
  method LocaltimeR(timer: int, offset: int, tm: Tm) returns (ok: bool)
    requires IsInt64(timer) && IsInt32(offset)
    modifies tm
    ensures ok <==> IsInt64(timer + offset)
    ensures ok ==> tm.Value() == FieldsOf(timer + offset).(isdst := 0)
    ensures !ok ==> tm.Value() == old(tm.Value())
  {
    hide FieldsOf;
    WrappedSum(timer, offset);
    var adjusted := (timer + offset + 0x8000_0000_0000_0000) % UINT64_LIMIT - 0x8000_0000_0000_0000;
    if (offset > 0 && adjusted < timer) || (offset < 0 && adjusted > timer) {
      return false;
    }
    tm.FromSeconds(adjusted);
    tm.isdst := 0;
    ok := true;
  }

  /** The overflow test of localtime_r on the wrapped sum. */
  lemma WrappedSum(timer: int, offset: int)
    requires IsInt64(timer) && IsInt32(offset)
    ensures var sum := timer + offset;
            var adjusted := (sum + 0x8000_0000_0000_0000) % UINT64_LIMIT - 0x8000_0000_0000_0000;
            && (IsInt64(sum) ==> adjusted == sum)
            && (!IsInt64(sum) <==> (offset > 0 && adjusted < timer) || (offset < 0 && adjusted > timer))
  {
  }

  /** mktime ignores the zone that localtime_r applied: going through local time gives the shifted
      time exactly when its year is an `int`, and there the time itself exactly at offset zero. */
  lemma LocalRoundTrip(timer: int, offset: int)
    ensures var back := Count(FieldsOf(timer + offset).(isdst := 0));
            && (back == timer + offset <==> FIRST_SECOND <= timer + offset <= LAST_SECOND)
            && (FIRST_SECOND <= timer + offset <= LAST_SECOND ==> (back == timer <==> offset == 0))
  {
    hide DaysFromCivil, FieldsOf, DateOf;
    YearFitsRange(timer + offset);
    CountOfFields(timer + offset);
  }
}
