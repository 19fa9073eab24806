/** The day conversions of src/libc/time.c against a calendar that steps one day at a time. */
module Calendar {
  import opened CArith

  datatype Date = Date(year: int, month: int, day: int)

  predicate IsLeap(year: int) {
    year % 4 == 0 && (year % 100 != 0 || year % 400 == 0)
  }

  function MonthLength(year: int, month: int): (n: int)
    requires 1 <= month <= 12
    ensures 28 <= n <= 31
  {
    if month == 2 then (if IsLeap(year) then 29 else 28)
    else if month == 4 || month == 6 || month == 9 || month == 11 then 30
    else 31
  }

  predicate ValidDate(d: Date) {
    1 <= d.month <= 12 && 1 <= d.day <= MonthLength(d.year, d.month)
  }

  const EPOCH := Date(1970, 1, 1)

  /** Tomorrow, by the calendar on the wall. */
  function NextDay(d: Date): (r: Date)
    requires ValidDate(d)
    ensures ValidDate(r)
  {
    if d.day < MonthLength(d.year, d.month) then d.(day := d.day + 1)
    else if d.month < 12 then Date(d.year, d.month + 1, 1)
    else Date(d.year + 1, 1, 1)
  }

  function PreviousDay(d: Date): (r: Date)
    requires ValidDate(d)
    ensures ValidDate(r)
    ensures NextDay(r) == d
  {
    if d.day > 1 then d.(day := d.day - 1)
    else if d.month > 1 then Date(d.year, d.month - 1, MonthLength(d.year, d.month - 1))
    else Date(d.year - 1, 12, 31)
  }

  /** The date n days after (or -n days before) 1970-01-01, one step at a time. */
  function DateOf(n: int): (d: Date)
    ensures ValidDate(d)
    decreases if n >= 0 then n else -n
  {
    if n == 0 then EPOCH
    else if n > 0 then NextDay(DateOf(n - 1))
    else PreviousDay(DateOf(n + 1))
  }

  /** days_from_civil: `year` is 64-bit signed, everything from `yoe` on is `unsigned`. */
  function DaysFromCivil(civilYear: int, month: int, day: int): int {
    var year := civilYear - if month <= 2 then 1 else 0;
    var era := CDiv(if year >= 0 then year else year - 399, 400);
    var yoe := ToUint32(year - era * 400);
    var shifted := ToUint32(month + if month > 2 then -3 else 9);
    var doy := ToUint32(ToUint32(153 * shifted + 2) / 5 + day - 1);
    var doe := ToUint32(yoe * 365 + yoe / 4 - yoe / 100 + doy);
    era * 146097 + doe - 719468
  }

  function Days(d: Date): int { DaysFromCivil(d.year, d.month, d.day) }

  /** Days before the first of the month in a year without a leap day. */
  function MonthOffset(month: int): int
    requires 1 <= month <= 12
  {
    [0, 31, 59, 90, 120, 151, 181, 212, 243, 273, 304, 334][month - 1]
  }

  /** Days since 1 January of the same year. */
  function DayOfYear(d: Date): (n: int)
    requires ValidDate(d)
    ensures 0 <= n < YearLength(d.year)
  {
    MonthOffset(d.month) + d.day - 1 + if IsLeap(d.year) && d.month > 2 then 1 else 0
  }

  function YearLength(year: int): int { if IsLeap(year) then 366 else 365 }

  /** Days before 1 March of year `yoe` of a 400-year era that starts on 1 March. */
  function EraYearStart(yoe: int): int { 365 * yoe + yoe / 4 - yoe / 100 }

  // ----- the forward conversion, without its wrap-around and truncation -----

  /** On calendar dates nothing wraps: the conversion is the plain floor formula. */
  lemma DaysClosedForm(d: Date)
    requires ValidDate(d)
    ensures var y := d.year - if d.month <= 2 then 1 else 0;
            var mp := d.month + if d.month > 2 then -3 else 9;
            Days(d) == (y / 400) * 146097 + EraYearStart(y % 400) + (153 * mp + 2) / 5 + d.day - 1 - 719468
  {
    EraOfYear(d.year - if d.month <= 2 then 1 else 0);
    hide CDiv;
  }

  /** The truncating division, biased for negative years, is the floor. */
  lemma EraOfYear(y: int)
    ensures var era := CDiv(if y >= 0 then y else y - 399, 400);
            era == y / 400 && y - era * 400 == y % 400
  {
  }

  /** The day number of 1 January. */
  function YearStart(year: int): int { Days(Date(year, 1, 1)) }

  /** Days from 1 March of year 0 to 1 March of year y. */
  function MarchStart(y: int): int { 365 * y + y / 4 - y / 100 + y / 400 }

  lemma DivisionSplit(y: int, k: int, m: int)
    requires k > 0
    ensures (k * m + y) / k == m + y / k
  {
    var q, r := y / k, y % k;
    var q' := (k * m + y) / k;
    assert k * (m + q) + r == k * m + y;
    assert k * q' <= k * m + y < k * q' + k;
    assert q' * k <= k * m + y < q' * k + k && (m + q) * k <= k * m + y < (m + q) * k + k;
    SameQuotient(k * m + y, k, q', m + q);
  }

  /** How the three leap quotients grow from one year to the next. */
  lemma DivisionStep(y: int)
    ensures y / 4 == (y - 1) / 4 + if y % 4 == 0 then 1 else 0
    ensures y / 100 == (y - 1) / 100 + if y % 100 == 0 then 1 else 0
    ensures y / 400 == (y - 1) / 400 + if y % 400 == 0 then 1 else 0
  {
  }

  lemma EraShift(y: int)
    ensures (y / 400) * 146097 + EraYearStart(y % 400) == MarchStart(y)
  {
    var e, r := y / 400, y % 400;
    DivisionSplit(r, 4, 100 * e);
    DivisionSplit(r, 100, 4 * e);
  }

  lemma MarchStep(y: int)
    ensures MarchStart(y) == MarchStart(y - 1) + YearLength(y)
  {
    DivisionStep(y);
    LeapCounts(y);
  }

  /** The three divisibility corrections add up to the leap rule. */
  lemma LeapCounts(y: int)
    ensures y % 400 == 0 ==> y % 100 == 0
    ensures y % 100 == 0 ==> y % 4 == 0
  {
    if y % 400 == 0 {
      var e := y / 400;
      assert y == 100 * (4 * e);
    }
    if y % 100 == 0 {
      var c := y / 100;
      assert y == 4 * (25 * c);
    }
  }

  /** Every date in terms of the year that starts in March. */
  lemma DaysFromMarch(d: Date)
    requires ValidDate(d)
    ensures d.month <= 2 ==> Days(d) == MarchStart(d.year - 1) + MonthOffset(d.month) + 306 + d.day - 1 - 719468
    ensures d.month > 2 ==> Days(d) == MarchStart(d.year) + MonthOffset(d.month) - 59 + d.day - 1 - 719468
  {
    DaysClosedForm(d);
    hide DaysFromCivil;
    hide EraYearStart;
    EraShift(d.year - if d.month <= 2 then 1 else 0);
    MonthTable(d.month);
  }

  /** The linear month formula agrees with the table of month lengths. */
  lemma MonthTable(month: int)
    requires 1 <= month <= 12
    ensures month <= 2 ==> (153 * (month + 9) + 2) / 5 == MonthOffset(month) + 306
    ensures month > 2 ==> (153 * (month - 3) + 2) / 5 == MonthOffset(month) - 59
  {
  }

  /** tm_yday: a date lies DayOfYear days after its 1 January. */
  lemma DaysWithinYear(d: Date)
    requires ValidDate(d)
    ensures Days(d) == YearStart(d.year) + DayOfYear(d)
  {
    DaysFromMarch(d);
    DaysFromMarch(Date(d.year, 1, 1));
    MarchStep(d.year);
    hide DaysFromCivil;
    hide MarchStart;
  }

  /** A year is as long as the leap rule says. */
  lemma YearStartStep(year: int)
    ensures YearStart(year + 1) == YearStart(year) + YearLength(year)
  {
    DaysFromMarch(Date(year, 1, 1));
    DaysFromMarch(Date(year + 1, 1, 1));
    MarchStep(year);
    hide DaysFromCivil;
    hide MarchStart;
  }

  lemma YearStartMonotone(y: int, z: int)
    requires y <= z
    ensures YearStart(y) + 365 * (z - y) <= YearStart(z)
    decreases z - y
  {
    hide DaysFromCivil;
    if y < z {
      YearStartMonotone(y, z - 1);
      YearStartStep(z - 1);
    }
  }

  // ----- agreement with the stepping calendar -----

  lemma NextDayIsOneMore(d: Date)
    requires ValidDate(d)
    ensures Days(NextDay(d)) == Days(d) + 1
  {
    hide DaysFromCivil;
    DaysWithinYear(d);
    DaysWithinYear(NextDay(d));
    YearStartStep(d.year);
  }

  /** days_from_civil inverts the stepping calendar on every day, before 1970 as well. */
  lemma {:induction false} DaysOfDateOf(n: int)
    ensures Days(DateOf(n)) == n
    decreases if n >= 0 then n else -n
  {
    hide DaysFromCivil;
    if n > 0 {
      DaysOfDateOf(n - 1);
      NextDayIsOneMore(DateOf(n - 1));
    } else if n < 0 {
      DaysOfDateOf(n + 1);
      NextDayIsOneMore(DateOf(n));
    } else {
      DaysFromMarch(EPOCH);
    }
  }

  /** Two calendar dates with the same day number are the same date. */
  lemma DaysInjective(d: Date, e: Date)
    requires ValidDate(d) && ValidDate(e)
    ensures Days(d) == Days(e) <==> d == e
  {
    hide DaysFromCivil;
    DaysWithinYear(d);
    DaysWithinYear(e);
    if d.year < e.year {
      YearStartStep(d.year);
      YearStartMonotone(d.year + 1, e.year);
    } else if e.year < d.year {
      YearStartStep(e.year);
      YearStartMonotone(e.year + 1, d.year);
    }
  }

  /** The stepping calendar inverts days_from_civil on every calendar date. */
  lemma DateOfDays(d: Date)
    requires ValidDate(d)
    ensures DateOf(Days(d)) == d
  {
    hide DaysFromCivil;
    DaysOfDateOf(Days(d));
    DaysInjective(DateOf(Days(d)), d);
  }

  // ----- the backward conversion -----

  /** A day of an era, as century, four-year cycle and year of the cycle. */
  lemma EraSplit(doe: int) returns (c: int, q: int, s: int, k: int)
    requires 0 <= doe <= 146096
    ensures doe == 36524 * c + 1461 * q + s
    ensures 0 <= c <= 3 && 0 <= q <= 24 && 0 <= s <= 1460 && 0 <= k <= 3
    ensures 365 * k <= s <= 365 * k + 365 && (s == 365 * k + 365 ==> k == 3)
    ensures q == 24 && s == 1460 ==> c == 3
    ensures doe / 36524 - doe / 146096 == c
  {
    c := if doe == 146096 then 3 else doe / 36524;
    var r := doe - 36524 * c;
    q, s := r / 1461, r % 1461;
    k := if s == 1460 then 3 else s / 365;
  }

  lemma EraYearStartSplit(c: int, q: int, k: int)
    requires 0 <= c <= 3 && 0 <= q <= 24 && 0 <= k <= 3
    ensures EraYearStart(100 * c + 4 * q + k) == 36524 * c + 1461 * q + 365 * k
  {
    DivisionSplit(k, 4, 25 * c + q);
    DivisionSplit(4 * q + k, 100, c);
  }

  /** The year-of-era estimate: dividing the day of era, corrected for the leap days already
      seen, lands in exactly the year whose days it belongs to. */
  lemma YearOfEra(doe: int)
    requires 0 <= doe <= 146096
    ensures var yoe := (doe - doe / 1460 + doe / 36524 - doe / 146096) / 365;
            0 <= yoe <= 399 && EraYearStart(yoe) <= doe <= EraYearStart(yoe) + 365
            && (doe == EraYearStart(yoe) + 365 ==> IsLeap(yoe + 1))
  {
    var c, q, s, k := EraSplit(doe);
    var extra := 24 * c + q + s;
    assert doe == 1460 * (25 * c + q) + extra;
    DivisionSplit(extra, 1460, 25 * c + q);
    var late := extra / 1460;
    assert 0 <= late <= 1 && (s - late) / 365 == k;
    DivisionSplit(s - late, 365, 100 * c + 4 * q);
    var yoe := 100 * c + 4 * q + k;
    assert (doe - doe / 1460 + doe / 36524 - doe / 146096) / 365 == yoe;
    EraYearStartSplit(c, q, k);
    hide EraYearStart, IsLeap;
    if doe == EraYearStart(yoe) + 365 {
      LastDayIsLeap(c, q);
    }
  }

  /** Only a year that ends a four-year cycle, short centuries apart, has a 366th day. */
  lemma LastDayIsLeap(c: int, q: int)
    requires 0 <= c <= 3 && 0 <= q <= 24 && (q == 24 ==> c == 3)
    ensures IsLeap(100 * c + 4 * q + 4)
  {
    DivisionSplit(0, 4, 25 * c + q + 1);
    DivisionSplit(4 * q + 4, 100, c);
  }

  /** The month split of a day counted from 1 March. */
  lemma MonthOfDay(doy: int)
    requires 0 <= doy <= 365
    ensures var mp := (5 * doy + 2) / 153;
            var day := doy - (153 * mp + 2) / 5 + 1;
            var month := mp + if mp < 10 then 3 else -9;
            0 <= mp <= 11 && 1 <= day <= 31
            && (month != 2 ==> day <= MonthLength(1, month))
            && (month == 2 ==> day <= 29 && (day == 29 <==> doy == 365))
  {
  }

  /** The truncating division, biased for negative days, is the floor. */
  lemma EraOfDay(shifted: int)
    ensures var era := CDiv(if shifted >= 0 then shifted else shifted - 146096, 146097);
            0 <= shifted - era * 146097 <= 146096
  {
  }

  lemma EraYearStartIs(yoe: int)
    ensures EraYearStart(yoe) == 365 * yoe + yoe / 4 - yoe / 100
  {
  }

  /** The parts found by the closed form name a calendar date with the day number asked for. */
  lemma CivilDateCorrect(days: int, era: int, yoe: int, doy: int, d: Date)
    requires 0 <= yoe <= 399 && 0 <= doy <= 365
    requires days + 719468 == era * 146097 + EraYearStart(yoe) + doy
    requires doy == 365 ==> IsLeap(yoe + 1)
    requires var mp := (5 * doy + 2) / 153;
             d.day == doy - (153 * mp + 2) / 5 + 1
             && d.month == mp + (if mp < 10 then 3 else -9)
             && d.year == yoe + era * 400 + if mp < 10 then 0 else 1
    ensures ValidDate(d) && Days(d) == days && d == DateOf(days)
    ensures DayOfYear(d) == days - YearStart(d.year)
  {
    hide DaysFromCivil, EraYearStart, IsLeap, DateOf, DayOfYear;
    var mp := (5 * doy + 2) / 153;
    MonthOfDay(doy);
    LeapShift(yoe + 1, era);
    DivisionSplit(yoe, 400, era);
    ClosedFormOfParts(era, yoe, mp, d);
    DateOfDays(d);
    DaysWithinYear(d);
  }

  lemma ClosedFormOfParts(era: int, yoe: int, mp: int, d: Date)
    requires 0 <= yoe <= 399 && 0 <= mp <= 11 && ValidDate(d)
    requires d.month == mp + if mp < 10 then 3 else -9
    requires d.year == yoe + era * 400 + if mp < 10 then 0 else 1
    ensures Days(d) == era * 146097 + EraYearStart(yoe) + (153 * mp + 2) / 5 + d.day - 1 - 719468
  {
    hide DaysFromCivil, EraYearStart, IsLeap, MonthLength;
    var y := d.year - if d.month <= 2 then 1 else 0;
    assert y == 400 * era + yoe;
    DivisionSplit(yoe, 400, era);
    assert y / 400 == era && y % 400 == yoe;
    DaysClosedForm(d);
  }

  /** Leap years repeat every 400 years. */
  lemma LeapShift(y: int, era: int)
    ensures IsLeap(y + era * 400) == IsLeap(y)
  {
    DivisionSplit(y, 4, 100 * era);
    DivisionSplit(y, 100, 4 * era);
    DivisionSplit(y, 400, era);
  }

  /** civil_from_days: the closed form finds the date the stepping calendar reaches, for every
      day number, and the day of the year. */
  method CivilFromDays(days: int) returns (year: int, month: int, day: int, yday: int)
    ensures Date(year, month, day) == DateOf(days)
    ensures DaysFromCivil(year, month, day) == days
    ensures yday == days - DaysFromCivil(year, 1, 1)
    ensures yday == DayOfYear(DateOf(days))
  {
    hide DaysFromCivil;
    hide EraYearStart;
    var shifted := days + 719468;
    var era := CDiv(if shifted >= 0 then shifted else shifted - 146096, 146097);
    var doe := ToUint32(shifted - era * 146097);
    EraOfDay(shifted);
    YearOfEra(doe);
    var yoe := ToUint32(doe - doe / 1460 + doe / 36524 - doe / 146096) / 365;
    year := yoe + era * 400;
    var doy := ToUint32(doe - (365 * yoe + yoe / 4 - yoe / 100));
    assert doy == doe - EraYearStart(yoe) by { EraYearStartIs(yoe); }
    MonthOfDay(doy);
    var mp := ToUint32(5 * doy + 2) / 153;
    day := ToUint32(doy - (153 * mp + 2) / 5 + 1);
    month := ToUint32(mp + if mp < 10 then 3 else -9);
    year := year + if month <= 2 then 1 else 0;
    CivilDateCorrect(days, era, yoe, doy, Date(year, month, day));
    var monthOffsets := [0, 31, 59, 90, 120, 151, 181, 212, 243, 273, 304, 334];
    yday := monthOffsets[month - 1] + (day - 1);
    var isLeap := false;
    CModZero(year, 4);
    CModZero(year, 100);
    CModZero(year, 400);
    if CMod(year, 4) == 0 {
      if CMod(year, 100) != 0 || CMod(year, 400) == 0 {
        isLeap := true;
      }
    }
    if isLeap && month > 2 {
      yday := yday + 1;
    }
  }
}
