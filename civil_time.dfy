/** The proleptic Gregorian calendar in UTC, as `Date.prototype.toISOString`
    uses it (section 21.4 of ECMA-262, after ISO 8601:2004 section 4.3.2):
    days counted from 1970-01-01, a time value in milliseconds split into a
    date and a time of day, and the text of the extended format. */
module CivilTime {
  import opened Text

  datatype Date = Date(year: int, month: int, day: int)

  predicate IsLeapYear(y: int) { y % 4 == 0 && (y % 100 != 0 || y % 400 == 0) }

  function DaysInMonth(y: int, m: int): int
  {
    if m == 2 then (if IsLeapYear(y) then 29 else 28)
    else if m == 4 || m == 6 || m == 9 || m == 11 then 30
    else 31
  }

  predicate ValidDate(d: Date) { 1 <= d.month <= 12 && 1 <= d.day <= DaysInMonth(d.year, d.month) }

  /** Days from 1 March to the first day of the mp-th month of a year that
      starts in March (mp = 0 is March, mp = 11 is February). */
  function MonthStart(mp: int): int { (153 * mp + 2) / 5 }

  lemma MonthOfDay(doy: int)
    requires 0 <= doy <= 365
    ensures var mp := (5 * doy + 2) / 153; 0 <= mp <= 11 && MonthStart(mp) <= doy < MonthStart(mp + 1)
  {
  }

  /** Days from the start of a 400-year era (1 March of a year divisible by
      400) to 1 March of its year `yoe`. */
  function DaysBeforeYearOfEra(yoe: int): int { yoe * 365 + yoe / 4 - yoe / 100 }

  /** The number of days from 1970-01-01 to `d` (negative before it). */
  function DaysFromCivil(d: Date): int
  {
    MarchYearStart(MarchYearOf(d)) + MarchDayOf(d)
  }

  /** The year that starts on the 1 March on or before `d`. */
  function MarchYearOf(d: Date): int { if d.month <= 2 then d.year - 1 else d.year }

  /** The number of days from that 1 March to `d`. */
  function MarchDayOf(d: Date): int
  {
    MonthStart(if d.month > 2 then d.month - 3 else d.month + 9) + d.day - 1
  }

  /** Days from 1970-01-01 to 1 March of year y, counted in 400-year eras
      from 1 March of year 0. */
  function MarchYearStart(y: int): int { (y / 400) * 146097 + DaysBeforeYearOfEra(y % 400) - 719468 }

  lemma LeapShift(era: int, k: int)
    ensures IsLeapYear(era * 400 + k) == IsLeapYear(k)
  {
    var y := era * 400 + k;
    DivModSmall(k, 4, k / 4, k % 4);
    DivModSmall(y, 4, 100 * era + k / 4, k % 4);
    DivModSmall(k, 100, k / 100, k % 100);
    DivModSmall(y, 100, 4 * era + k / 100, k % 100);
    DivModSmall(k, 400, k / 400, k % 400);
    DivModSmall(y, 400, era + k / 400, k % 400);
  }

  /** The year within an era and the day within that year, of the day `doe` of the era. */
  function YearOfEra(doe: int): (r: (int, int))
    requires 0 <= doe < 146097
    ensures 0 <= r.0 < 400 && 0 <= r.1 <= 365
    ensures doe == DaysBeforeYearOfEra(r.0) + r.1
    ensures r.1 == 365 ==> IsLeapYear(r.0 + 1)
  {
    var c := if doe == 146096 then 3 else doe / 36524;
    var doc := doe - 36524 * c;
    assert 0 <= c <= 3 && 0 <= doc <= 36524 && (doc == 36524 ==> c == 3);
    var q := doc / 1461;
    var r := doc % 1461;
    assert doc == 1461 * q + r && 0 <= q <= 24;
    var yoc := if r == 1460 then 3 else r / 365;
    assert 0 <= yoc <= 3 && 0 <= r - 365 * yoc <= 365;
    var yoe := 100 * c + 4 * q + yoc;
    DivModSmall(yoe, 4, 25 * c + q, yoc);
    DivModSmall(yoe, 100, c, 4 * q + yoc);
    assert r == 1460 ==> (q == 24 ==> c == 3) && (yoe + 1) % 4 == 0;
    assert r == 1460 && q < 24 ==> (yoe + 1) % 100 != 0 by {
      if r == 1460 && q < 24 {
        DivModSmall(yoe + 1, 100, c, 4 * q + 4);
      }
    }
    (yoe, r - 365 * yoc)
  }

  lemma DivModSmall(x: int, d: int, q: int, r: int)
    requires d == 4 || d == 100 || d == 400
    requires x == d * q + r && 0 <= r < d
    ensures x / d == q && x % d == r
  {
  }

  /** The date that is doy days after 1 March of year y (doy < 366). */
  function MarchDate(y: int, doy: int): (d: Date)
    requires 0 <= doy <= 365
    requires doy == 365 ==> IsLeapYear(y + 1)
    ensures ValidDate(d)
  {
    MonthOfDay(doy);
    var mp := (5 * doy + 2) / 153;
    var month := if mp < 10 then mp + 3 else mp - 9;
    Date(if month <= 2 then y + 1 else y, month, doy - MonthStart(mp) + 1)
  }

  lemma MarchDateCount(y: int, doy: int)
    requires 0 <= doy <= 365
    requires doy == 365 ==> IsLeapYear(y + 1)
    ensures DaysFromCivil(MarchDate(y, doy)) == MarchYearStart(y) + doy
  {
    MonthOfDay(doy);
  }

  /** The date `z` days after 1970-01-01 (a valid date; CivilFromDaysCount
      shows that its day count is `z`). */
  function CivilFromDays(z: int): (d: Date)
    ensures ValidDate(d)
  {
    var era := (z + 719468) / 146097;
    var yd := YearOfEra((z + 719468) % 146097);
    LeapShift(era, yd.0 + 1);
    MarchDate(era * 400 + yd.0, yd.1)
  }

  lemma CivilFromDaysCount(z: int)
    ensures DaysFromCivil(CivilFromDays(z)) == z
  {
    var era := (z + 719468) / 146097;
    var yd := YearOfEra((z + 719468) % 146097);
    LeapShift(era, yd.0 + 1);
    var y := era * 400 + yd.0;
    DivModSmall(y, 400, era, yd.0);
    assert CivilFromDays(z) == MarchDate(y, yd.1);
    MarchDateCount(y, yd.1);
  }

  /** The calendar day after d, by the month lengths and the leap-year rule alone. */
  function NextDay(d: Date): Date
  {
    if d.day < DaysInMonth(d.year, d.month) then Date(d.year, d.month, d.day + 1)
    else if d.month < 12 then Date(d.year, d.month + 1, 1)
    else Date(d.year + 1, 1, 1)
  }


  lemma {:induction false} MarchYearLength(y: int)
    ensures MarchYearStart(y + 1) == MarchYearStart(y) + (if IsLeapYear(y + 1) then 366 else 365)
  {
    var era, k := y / 400, y % 400;
    DivModSmall(y, 400, era, k);
    LeapShift(era, k + 1);
    if k == 399 {
      DivModSmall(y + 1, 400, era + 1, 0);
    } else {
      DivModSmall(y + 1, 400, era, k + 1);
      DivStep(k, 4);
      DivStep(k, 100);
      DivModSmall(k + 1, 400, 0, k + 1);
    }
  }

  /** Integer division by 4 or 100 moves up by one exactly at a multiple. */
  lemma DivStep(k: int, d: int)
    requires d == 4 || d == 100
    ensures (k + 1) / d == k / d + (if (k + 1) % d == 0 then 1 else 0)
  {
    DivModSmall(k, d, k / d, k % d);
    if k % d == d - 1 {
      DivModSmall(k + 1, d, k / d + 1, 0);
    } else {
      DivModSmall(k + 1, d, k / d, k % d + 1);
    }
  }

  /** Consecutive calendar days have consecutive day counts: together with
      Epoch this pins DaysFromCivil down to the calendar's own rules. */
  lemma {:induction false} NextDayCount(d: Date)
    requires ValidDate(d)
    ensures ValidDate(NextDay(d))
    ensures DaysFromCivil(NextDay(d)) == DaysFromCivil(d) + 1
  {
    var e := NextDay(d);
    if d.day == DaysInMonth(d.year, d.month) && d.month == 2 {
      assert MarchYearOf(e) == d.year && MarchDayOf(e) == 0;
      assert MarchYearOf(d) == d.year - 1 && MarchDayOf(d) == d.day + 336 by {
        MonthStarts();
      }
      MarchYearLength(d.year - 1);
    } else {
      assert MarchYearOf(e) == MarchYearOf(d);
      assert MarchDayOf(e) == MarchDayOf(d) + 1 by {
        MonthStarts();
      }
    }
  }

  /** The first day of each month of a March-based year. */
  lemma MonthStarts()
    ensures MonthStart(0) == 0 && MonthStart(1) == 31 && MonthStart(2) == 61
    ensures MonthStart(3) == 92 && MonthStart(4) == 122 && MonthStart(5) == 153
    ensures MonthStart(6) == 184 && MonthStart(7) == 214 && MonthStart(8) == 245
    ensures MonthStart(9) == 275 && MonthStart(10) == 306 && MonthStart(11) == 337
  {
  }

  lemma Epoch()
    ensures DaysFromCivil(Date(1970, 1, 1)) == 0
  {
  }

  lemma {:induction false} YearOfEraUnique(yoe: int, doy: int)
    requires 0 <= yoe < 400 && 0 <= doy <= 365
    requires doy == 365 ==> IsLeapYear(yoe + 1)
    ensures 0 <= DaysBeforeYearOfEra(yoe) + doy < 146097
    ensures YearOfEra(DaysBeforeYearOfEra(yoe) + doy) == (yoe, doy)
  {
    assert DaysBeforeYearOfEra(yoe) <= DaysBeforeYearOfEra(399);
    var doe := DaysBeforeYearOfEra(yoe) + doy;
    var (y', doy') := YearOfEra(doe);
    if y' < yoe {
      YearsOfEraApart(y', yoe);
    } else if yoe < y' {
      YearsOfEraApart(yoe, y');
    }
  }

  lemma {:induction false} YearsOfEraApart(a: int, b: int)
    requires 0 <= a < b < 400
    ensures DaysBeforeYearOfEra(b) >= DaysBeforeYearOfEra(a) + (if IsLeapYear(a + 1) then 366 else 365)
  {
  }


  lemma {:induction false} MarchDateOf(d: Date)
    requires ValidDate(d)
    ensures 0 <= MarchDayOf(d) <= 365
    ensures MarchDayOf(d) == 365 ==> IsLeapYear(MarchYearOf(d) + 1)
    ensures MarchDate(MarchYearOf(d), MarchDayOf(d)) == d
  {
    var mp := if d.month > 2 then d.month - 3 else d.month + 9;
    assert (5 * MarchDayOf(d) + 2) / 153 == mp;
  }

  lemma DivModEra(x: int, q: int, r: int)
    requires x == q * 146097 + r && 0 <= r < 146097
    ensures x / 146097 == q && x % 146097 == r
  {
  }

  /** The era and the day within the era of day `z`, the day doy after 1 March of year y. */
  lemma {:induction false} EraOfMarchDay(z: int, y: int, doy: int)
    requires 0 <= doy <= 365 && z == MarchYearStart(y) + doy
    ensures (z + 719468) / 146097 == y / 400 && (z + 719468) % 146097 == DaysBeforeYearOfEra(y % 400) + doy
  {
    var era, yoe := y / 400, y % 400;
    assert DaysBeforeYearOfEra(yoe) <= DaysBeforeYearOfEra(399);
    DivModEra(z + 719468, era, DaysBeforeYearOfEra(yoe) + doy);
  }

  /** CivilFromDays once its era split and year-of-era split are known. */
  lemma CivilFromParts(z: int, era: int, yoe: int, doy: int)
    requires (z + 719468) / 146097 == era
    requires 0 <= yoe < 400 && YearOfEra((z + 719468) % 146097) == (yoe, doy)
    ensures CivilFromDays(z) == MarchDate(era * 400 + yoe, doy)
  {
    var yd := YearOfEra((z + 719468) % 146097);
    assert CivilFromDays(z) == MarchDate((z + 719468) / 146097 * 400 + yd.0, yd.1);
  }

  /** Day `z`, the day doy after 1 March of year y, is that March-based date. */
  lemma {:induction false} CivilFromMarchDay(z: int, y: int, doy: int)
    requires 0 <= doy <= 365
    requires doy == 365 ==> IsLeapYear(y + 1)
    requires z == MarchYearStart(y) + doy
    ensures CivilFromDays(z) == MarchDate(y, doy)
  {
    var era, yoe := y / 400, y % 400;
    LeapShift(era, yoe + 1);
    EraOfMarchDay(z, y, doy);
    YearOfEraUnique(yoe, doy);
    CivilFromParts(z, era, yoe, doy);
    assert era * 400 + yoe == y;
  }

  /** Every valid date is found again from its day count, so the day count
      is one-to-one on valid dates and CivilFromDays is its inverse. */
  lemma {:induction false} CivilRoundTrip(d: Date)
    requires ValidDate(d)
    ensures CivilFromDays(DaysFromCivil(d)) == d
  {
    MarchDateOf(d);
    CivilFromMarchDay(DaysFromCivil(d), MarchYearOf(d), MarchDayOf(d));
  }

  // ---------------------------------------------------------------- time of day

  const MsPerDay: int := 86400000

  datatype DateTime = DateTime(date: Date, hour: int, minute: int, second: int, millisecond: int)

  predicate ValidDateTime(t: DateTime)
  {
    ValidDate(t.date) && 0 <= t.hour < 24 && 0 <= t.minute < 60 && 0 <= t.second < 60
    && 0 <= t.millisecond < 1000
  }

  /** Milliseconds from 1970-01-01T00:00:00.000Z to `t`. */
  function TimeValue(t: DateTime): int
  {
    DaysFromCivil(t.date) * MsPerDay + t.hour * 3600000 + t.minute * 60000 + t.second * 1000
    + t.millisecond
  }

  /** The UTC date and time of day of a time value in milliseconds. */
  function DateTimeOf(ms: int): (t: DateTime)
    ensures ValidDateTime(t) && TimeValue(t) == ms
  {
    var rem := ms % MsPerDay;
    var hour, inHour := rem / 3600000, rem % 3600000;
    var minute, inMinute := inHour / 60000, inHour % 60000;
    var second, millisecond := inMinute / 1000, inMinute % 1000;
    assert rem == hour * 3600000 + minute * 60000 + second * 1000 + millisecond;
    assert ms == (ms / MsPerDay) * MsPerDay + rem;
    CivilFromDaysCount(ms / MsPerDay);
    DateTime(CivilFromDays(ms / MsPerDay), hour, minute, second, millisecond)
  }

  lemma DateTimeRoundTrip(t: DateTime)
    requires ValidDateTime(t)
    ensures DateTimeOf(TimeValue(t)) == t
  {
    var inDay := t.hour * 3600000 + t.minute * 60000 + t.second * 1000 + t.millisecond;
    var days := DaysFromCivil(t.date);
    assert TimeValue(t) == days * MsPerDay + inDay;
    DivModDay(TimeValue(t), days, inDay);
    CivilRoundTrip(t.date);
    assert inDay / 3600000 == t.hour && inDay % 3600000 == t.minute * 60000 + t.second * 1000 + t.millisecond;
  }

  lemma DivModDay(x: int, q: int, r: int)
    requires x == q * MsPerDay + r && 0 <= r < MsPerDay
    ensures x / MsPerDay == q && x % MsPerDay == r
  {
  }

  // ---------------------------------------------------------------- ISO 8601 text

  /** The year as `toISOString` writes it: four digits for the years 0 to
      9999, otherwise a sign and six digits. */
  function IsoYear(y: int): string
  {
    if 0 <= y <= 9999 then ZeroPadded(y, 4)
    else if y < 0 then "-" + ZeroPadded(-y, 6)
    else "+" + ZeroPadded(y, 6)
  }

  /** `toISOString()`: `YYYY-MM-DDTHH:mm:ss.sssZ`. */
  function IsoString(t: DateTime): string
    requires ValidDateTime(t)
  {
    IsoYear(t.date.year) + "-" + ZeroPadded(t.date.month, 2) + "-" + ZeroPadded(t.date.day, 2)
    + "T" + ZeroPadded(t.hour, 2) + ":" + ZeroPadded(t.minute, 2) + ":" + ZeroPadded(t.second, 2)
    + "." + ZeroPadded(t.millisecond, 3) + "Z"
  }
}
