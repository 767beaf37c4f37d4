/**
 * `epoch_to_civil` against the calendar of RFC 3339 (month lengths in section 5.7, leap years in Appendix C).
 * Sixteen-, thirty-two- and sixty-four-bit operations are written out: signed division truncates, every unsigned
 * difference is checked to be non-negative, and the year is cut to an i32.
 */
module Calendar {
  import opened Common

  datatype Date = Date(year: int, month: int, day: int)

  datatype Civil = Civil(year: int, month: nat, day: nat, hour: nat, min: nat, sec: nat)

  predicate IsLeap(y: int) {
    y % 4 == 0 && (y % 100 != 0 || y % 400 == 0)
  }

  function MonthLength(y: int, m: int): int
    requires 1 <= m <= 12
  {
    if m == 2 then (if IsLeap(y) then 29 else 28)
    else if m == 4 || m == 6 || m == 9 || m == 11 then 30
    else 31
  }

  predicate IsDate(d: Date) {
    1 <= d.month <= 12 && 1 <= d.day <= MonthLength(d.year, d.month)
  }

  /** The day after. */
  function NextDay(d: Date): Date
    requires IsDate(d)
  {
    if d.day < MonthLength(d.year, d.month) then Date(d.year, d.month, d.day + 1)
    else if d.month < 12 then Date(d.year, d.month + 1, 1)
    else Date(d.year + 1, 1, 1)
  }

  // -- the code ---------------------------------------------------------------------------

  function TruncDiv(a: int, b: int): int
    requires b > 0
  {
    if a >= 0 then a / b else -(-a / b)
  }

  function WrapI32(n: int): int {
    (n + 0x8000_0000) % 0x1_0000_0000 - 0x8000_0000
  }

  function YearOfEra(doe: nat): nat
    requires doe < 146_097
  {
    var a: nat := doe - doe / 1460;
    var b: nat := a + doe / 36_524 - doe / 146_096;
    b / 365
  }

  /** First day of year `yoe` of an era, counting years from March. */
  function YearStart(yoe: nat): nat {
    365 * yoe + yoe / 4 - yoe / 100
  }

  /** Year, month and day of day `z` counted from 0000-03-01, before the year is cut to 32 bits. */
  function CivilFromDays(z: int): Date {
    var era := TruncDiv(if z >= 0 then z else z - 146_096, 146_097);
    EraIsFloor(z);
    var doe: nat := z - era * 146_097;
    var yoe := YearOfEra(doe);
    YearOfEraBrackets(doe);
    var doy: nat := doe - YearStart(yoe);
    var mp: nat := (5 * doy + 2) / 153;
    var d: nat := doy - (153 * mp + 2) / 5 + 1;
    var m: nat := if mp < 10 then mp + 3 else mp - 9;
    Date(yoe + era * 400 + (if m <= 2 then 1 else 0), m, d)
  }

  function EpochToCivil(secs: i64): Civil {
    var days := secs / 86_400;
    var secs_of_day := secs % 86_400;
    var date := CivilFromDays(days + 719_468);
    CivilAdvances(days + 719_468);
    Civil(WrapI32(date.year), date.month, date.day,
          secs_of_day / 3600, (secs_of_day % 3600) / 60, secs_of_day % 60)
  }

  // -- its arithmetic -----------------------------------------------------------------------

  lemma EraIsFloor(z: int)
    ensures var era := TruncDiv(if z >= 0 then z else z - 146_096, 146_097);
            era == z / 146_097 && 0 <= z - era * 146_097 < 146_097
  {
  }

  /** Division by a constant, as a bracket. */
  lemma DivIs(n: int, d: int, k: int)
    requires d > 0 && d * k <= n < d * k + d
    ensures n / d == k
  {
    var q := n / d;
    if q < k {
      MulMonotone(d, q + 1, k);
    } else if k < q {
      MulMonotone(d, k + 1, q);
    }
  }

  lemma MulMonotone(d: int, a: int, b: int)
    requires d > 0 && a <= b
    ensures d * a <= d * b
  {
  }

  /** An era is centuries, four-year cycles, years and days; the last of each may be one day longer. */
  ghost predicate Parts(doe: int, c: nat, q: nat, s: nat, t: nat) {
    && c <= 3 && q <= 24 && s <= 3 && t <= 365
    && doe == 36_524 * c + 1461 * q + 365 * s + t
    && (t == 365 ==> s == 3 && (q < 24 || c == 3))
  }

  ghost function Split(doe: nat): (p: (nat, nat, nat, nat))
    requires doe < 146_097
    ensures Parts(doe, p.0, p.1, p.2, p.3)
  {
    var c := Min(doe / 36_524, 3);
    var r := doe - 36_524 * c;
    var q := Min(r / 1461, 24);
    var r2 := r - 1461 * q;
    var s := Min(r2 / 365, 3);
    (c, q, s, r2 - 365 * s)
  }

  lemma PartsYear(doe: nat, c: nat, q: nat, s: nat, t: nat)
    requires doe < 146_097 && Parts(doe, c, q, s, t)
    ensures YearOfEra(doe) == 100 * c + 4 * q + s
  {
    var y := 100 * c + 4 * q + s;
    var rho := 24 * c + q + 365 * s + t;
    var carry := if rho >= 1460 then 1 else 0;
    var last := if doe == 146_096 then 1 else 0;
    assert doe == 1460 * (25 * c + q) + rho;
    DivIs(doe, 1460, 25 * c + q + carry);
    DivIs(doe, 36_524, c + last);
    DivIs(doe, 146_096, last);
    DivIs(365 * y + t - carry, 365, y);
  }

  lemma PartsStart(c: nat, q: nat, s: nat)
    requires s <= 3 && q <= 24
    ensures YearStart(100 * c + 4 * q + s) == 36_524 * c + 1461 * q + 365 * s
  {
    var y := 100 * c + 4 * q + s;
    DivIs(y, 4, 25 * c + q);
    DivIs(y, 100, c);
  }

  /** The year found starts on or before the day, and the next one after it. */
  lemma YearOfEraBrackets(doe: nat)
    requires doe < 146_097
    ensures var yoe := YearOfEra(doe);
            yoe < 400 && YearStart(yoe) <= doe < YearEnd(yoe)
  {
    var (c, q, s, t) := Split(doe);
    PartsYear(doe, c, q, s, t);
    PartsStart(c, q, s);
    if s < 3 {
      PartsStart(c, q, s + 1);
    } else if q < 24 {
      PartsStart(c, q + 1, 0);
    } else {
      PartsStart(c + 1, 0, 0);
    }
  }

  /** Day of the era on which year `yoe` ends: the start of the next, or the end of the era. */
  function YearEnd(yoe: nat): nat {
    if yoe == 399 then 146_097 else YearStart(yoe + 1)
  }

  lemma YearStartStep(b: nat)
    ensures YearStart(b) + 365 <= YearStart(b + 1)
  {
    DivIs(b, 100, b / 4 / 25);
    DivIs(b + 1, 100, (b + 1) / 4 / 25);
  }

  lemma {:induction false} YearStartGrows(a: nat, b: nat)
    requires a < b
    ensures YearStart(a) + 365 <= YearStart(b)
  {
    hide YearStart;
    YearStartStep(b - 1);
    if a + 1 < b {
      YearStartGrows(a, b - 1);
    }
  }

  /** The bracket determines the year. */
  lemma YearOfEraIs(doe: nat, y: nat)
    requires doe < 146_097 && y < 400 && YearStart(y) <= doe < YearEnd(y)
    ensures YearOfEra(doe) == y
  {
    var yoe := YearOfEra(doe);
    YearOfEraBrackets(doe);
    if yoe < y {
      if yoe + 1 < y { YearStartGrows(yoe + 1, y); }
    } else if y < yoe {
      if y + 1 < yoe { YearStartGrows(y + 1, yoe); }
    }
  }

  // -- years counted from March ---------------------------------------------------------------

  /** Day `doy` of the year that begins on 1 March of `year`. */
  datatype MarchDay = MarchDay(year: int, doy: nat)

  function MarchLength(year: int): nat {
    if IsLeap(year + 1) then 366 else 365
  }

  function MarchOf(era: int, doe: nat): MarchDay
    requires doe < 146_097
  {
    YearOfEraBrackets(doe);
    MarchDay(YearOfEra(doe) + era * 400, doe - YearStart(YearOfEra(doe)))
  }

  function ToMarch(z: int): MarchDay {
    MarchOf(z / 146_097, z % 146_097)
  }

  function FromMarch(year: int, doy: nat): Date {
    var mp := (5 * doy + 2) / 153;
    var m := if mp < 10 then mp + 3 else mp - 9;
    Date(year + (if m <= 2 then 1 else 0), m, doy - (153 * mp + 2) / 5 + 1)
  }

  lemma CivilViaMarch(z: int)
    ensures CivilFromDays(z) == FromMarch(ToMarch(z).year, ToMarch(z).doy)
  {
    hide YearOfEra;
    EraIsFloor(z);
  }

  lemma LeapRepeats(y: int, era: int)
    ensures IsLeap(y + era * 400) == IsLeap(y)
  {
    DivIs(y + era * 400, 4, y / 4 + 100 * era);
    DivIs(y + era * 400, 100, y / 100 + 4 * era);
    DivIs(y + era * 400, 400, y / 400 + era);
  }

  lemma YearLength(yoe: nat)
    requires yoe < 400
    ensures YearEnd(yoe) - YearStart(yoe) == MarchLength(yoe)
  {
    var n := yoe + 1;
    assert n / 4 - yoe / 4 == if n % 4 == 0 then 1 else 0;
    assert n / 100 - yoe / 100 == if n % 100 == 0 then 1 else 0;
    assert n % 100 == 0 ==> n % 4 == 0;
    assert n % 400 == 0 <==> n == 400;
  }

  /** The day after day `doe` of an era, within it or at the start of the next. */
  ghost predicate NextInMarch(m: MarchDay, n: MarchDay) {
    && m.doy < MarchLength(m.year)
    && n == if m.doy + 1 < MarchLength(m.year) then MarchDay(m.year, m.doy + 1) else MarchDay(m.year + 1, 0)
  }

  lemma EraAdvances(era: int, doe: nat)
    requires doe < 146_096
    ensures NextInMarch(MarchOf(era, doe), MarchOf(era, doe + 1))
  {
    hide YearOfEra, IsLeap;
    var yoe := YearOfEra(doe);
    YearOfEraBrackets(doe);
    YearLength(yoe);
    LeapRepeats(yoe + 1, era);
    if doe + 1 < YearEnd(yoe) {
      YearOfEraIs(doe + 1, yoe);
    } else {
      YearLength(yoe + 1);
      YearOfEraIs(doe + 1, yoe + 1);
    }
  }

  lemma EraEnds(era: int, last: nat, first: nat)
    requires last == 146_096 && first == 0
    ensures NextInMarch(MarchOf(era, last), MarchOf(era + 1, first))
  {
    hide YearOfEra, YearStart, IsLeap;
    PartsYear(last, 3, 24, 3, 365);
    PartsStart(3, 24, 3);
    PartsYear(first, 0, 0, 0, 0);
    PartsStart(0, 0, 0);
    LeapRepeats(400, era);
    FourHundredIsLeap();
  }

  lemma FourHundredIsLeap()
    ensures IsLeap(400)
  {
  }

  /** The next day number is the next day of the March year, or the first day of the next one. */
  lemma MarchAdvances(z: int)
    ensures NextInMarch(ToMarch(z), ToMarch(z + 1))
  {
    hide MarchOf, NextInMarch;
    var era, doe := z / 146_097, z % 146_097;
    if doe < 146_096 {
      DivIs(z + 1, 146_097, era);
      EraAdvances(era, doe);
    } else {
      DivIs(z + 1, 146_097, era + 1);
      EraEnds(era, doe, 0);
    }
  }

  /** Within a March year the month arithmetic yields real dates... */
  lemma MonthsAreReal(year: int, doy: nat)
    requires doy < MarchLength(year)
    ensures IsDate(FromMarch(year, doy))
  {
    hide IsLeap;
    var mp := (5 * doy + 2) / 153;
    assert mp == 0 || mp == 1 || mp == 2 || mp == 3 || mp == 4 || mp == 5 || mp == 6 || mp == 7 || mp == 8
           || mp == 9 || mp == 10 || mp == 11;
  }

  /** ...one after the other. */
  lemma MonthsAdvance(year: int, doy: nat)
    requires doy < MarchLength(year)
    ensures IsDate(FromMarch(year, doy))
    ensures NextDay(FromMarch(year, doy)) ==
            if doy + 1 < MarchLength(year) then FromMarch(year, doy + 1) else FromMarch(year + 1, 0)
  {
    MonthsAreReal(year, doy);
    hide IsLeap, IsDate;
    var mp := (5 * doy + 2) / 153;
    assert mp == 0 || mp == 1 || mp == 2 || mp == 3 || mp == 4 || mp == 5 || mp == 6 || mp == 7 || mp == 8
           || mp == 9 || mp == 10 || mp == 11;
  }

  /** `CivilFromDays` yields real dates and takes the next day number to the next day. */
  lemma CivilAdvances(z: int)
    ensures IsDate(CivilFromDays(z))
    ensures CivilFromDays(z + 1) == NextDay(CivilFromDays(z))
  {
    hide CivilFromDays, ToMarch, FromMarch, NextDay, IsDate;
    MarchAdvances(z);
    CivilViaMarch(z);
    CivilViaMarch(z + 1);
    MonthsAdvance(ToMarch(z).year, ToMarch(z).doy);
  }

  // -- day numbers --------------------------------------------------------------------------------

  function DaysInYear(y: int): int {
    if IsLeap(y) then 366 else 365
  }

  /** Days from 1970-01-01 to 1 January of `y`, counted year by year. */
  function DaysBeforeYear(y: int): int
    decreases if y >= 1970 then y - 1970 else 1970 - y
  {
    if y == 1970 then 0
    else if y > 1970 then DaysBeforeYear(y - 1) + DaysInYear(y - 1)
    else DaysBeforeYear(y + 1) - DaysInYear(y)
  }

  /** Days of the months before `m`, counted month by month. */
  function DaysBeforeMonth(y: int, m: int): int
    requires 1 <= m <= 13
  {
    if m == 1 then 0 else DaysBeforeMonth(y, m - 1) + MonthLength(y, m - 1)
  }

  /** Days from 1970-01-01 to `d`. */
  function DayNumber(d: Date): int
    requires IsDate(d)
  {
    DaysBeforeYear(d.year) + DaysBeforeMonth(d.year, d.month) + d.day - 1
  }

  lemma {:induction false} TwelveMonths(y: int)
    ensures DaysBeforeMonth(y, 13) == DaysInYear(y)
  {
    assert DaysBeforeMonth(y, 2) == 31;
    assert DaysBeforeMonth(y, 3) == 31 + MonthLength(y, 2);
    assert DaysBeforeMonth(y, 5) == DaysBeforeMonth(y, 3) + 61;
    assert DaysBeforeMonth(y, 7) == DaysBeforeMonth(y, 5) + 61;
    assert DaysBeforeMonth(y, 9) == DaysBeforeMonth(y, 7) + 62;
    assert DaysBeforeMonth(y, 11) == DaysBeforeMonth(y, 9) + 61;
    assert DaysBeforeMonth(y, 13) == DaysBeforeMonth(y, 11) + 61;
  }

  lemma NextDayNumber(d: Date)
    requires IsDate(d)
    ensures IsDate(NextDay(d)) && DayNumber(NextDay(d)) == DayNumber(d) + 1
  {
    hide IsLeap, DaysInYear, DaysBeforeYear, DaysBeforeMonth;
    MonthOn(d.year, d.month);
    if d.month == 12 && d.day == MonthLength(d.year, 12) {
      YearOn(d.year);
    }
  }

  lemma MonthOn(y: int, m: int)
    requires 1 <= m <= 12
    ensures DaysBeforeMonth(y, m + 1) == DaysBeforeMonth(y, m) + MonthLength(y, m)
  {
  }

  lemma YearOn(y: int)
    ensures DaysBeforeYear(y + 1) == DaysBeforeYear(y) + DaysBeforeMonth(y, 13)
    ensures DaysBeforeMonth(y + 1, 1) == 0
  {
    hide IsLeap;
    TwelveMonths(y);
  }

  lemma EpochIsNewYear(z: int)
    requires z == 719_468
    ensures CivilFromDays(z) == Date(1970, 1, 1) && IsDate(Date(1970, 1, 1)) && DayNumber(Date(1970, 1, 1)) == 0
  {
    hide CivilFromDays, YearOfEra;
    CivilViaMarch(z);
    DivIs(z, 146_097, 4);
    var doe: nat := z - 4 * 146_097;
    PartsYear(doe, 3, 17, 1, 306);
    PartsStart(3, 17, 1);
  }

  /** The date computed for a day number is that many days from 1970-01-01. */
  lemma {:induction false} CivilHasDayNumber(z: int)
    ensures IsDate(CivilFromDays(z + 719_468)) && DayNumber(CivilFromDays(z + 719_468)) == z
    decreases if z >= 0 then z else -z
  {
    hide CivilFromDays, IsDate, NextDay, DayNumber;
    if z == 0 {
      EpochIsNewYear(z + 719_468);
    } else if z > 0 {
      CivilHasDayNumber(z - 1);
      CivilAdvances(z + 719_467);
      NextDayNumber(CivilFromDays(z + 719_467));
    } else {
      CivilHasDayNumber(z + 1);
      CivilAdvances(z + 719_468);
      NextDayNumber(CivilFromDays(z + 719_468));
    }
  }

  lemma {:induction false} YearsGrow(a: int, b: int)
    requires a <= b
    ensures DaysBeforeYear(a) + 365 * (b - a) <= DaysBeforeYear(b)
    decreases b - a
  {
    if a < b {
      YearsGrow(a, b - 1);
      assert DaysBeforeYear(b) == DaysBeforeYear(b - 1) + DaysInYear(b - 1);
    }
  }

  lemma {:induction false} MonthsGrow(y: int, a: int, b: int)
    requires 1 <= a <= b <= 13
    ensures DaysBeforeMonth(y, a) <= DaysBeforeMonth(y, b)
    ensures a < b ==> DaysBeforeMonth(y, a) + MonthLength(y, a) <= DaysBeforeMonth(y, b)
    decreases b - a
  {
    if a < b {
      MonthsGrow(y, a, b - 1);
    }
  }

  /** A date's day number lies within its year, and determines it. */
  lemma DayNumberInYear(d: Date)
    requires IsDate(d)
    ensures DaysBeforeYear(d.year) <= DayNumber(d) < DaysBeforeYear(d.year + 1)
  {
    MonthsGrow(d.year, 1, d.month);
    MonthsGrow(d.year, d.month, 13);
    TwelveMonths(d.year);
    assert DaysBeforeYear(d.year + 1) == DaysBeforeYear(d.year) + DaysInYear(d.year);
  }

  /** No two dates share a day number. */
  lemma DayNumberInjective(a: Date, b: Date)
    requires IsDate(a) && IsDate(b) && DayNumber(a) == DayNumber(b)
    ensures a == b
  {
    DayNumberInYear(a);
    DayNumberInYear(b);
    if a.year < b.year {
      YearsGrow(a.year + 1, b.year);
    } else if b.year < a.year {
      YearsGrow(b.year + 1, a.year);
    }
    if a.month < b.month {
      MonthsGrow(a.year, a.month, b.month);
    } else if b.month < a.month {
      MonthsGrow(a.year, b.month, a.month);
    }
  }

  /** Every calendar date is the one computed for its day number. */
  lemma EveryDateIsReached(d: Date)
    requires IsDate(d)
    ensures CivilFromDays(DayNumber(d) + 719_468) == d
  {
    hide CivilFromDays, IsDate, DayNumber;
    CivilHasDayNumber(DayNumber(d));
    DayNumberInjective(CivilFromDays(DayNumber(d) + 719_468), d);
  }

  // -- the whole function ---------------------------------------------------------------------------

  /** The instant a broken-down time names, when its date exists. */
  ghost predicate Names(c: Civil, secs: int) {
    && c.hour < 24 && c.min < 60 && c.sec < 60
    && IsDate(Date(c.year, c.month, c.day))
    && DayNumber(Date(c.year, c.month, c.day)) * 86_400 + c.hour * 3600 + c.min * 60 + c.sec == secs
  }

  const I32_MIN: int := -0x8000_0000
  const I32_MAX: int := 0x7FFF_FFFF

  /** The instants whose year is an i32. */
  ghost predicate YearFits(secs: int) {
    DaysBeforeYear(I32_MIN) <= secs / 86_400 < DaysBeforeYear(I32_MAX + 1)
  }

  lemma YearFitsIsYear(d: Date, secs: int)
    requires IsDate(d) && DayNumber(d) == secs / 86_400
    ensures YearFits(secs) <==> I32_MIN <= d.year <= I32_MAX
  {
    hide DaysBeforeYear, DayNumber, IsDate;
    DayNumberInYear(d);
    if d.year < I32_MIN { YearsGrow(d.year + 1, I32_MIN); } else { YearsGrow(I32_MIN, d.year); }
    if d.year <= I32_MAX { YearsGrow(d.year + 1, I32_MAX + 1); } else { YearsGrow(I32_MAX + 1, d.year); }
  }

  lemma TimeOfDay(secs: int)
    ensures var s := secs % 86_400;
            && s / 3600 < 24 && (s % 3600) / 60 < 60 && s % 60 < 60
            && s / 3600 * 3600 + (s % 3600) / 60 * 60 + s % 60 == s
  {
    var s := secs % 86_400;
    assert (s % 3600) % 60 == s % 60;
  }

  /** A year that does not fit comes back as the i32 it wraps to; month, day and time stay those of the input. */
  lemma YearWraps(secs: i64)
    ensures var c, date := EpochToCivil(secs), CivilFromDays(secs / 86_400 + 719_468);
            && -0x8000_0000 <= c.year <= 0x7FFF_FFFF && (c.year - date.year) % 0x1_0000_0000 == 0
            && c.month == date.month && c.day == date.day
            && c.hour * 3600 + c.min * 60 + c.sec == secs % 86_400
  {
    hide CivilFromDays;
    TimeOfDay(secs);
  }

  /** The result names the input second exactly when the year fits the i32 it is returned in. */
  lemma EpochToCivilCorrect(secs: i64)
    ensures Names(EpochToCivil(secs), secs) <==> YearFits(secs)
  {
    hide CivilFromDays, DayNumber, IsDate, YearFits;
    var days := secs / 86_400;
    var d := CivilFromDays(days + 719_468);
    CivilHasDayNumber(days);
    TimeOfDay(secs);
    YearFitsIsYear(d, secs);
    var c := EpochToCivil(secs);
    var e := Date(c.year, c.month, c.day);
    if Names(c, secs) {
      assert DayNumber(e) == days;
      DayNumberInjective(d, e);
    }
  }
}
