/** Calendar arithmetic of the C library: day numbers, civil dates and broken-down time. */
module Calendar {
  import opened Bits

  // ------------------------------------------------------------- C integers

  /** Division truncating toward zero, and its remainder. */
  function CDiv(a: int, b: int): int
    requires b > 0
  {
    if a >= 0 then a / b else -((-a) / b)
  }

  function CMod(a: int, b: int): int
    requires b > 0
  {
    a - CDiv(a, b) * b
  }

  const U32: int := 0x1_0000_0000

  predicate FitsInt(i: int) { -0x8000_0000 <= i < 0x8000_0000 }

  /** Conversion of a wide integer to int. */
  function Narrow(i: int): (r: int)
    ensures FitsInt(r) && (r == i <==> FitsInt(i))
  {
    (i + 0x8000_0000) % U32 - 0x8000_0000
  }

  // --------------------------------------------------------------- calendar

  datatype Date = Date(year: int, month: int, day: int)

  predicate IsLeapYear(year: int) {
    CMod(year, 4) == 0 && (CMod(year, 100) != 0 || CMod(year, 400) == 0)
  }

  function DaysInMonth(year: int, month: int): int {
    if month == 2 then (if IsLeapYear(year) then 29 else 28)
    else if month in {4, 6, 9, 11} then 30
    else 31
  }

  predicate ValidDate(d: Date) {
    1 <= d.month <= 12 && 1 <= d.day <= DaysInMonth(d.year, d.month)
  }

  /** The day after d in the proleptic Gregorian calendar. */
  function NextDay(d: Date): Date {
    if d.day < DaysInMonth(d.year, d.month) then d.(day := d.day + 1)
    else if d.month < 12 then Date(d.year, d.month + 1, 1)
    else Date(d.year + 1, 1, 1)
  }

  // -------------------------------------------------------- the closed forms

  function Era(time: int): int { CDiv(if time >= 0 then time else time - 146096, 146097) }
  function YearOfEra(doe: int): int { (doe - doe / 1460 + doe / 36524 - doe / 146096) / 365 }
  function YearStart(yoe: int): int { 365 * yoe + yoe / 4 - yoe / 100 }

  function CivilFromDays(days: int): Date {
    var time := days + 719468;
    var era := Era(time);
    var doe := time - era * 146097;
    var yoe := YearOfEra(doe);
    var y := yoe + era * 400;
    var doy := doe - YearStart(yoe);
    var mp := (5 * doy + 2) / 153;
    var d := doy - (153 * mp + 2) / 5 + 1;
    var m := mp + (if mp < 10 then 3 else -9);
    Date(y + (if m <= 2 then 1 else 0), m, d)
  }

  function EraOfYear(y: int): int { CDiv(if y >= 0 then y else y - 399, 400) }

  function DaysFromCivil(c: Date): int {
    var y := c.year - (if c.month <= 2 then 1 else 0);
    var era := EraOfYear(y);
    var yoe := y - era * 400;
    var doy := (153 * (if c.month > 2 then c.month - 3 else c.month + 9) + 2) / 5 + c.day - 1;
    var doe := yoe * 365 + yoe / 4 - yoe / 100 + doy;
    era * 146097 + doe - 719468
  }

  // --------------------------------------------------------- years of an era

  /** Length of the year that starts in March of year yoe of an era. */
  function YearLength(yoe: int): int {
    if (yoe + 1) % 4 == 0 && ((yoe + 1) % 100 != 0 || (yoe + 1) % 400 == 0) then 366 else 365
  }

  lemma YearStartStep(yoe: int)
    requires 0 <= yoe < 399
    ensures YearStart(yoe + 1) == YearStart(yoe) + YearLength(yoe)
  {
  }

  /** Year 100c + 4b + a of an era and day r of that year: centuries, four-year cycles, years. */
  predicate InEra(c: int, b: int, a: int, r: int) {
    && 0 <= c <= 3 && 0 <= b <= 24 && 0 <= a <= 3 && 0 <= r <= 365
    && (r == 365 ==> a == 3 && (b < 24 || c == 3))
  }

  function DayOfEra(c: int, b: int, a: int, r: int): int { 36524 * c + 1461 * b + 365 * a + r }

  lemma SplitDay(doe: int) returns (c: int, b: int, a: int, r: int)
    requires 0 <= doe < 146097
    ensures InEra(c, b, a, r) && doe == DayOfEra(c, b, a, r)
  {
    c := if doe / 36524 < 3 then doe / 36524 else 3;
    var rest := doe - 36524 * c;
    b := if rest / 1461 < 24 then rest / 1461 else 24;
    var rest2 := rest - 1461 * b;
    a := if rest2 / 365 < 3 then rest2 / 365 else 3;
    r := rest2 - 365 * a;
  }

  lemma YearParts(c: int, b: int, a: int, r: int)
    requires InEra(c, b, a, r)
    ensures var y := 100 * c + 4 * b + a;
            && 0 <= y <= 399 && y / 4 == 25 * c + b && y / 100 == c
            && YearStart(y) + r == DayOfEra(c, b, a, r) && r < YearLength(y)
  {
    var y := 100 * c + 4 * b + a;
    assert y / 4 == 25 * c + b;
    assert y / 100 == c;
    if r == 365 {
      assert (y + 1) % 4 == 0;
      assert b < 24 ==> (y + 1) % 100 == 4 * b + 4;
    }
  }

  /** The closed form inverts YearStart on every day of the era. */
  lemma YearOfEraParts(c: int, b: int, a: int, r: int)
    requires InEra(c, b, a, r)
    ensures YearOfEra(DayOfEra(c, b, a, r)) == 100 * c + 4 * b + a
    ensures 0 <= DayOfEra(c, b, a, r) < 146097
  {
    var doe := DayOfEra(c, b, a, r);
    CenturyTerm(c, b, a, r);
    var rest := 24 * c + b + 365 * a + r;
    var e := if rest >= 1460 then 1 else 0;
    assert doe == 1460 * (25 * c + b) + rest;
    assert doe / 1460 == 25 * c + b + e;
    assert 0 <= r - e < 365;
    assert doe - doe / 1460 + c == 365 * (100 * c + 4 * b + a) + (r - e);
  }

  lemma CenturyTerm(c: int, b: int, a: int, r: int)
    requires InEra(c, b, a, r)
    ensures 0 <= DayOfEra(c, b, a, r) < 146097
    ensures var doe := DayOfEra(c, b, a, r); doe / 36524 - doe / 146096 == c
  {
    var low := 1461 * b + 365 * a + r;
    assert 0 <= low <= 36524;
    assert low == 36524 ==> c == 3;
  }

  lemma YearOfEraCorrect(doe: int)
    requires 0 <= doe < 146097
    ensures 0 <= YearOfEra(doe) <= 399
    ensures YearStart(YearOfEra(doe)) <= doe < YearStart(YearOfEra(doe)) + YearLength(YearOfEra(doe))
  {
    hide *;
    var c, b, a, r := SplitDay(doe);
    YearOfEraParts(c, b, a, r);
    YearParts(c, b, a, r);
    assert r >= 0 by { RestNonNegative(c, b, a, r); }
  }

  lemma RestNonNegative(c: int, b: int, a: int, r: int)
    requires InEra(c, b, a, r)
    ensures r >= 0
  {
  }

  /** Any day within a year of the era is attributed to that year. */
  lemma YearOfEraUnique(yoe: int, doy: int)
    requires 0 <= yoe <= 399 && 0 <= doy < YearLength(yoe)
    ensures YearOfEra(YearStart(yoe) + doy) == yoe
    ensures 0 <= YearStart(yoe) + doy < 146097
  {
    hide YearOfEra, DayOfEra;
    var (c, b, a) := (yoe / 100, yoe % 100 / 4, yoe % 4);
    assert yoe == 100 * c + 4 * b + a;
    assert InEra(c, b, a, doy) by {
      if doy == 365 { assert (yoe + 1) % 4 == 0; }
    }
    YearParts(c, b, a, doy);
    YearOfEraParts(c, b, a, doy);
  }

  // ------------------------------------------------------------------ months

  /** Months counted from March. */
  function FromMarch(month: int): int { if month > 2 then month - 3 else month + 9 }

  lemma MonthOfDay(doy: int)
    requires 0 <= doy <= 365
    ensures var mp := (5 * doy + 2) / 153; var d := doy - (153 * mp + 2) / 5 + 1;
            var m := mp + (if mp < 10 then 3 else -9);
            && 1 <= m <= 12 && FromMarch(m) == mp && 1 <= d && doy == (153 * mp + 2) / 5 + d - 1
            && (m == 2 ==> d <= 29 && (d == 29 <==> doy == 365))
            && (m != 2 ==> forall y :: d <= DaysInMonth(y, m))
  {
    var mp := (5 * doy + 2) / 153;
    assert 0 <= mp <= 11;
    MonthCase(doy, mp);
  }

  lemma MonthCase(doy: int, mp: int)
    requires 0 <= doy <= 365 && mp == (5 * doy + 2) / 153 && 0 <= mp <= 11
    ensures var d := doy - (153 * mp + 2) / 5 + 1; var m := mp + (if mp < 10 then 3 else -9);
            && 1 <= d && (m == 2 ==> d <= 29 && (d == 29 <==> doy == 365))
            && (m in {4, 6, 9, 11} ==> d <= 30) && (m != 2 ==> d <= 31)
  {
    assert 153 * mp <= 5 * doy + 2 < 153 * mp + 153;
  }

  lemma DayOfMonth(m: int, d: int)
    requires 1 <= m <= 12 && 1 <= d <= 31 && (m in {4, 6, 9, 11} ==> d <= 30) && (m == 2 ==> d <= 29)
    ensures var doy := (153 * FromMarch(m) + 2) / 5 + d - 1;
            && 0 <= doy <= 365 && (doy == 365 <==> m == 2 && d == 29)
            && (5 * doy + 2) / 153 == FromMarch(m)
  {
    var mp := FromMarch(m);
    var doy := (153 * mp + 2) / 5 + d - 1;
    assert 153 * mp <= 5 * doy + 2 < 153 * mp + 153;
  }

  lemma CModZero(a: int)
    ensures CMod(a, 4) == 0 <==> a % 4 == 0
    ensures CMod(a, 100) == 0 <==> a % 100 == 0
    ensures CMod(a, 400) == 0 <==> a % 400 == 0
  {
    if a < 0 {
      NegatedRemainder(a, (-a) / 4, (-a) % 4, 4);
      NegatedRemainder(a, (-a) / 100, (-a) % 100, 100);
      NegatedRemainder(a, (-a) / 400, (-a) % 400, 400);
    }
  }

  lemma NegatedRemainder(a: int, q: int, r: int, b: int)
    requires b in {4, 100, 400} && -a == q * b + r && 0 <= r < b
    ensures a % b == 0 <==> r == 0
  {
    if r == 0 {
      DivModUnique(a, b, -q, 0);
    } else {
      DivModUnique(a, b, -q - 1, b - r);
    }
  }

  lemma ShiftedEra(x: int, era: int)
    ensures (x + 400 * era) % 4 == x % 4 && (x + 400 * era) % 100 == x % 100 && (x + 400 * era) % 400 == x % 400
  {
    Shifted(x, 100 * era, 4);
    Shifted(x, 4 * era, 100);
    Shifted(x, era, 400);
  }

  lemma Shifted(x: int, k: int, b: int)
    requires b in {4, 100, 400}
    ensures (x + b * k) % b == x % b
  {
    DivModUnique(x + b * k, b, x / b + k, x % b);
  }

  /** The leap day of an era year is the 29 February of the following civil year. */
  lemma LeapOfEra(era: int, yoe: int)
    ensures IsLeapYear(yoe + 400 * era + 1) <==> YearLength(yoe) == 366
  {
    hide CMod;
    CModZero(yoe + 400 * era + 1);
    ShiftedEra(yoe + 1, era);
    assert yoe + 1 + 400 * era == yoe + 400 * era + 1;
  }

  lemma EraFloor(time: int)
    ensures Era(time) == time / 146097
  {
  }

  lemma EraOfYearFloor(y: int)
    ensures EraOfYear(y) == y / 400
  {
  }

  // ------------------------------------------------------------ main results

  lemma YearLengthRange(yoe: int)
    ensures 365 <= YearLength(yoe) <= 366
  {
  }

  /** Day of the year that starts in March. */
  function DayOfYear(c: Date): int { (153 * FromMarch(c.month) + 2) / 5 + c.day - 1 }

  /** The civil year in which that year starts. */
  function MarchYear(c: Date): int { c.year - (if c.month <= 2 then 1 else 0) }

  lemma DaysParts(c: Date)
    ensures var y := MarchYear(c);
            DaysFromCivil(c) == y / 400 * 146097 + YearStart(y % 400) + DayOfYear(c) - 719468
  {
    hide EraOfYear;
    EraOfYearFloor(MarchYear(c));
  }

  lemma DayInYear(c: Date)
    requires ValidDate(c)
    ensures 0 <= DayOfYear(c) < YearLength(MarchYear(c) % 400)
    ensures (5 * DayOfYear(c) + 2) / 153 == FromMarch(c.month)
  {
    hide CMod, CDiv, YearLength, IsLeapYear;
    DayOfMonth(c.month, c.day);
    var y := MarchYear(c);
    LeapOfEra(y / 400, y % 400);
    YearLengthRange(y % 400);
  }

  /** Every day number is a valid date, and converts back to itself. */
  lemma CivilRoundTrip(n: int)
    ensures ValidDate(CivilFromDays(n))
    ensures DaysFromCivil(CivilFromDays(n)) == n
  {
    hide CMod, CDiv, Era, YearOfEra, YearStart, YearLength, IsLeapYear, DaysFromCivil;
    var time := n + 719468;
    EraFloor(time);
    var (era, doe) := (time / 146097, time % 146097);
    assert doe == time - Era(time) * 146097;
    YearOfEraCorrect(doe);
    var yoe := YearOfEra(doe);
    YearLengthRange(yoe);
    MonthOfDay(doe - YearStart(yoe));
    LeapOfEra(era, yoe);
    DaysParts(CivilFromDays(n));
    DivModUnique(yoe + 400 * era, 400, era, yoe);
  }

  /** Every valid date converts to a day number and back to itself. */
  lemma DaysRoundTrip(c: Date)
    requires ValidDate(c)
    ensures CivilFromDays(DaysFromCivil(c)) == c
  {
    hide CMod, CDiv, YearOfEra, YearStart, YearLength, IsLeapYear, DaysFromCivil, CivilFromDays, DayOfYear;
    var y := MarchYear(c);
    DaysParts(c);
    DayInYear(c);
    YearOfEraUnique(y % 400, DayOfYear(c));
    CivilOf(c, y / 400, y % 400, DayOfYear(c));
  }

  /** The date found for day doy of year yoe of an era. */
  lemma CivilOf(c: Date, era: int, yoe: int, doy: int)
    requires MarchYear(c) == era * 400 + yoe && doy == DayOfYear(c) && 1 <= c.month <= 12
    requires 0 <= YearStart(yoe) + doy < 146097 && YearOfEra(YearStart(yoe) + doy) == yoe
    requires (5 * doy + 2) / 153 == FromMarch(c.month)
    ensures CivilFromDays(era * 146097 + YearStart(yoe) + doy - 719468) == c
  {
    hide Era, YearOfEra, YearStart;
    var doe := YearStart(yoe) + doy;
    EraFloor(era * 146097 + doe);
    DivModUnique(era * 146097 + doe, 146097, era, doe);
  }

  /** Successive dates have successive day numbers. */
  lemma NextDayNumber(c: Date)
    requires ValidDate(c)
    ensures ValidDate(NextDay(c))
    ensures DaysFromCivil(NextDay(c)) == DaysFromCivil(c) + 1
  {
    hide CMod, CDiv, YearLength, IsLeapYear, DaysFromCivil, YearStart;
    DaysParts(c);
    DaysParts(NextDay(c));
    if c.month == 2 && c.day == DaysInMonth(c.year, 2) {
      var y := MarchYear(c);
      LeapOfEra(y / 400, y % 400);
      YearLengthRange(y % 400);
      MarchFirst(y);
    }
  }

  /** From the last day of February to the first of March the era year changes. */
  lemma MarchFirst(y: int)
    ensures y / 400 * 146097 + YearStart(y % 400) + YearLength(y % 400)
            == (y + 1) / 400 * 146097 + YearStart((y + 1) % 400)
  {
    hide YearStart, YearLength;
    var (era, yoe) := (y / 400, y % 400);
    if yoe < 399 {
      assert (y + 1) / 400 == era && (y + 1) % 400 == yoe + 1;
      YearStartStep(yoe);
    } else {
      assert (y + 1) / 400 == era + 1 && (y + 1) % 400 == 0;
      LastYear();
    }
  }

  lemma LastYear()
    ensures YearStart(399) + YearLength(399) == 146097 && YearStart(0) == 0
  {
  }

  /** The calendar theorem: day 0 is 1 January 1970, and each next number is the next Gregorian day. */
  lemma CivilStep(n: int)
    ensures CivilFromDays(n + 1) == NextDay(CivilFromDays(n))
    ensures CivilFromDays(0) == Date(1970, 1, 1)
  {
    hide CivilFromDays, DaysFromCivil, NextDay, ValidDate;
    CivilRoundTrip(n);
    NextDayNumber(CivilFromDays(n));
    DaysRoundTrip(NextDay(CivilFromDays(n)));
    Epoch();
  }

  /** Days that tell the Gregorian calendar from others. */
  lemma KnownDays()
    ensures DaysFromCivil(Date(2000, 1, 1)) == 10957 && DaysFromCivil(Date(1900, 1, 1)) == -25567
  {
    hide ValidDate, CivilFromDays, DaysFromCivil;
    DaysParts(Date(2000, 1, 1));
    DaysParts(Date(1900, 1, 1));
  }

  lemma KnownLeapDays()
    ensures ValidDate(Date(2000, 2, 29)) && !ValidDate(Date(1900, 2, 29)) && ValidDate(Date(1996, 2, 29))
  {
    hide DaysFromCivil, CivilFromDays;
  }

  lemma Epoch()
    ensures CivilFromDays(0) == Date(1970, 1, 1)
  {
  }

  // ---------------------------------------------------------------- weekdays

  function WeekdayFromDays(days: int): int {
    if days >= -4 then CMod(days + 4, 7) else CMod(days + 5, 7) + 6
  }

  /** Days since Sunday for every day number, negative ones included; day 0 was a Thursday. */
  lemma WeekdayMeaning(n: int)
    ensures WeekdayFromDays(n) == (n + 4) % 7
    ensures WeekdayFromDays(n + 1) == (WeekdayFromDays(n) + 1) % 7
  {
    WeekdayIs(n);
    WeekdayIs(n + 1);
  }

  lemma WeekdayIs(n: int)
    ensures WeekdayFromDays(n) == (n + 4) % 7
  {
    if n < -5 {
      var (q, r) := (-(n + 5) / 7, -(n + 5) % 7);
      DivModUnique(n + 4, 7, -q - 1, 6 - r);
    }
  }

  // -------------------------------------------------------------- day of year

  /** yearday_from_date, in unsigned 32-bit arithmetic; the result counts from 1. */
  function YeardayFromDate(year: int, month: int, day: int): int {
    var y := year % U32;
    var n1 := 275 * month / 9;
    var n2 := (month + 9) / 12;
    var n3 := (1 + (y - 4 * y % U32 / 4 + 2) % U32 / 3) % U32;
    (n1 - n2 * n3 + day - 30) % U32
  }

  /** Days since 1 January of the same year. */
  function Ordinal(d: Date): int { DaysFromCivil(d) - DaysFromCivil(Date(d.year, 1, 1)) }

  lemma OrdinalIs(d: Date)
    requires ValidDate(d)
    ensures Ordinal(d) == if d.month <= 2 then 31 * (d.month - 1) + d.day - 1
                          else (153 * (d.month - 3) + 2) / 5 + d.day + (if IsLeapYear(d.year) then 59 else 58)
    ensures 0 <= Ordinal(d) <= 365
  {
    hide CMod, CDiv, YearLength, IsLeapYear, DaysFromCivil, YearStart;
    DaysParts(d);
    DaysParts(Date(d.year, 1, 1));
    if d.month > 2 {
      var y := d.year - 1;
      MarchFirst(y);
      LeapOfEra(y / 400, y % 400);
      YearLengthRange(y % 400);
    }
    MonthBounds(d);
  }

  lemma MonthBounds(d: Date)
    requires ValidDate(d)
    ensures d.month > 2 ==> 0 <= (153 * (d.month - 3) + 2) / 5 + d.day - 1 <= 305
  {
    hide IsLeapYear;
  }

  /** The n3 term never sees whether the year is a leap year. */
  lemma LeapTerm(year: int)
    requires -0x4000_0000 <= year < 0x4000_0000
    ensures var y := year % U32;
            (1 + (y - 4 * y % U32 / 4 + 2) % U32 / 3) % U32 == if year >= 0 then 1 else 0x4000_0001
  {
    var y := year % U32;
    if year >= 0 {
      assert y == year && 4 * y % U32 == 4 * y;
    } else {
      assert y == year + U32;
      DivModUnique(4 * y, U32, 3, 4 * year + U32);
    }
  }

  /** How far tm_yday is off. */
  function YeardayError(d: Date): int {
    if d.month <= 2 then 0
    else (if IsLeapYear(d.year) then 0 else 1) - (if d.year < 0 then 0x4000_0000 else 0)
  }

  /** tm_yday, an int, is the day of the year plus this error; it is right exactly in January and February and in leap
      years from year 0 on. */
  lemma YeardayExact(d: Date)
    requires ValidDate(d) && -0x4000_0000 <= d.year < 0x4000_0000
    ensures Narrow(YeardayFromDate(d.year, d.month, d.day) - 1) == Ordinal(d) + YeardayError(d)
    ensures YeardayError(d) == 0 <==> d.month <= 2 || (d.year >= 0 && IsLeapYear(d.year))
  {
    hide Ordinal, IsLeapYear, YeardayFromDate, Narrow;
    OrdinalIs(d);
    YeardayIs(d.year, d.month, d.day);
    MonthBounds(d);
    NarrowIs(YeardayFromDate(d.year, d.month, d.day) - 1);
  }

  lemma NarrowIs(i: int)
    requires -0x8000_0000 <= i < U32
    ensures Narrow(i) == if i < 0x8000_0000 then i else i - U32
  {
  }

  lemma YeardayIs(year: int, month: int, day: int)
    requires -0x4000_0000 <= year < 0x4000_0000 && 1 <= month <= 12 && 1 <= day <= 31
    ensures YeardayFromDate(year, month, day) ==
            if month <= 2 then 31 * (month - 1) + day
            else if year >= 0 then (153 * (month - 3) + 2) / 5 + day + 60
            else (153 * (month - 3) + 2) / 5 + day + 60 - 0x4000_0000 + U32
  {
    LeapTerm(year);
    YearlyTerm(month);
  }

  lemma YearlyTerm(month: int)
    requires 1 <= month <= 12
    ensures month <= 2 ==> 275 * month / 9 == 31 * month - 1
    ensures month > 2 ==> 275 * month / 9 == (153 * (month - 3) + 2) / 5 + 91
    ensures (month + 9) / 12 == if month <= 2 then 0 else 1
  {
  }

  /** The case of an ordinary year: 1 March 1971 is reported one day late. */
  lemma YeardayWrong()
    ensures Ordinal(Date(1971, 3, 1)) == 59 && YeardayFromDate(1971, 3, 1) - 1 == 60
  {
    OrdinalIs(Date(1971, 3, 1));
    YeardayIs(1971, 3, 1);
  }

  // -------------------------------------------------------- broken-down time

  datatype Tm = Tm(sec: int, min: int, hour: int, mday: int, mon: int, year: int, wday: int, yday: int)

  /** The day number in gmtime_r, an int. */
  function DayOf(t: int): int { Narrow(CDiv(t, 60 * 60 * 24)) }

  function Gmtime(t: int): Tm {
    var days := DayOf(t);
    var c := CivilFromDays(days);
    Tm(CMod(t, 60), CMod(CDiv(t, 60), 60), CMod(CDiv(t, 60 * 60), 24),
       c.day, c.month - 1, c.year - 1900,
       WeekdayFromDays(days), Narrow(YeardayFromDate(c.year, c.month, c.day) - 1))
  }

  function Timegm(tm: Tm): int {
    var days := DaysFromCivil(Date(tm.year + 1900, tm.mon + 1, tm.mday));
    days * 86400 + tm.hour * 60 * 60 + tm.min * 60 + tm.sec
  }

  /** Truncating division splits a time into days, hours, minutes and seconds that add up again. */
  lemma SecondsAddUp(t: int)
    ensures CDiv(t, 86400) * 86400 + CMod(CDiv(t, 3600), 24) * 3600 + CMod(CDiv(t, 60), 60) * 60 + CMod(t, 60) == t
  {
    if t >= 0 { NaturalSeconds(t); } else { NaturalSeconds(-t); }
  }

  lemma NaturalSeconds(t: nat)
    ensures t / 86400 == t / 3600 / 24 && t / 3600 == t / 60 / 60
    ensures t / 86400 * 86400 + t / 3600 % 24 * 3600 + t / 60 % 60 * 60 + t % 60 == t
  {
    var (m, s) := (t / 60, t % 60);
    var (h, n) := (m / 60, m % 60);
    var (d, g) := (h / 24, h % 24);
    DivModUnique(t, 3600, h, n * 60 + s);
    DivModUnique(t, 86400, d, g * 3600 + n * 60 + s);
  }

  /** What comes back from timegm: the time of day is kept, the day is the narrowed one. */
  lemma TripValue(t: int)
    ensures Timegm(Gmtime(t)) == t + (DayOf(t) - CDiv(t, 86400)) * 86400
  {
    hide CDiv, CMod, CivilFromDays, DaysFromCivil, WeekdayFromDays, YeardayFromDate, DayOf;
    var c := CivilFromDays(DayOf(t));
    CivilRoundTrip(DayOf(t));
    assert Date(c.year - 1900 + 1900, c.month - 1 + 1, c.day) == c;
    SecondsAddUp(t);
  }

  /** timegm undoes gmtime_r exactly for the times whose day number is an int, before the epoch too. */
  lemma TimegmGmtime(t: int)
    ensures Timegm(Gmtime(t)) == t <==> FitsInt(CDiv(t, 86400))
  {
    hide CDiv, Gmtime, Timegm;
    TripValue(t);
  }

  /** At the first day number that is not an int, the result is the earliest day. */
  lemma DayNarrowed()
    ensures Timegm(Gmtime(0x8000_0000 * 86400)) == -0x8000_0000 * 86400
  {
    hide Gmtime, Timegm;
    TripValue(0x8000_0000 * 86400);
    assert DayOf(0x8000_0000 * 86400) == -0x8000_0000;
  }

  /** Hours, minutes and seconds are in range up to sign, carry the sign of the time, and add up with the days. */
  lemma GmtimeFields(t: int)
    ensures var tm := Gmtime(t);
            && CDiv(t, 86400) * 86400 + tm.hour * 3600 + tm.min * 60 + tm.sec == t
            && -24 < tm.hour < 24 && -60 < tm.min < 60 && -60 < tm.sec < 60
            && (t >= 0 ==> tm.hour >= 0 && tm.min >= 0 && tm.sec >= 0)
            && (t <= 0 ==> tm.hour <= 0 && tm.min <= 0 && tm.sec <= 0)
  {
    hide CivilFromDays, DaysFromCivil, WeekdayFromDays, YeardayFromDate, DayOf, CMod, CDiv;
    SecondsAddUp(t);
    RemainderRange(t, 60);
    RemainderRange(CDiv(t, 60), 60);
    RemainderRange(CDiv(t, 3600), 24);
    QuotientSign(t, 60);
    QuotientSign(t, 3600);
  }

  lemma RemainderRange(a: int, b: nat)
    requires b > 0
    ensures -(b as int) < CMod(a, b) < b && (a >= 0 ==> CMod(a, b) >= 0) && (a <= 0 ==> CMod(a, b) <= 0)
  {
    if a >= 0 { DivModSplit(a, b); } else { DivModSplit(-a, b); }
  }

  lemma QuotientSign(a: int, b: nat)
    requires b > 0
    ensures (a >= 0 ==> CDiv(a, b) >= 0) && (a <= 0 ==> CDiv(a, b) <= 0)
  {
  }

  /** timegm does not look at the day of the week or of the year. */
  lemma TimegmIgnores(t: int, w: int, d: int)
    ensures FitsInt(CDiv(t, 86400)) ==> Timegm(Gmtime(t).(wday := w, yday := d)) == t
  {
    hide CDiv, CMod, CivilFromDays, DaysFromCivil, WeekdayFromDays, YeardayFromDate, DayOf;
    TimegmGmtime(t);
  }

  /** One more second, minute or hour is 1, 60 or 3600 seconds, in range or not. */
  lemma TimegmSteps(tm: Tm)
    ensures Timegm(tm.(sec := tm.sec + 1)) == Timegm(tm) + 1
    ensures Timegm(tm.(min := tm.min + 1)) == Timegm(tm) + 60
    ensures Timegm(tm.(hour := tm.hour + 1)) == Timegm(tm) + 3600
  {
    hide DaysFromCivil;
  }

  function WithDate(tm: Tm, c: Date): Tm { tm.(year := c.year - 1900, mon := c.month - 1, mday := c.day) }

  /** The next day is 86400 seconds later, whatever else the fields hold; midnight of 1 January 1970 is 0. */
  lemma TimegmNextDay(tm: Tm, c: Date)
    requires ValidDate(c)
    ensures Timegm(WithDate(tm, NextDay(c))) == Timegm(WithDate(tm, c)) + 86400
    ensures Timegm(WithDate(tm, Date(1970, 1, 1))) == tm.hour * 3600 + tm.min * 60 + tm.sec
  {
    hide DaysFromCivil, ValidDate, NextDay, CivilFromDays;
    NextDayNumber(c);
    Epoch();
    CivilRoundTrip(0);
  }

  predicate NormalTime(tm: Tm) { 0 <= tm.sec < 60 && 0 <= tm.min < 60 && 0 <= tm.hour < 24 }

  predicate SameDate(tm: Tm, c: Date) { tm.year == c.year - 1900 && tm.mon == c.month - 1 && tm.mday == c.day }

  /** gmtime_r gives a time of day in range exactly for times that are not negative or fall on midnight, and names
      the right day exactly for those of them whose day number is an int. */
  lemma GmtimeExact(t: int)
    ensures NormalTime(Gmtime(t)) <==> t >= 0 || t % 86400 == 0
    ensures SameDate(Gmtime(t), CivilFromDays(t / 86400)) <==>
            (t >= 0 || t % 86400 == 0) && FitsInt(CDiv(t, 86400))
    ensures FitsInt(CDiv(t, 86400)) ==>
              (Gmtime(t).wday == (t / 86400 + 4) % 7 <==> t >= 0 || t % 86400 == 0)
  {
    hide CivilFromDays, WeekdayFromDays, YeardayFromDate, CDiv, CMod, DayOf;
    WeekdayMeaning(DayOf(t));
    WeekdayRight(t);
    NarrowedDay(t);
    CivilInjective(DayOf(t), t / 86400);
    TimeOfDay(t);
  }

  lemma WeekdayRight(t: int)
    ensures FitsInt(CDiv(t, 86400)) ==>
              ((DayOf(t) + 4) % 7 == (t / 86400 + 4) % 7 <==> t >= 0 || t % 86400 == 0)
  {
    hide CDiv;
    TruncatedDay(t);
  }

  lemma NarrowedDay(t: int)
    ensures DayOf(t) == t / 86400 <==> (t >= 0 || t % 86400 == 0) && FitsInt(CDiv(t, 86400))
  {
    var (n, d) := (CDiv(t, 86400), t / 86400);
    TruncatedDay(t);
    hide CDiv;
    var k := (n + 0x8000_0000) / U32;
    assert Narrow(n) == n - k * U32;
  }

  /** One second before the epoch is reported as second -1 of 1 January 1970. */
  lemma BeforeEpoch()
    ensures Gmtime(-1).sec == -1 && SameDate(Gmtime(-1), Date(1970, 1, 1)) && CivilFromDays(-1) == Date(1969, 12, 31)
  {
    hide CivilFromDays, WeekdayFromDays, YeardayFromDate;
    Epoch();
    LastEve();
    assert CDiv(-1, 86400) == 0 && CDiv(-1, 60) == 0;
  }

  lemma LastEve()
    ensures CivilFromDays(-1) == Date(1969, 12, 31)
  {
    hide CivilFromDays, DaysFromCivil, IsLeapYear;
    Epoch();
    CivilRoundTrip(0);
    NextDayNumber(Date(1969, 12, 31));
    DaysRoundTrip(Date(1969, 12, 31));
  }

  /** tm_yday of gmtime_r is the day of the year of the date it reports, under the same condition. */
  lemma GmtimeYearday(t: int)
    ensures var c := CivilFromDays(DayOf(t));
            && Gmtime(t).yday == Ordinal(c) + YeardayError(c)
            && (Gmtime(t).yday == Ordinal(c) <==> c.month <= 2 || (c.year >= 0 && IsLeapYear(c.year)))
  {
    hide CivilFromDays, CDiv, CMod, Ordinal, IsLeapYear, YeardayFromDate, ValidDate, DayOf, YeardayError;
    CivilRoundTrip(DayOf(t));
    DayFits(t);
    YearBounded(DayOf(t));
    YeardayExact(CivilFromDays(DayOf(t)));
  }

  lemma DayFits(t: int)
    ensures FitsInt(DayOf(t))
  {
    hide CDiv;
  }

  lemma TruncatedDay(t: int)
    ensures CDiv(t, 86400) == t / 86400 + (if t >= 0 || t % 86400 == 0 then 0 else 1)
  {
    if t < 0 {
      var (q, r) := (-t / 86400, -t % 86400);
      if r == 0 { DivModUnique(t, 86400, -q, 0); } else { DivModUnique(t, 86400, -q - 1, 86400 - r); }
    }
  }

  lemma TimeOfDay(t: int)
    ensures 0 <= CMod(t, 60) < 60 && 0 <= CMod(CDiv(t, 60), 60) < 60 && 0 <= CMod(CDiv(t, 3600), 24) < 24
            <==> t >= 0 || t % 86400 == 0
  {
    hide CivilFromDays;
    if t >= 0 { NaturalSeconds(t); } else {
      NaturalSeconds(-t);
      var (q, r) := (-t / 86400, -t % 86400);
      if r == 0 { DivModUnique(t, 86400, -q, 0); } else { DivModUnique(t, 86400, -q - 1, 86400 - r); }
    }
  }

  lemma CivilInjective(a: int, b: int)
    ensures CivilFromDays(a) == CivilFromDays(b) <==> a == b
  {
    hide CivilFromDays, DaysFromCivil, ValidDate;
    CivilRoundTrip(a);
    CivilRoundTrip(b);
  }

  // --------------------------------------------------------- machine integers

  /** Every int-valued intermediate of civil_from_days is representable. */
  predicate CivilFitsInt(days: int) {
    var time := days + 719468;
    var era := Era(time);
    var y := YearOfEra(time - era * 146097) + era * 400;
    FitsInt(era) && FitsInt(era * 146097) && FitsInt(era * 400) && FitsInt(y) && FitsInt(CivilFromDays(days).year)
  }

  /** Every int-valued intermediate of days_from_civil is representable. */
  predicate DaysFitsInt(c: Date) {
    var y := c.year - (if c.month <= 2 then 1 else 0);
    var era := EraOfYear(y);
    var doe := YearStart(y - era * 400) + DayOfYear(c);
    FitsInt(y) && FitsInt(y - 399) && FitsInt(era * 400) && FitsInt(era * 146097)
    && FitsInt(era * 146097 + doe) && FitsInt(era * 146097 + doe - 719468)
  }

  /** civil_from_days does not overflow exactly below the last partial era of the int range. */
  lemma CivilWidth(n: int)
    requires FitsInt(n)
    ensures CivilFitsInt(n) <==> n < 2146906432
  {
    hide CDiv, Era, YearOfEra, YearStart, YearLength, CivilFromDays;
    var time := n + 719468;
    EraFloor(time);
    var era := time / 146097;
    assert -14695 <= era <= 14704;
    assert time - Era(time) * 146097 == time % 146097;
    YearOfEraCorrect(time % 146097);
    YearNear(n);
    assert FitsInt(era * 146097) <==> era < 14700;
    assert era < 14700 <==> n < 2146906432;
  }

  /** The year of an int day number is far from the limits of int. */
  lemma YearBounded(n: int)
    requires FitsInt(n)
    ensures -0x0060_0000 <= CivilFromDays(n).year <= 0x0060_0000
  {
    hide CDiv, Era, YearOfEra, YearStart, YearLength, CivilFromDays;
    var time := n + 719468;
    EraFloor(time);
    YearNear(n);
    var era := time / 146097;
    assert -14695 <= era <= 14704;
    assert time - Era(time) * 146097 == time % 146097;
    YearOfEraCorrect(time % 146097);
  }

  lemma YearNear(n: int)
    ensures var time := n + 719468; var y := YearOfEra(time - Era(time) * 146097) + Era(time) * 400;
            CivilFromDays(n).year - 1 <= y <= CivilFromDays(n).year
  {
    hide Era, YearOfEra;
  }

  /** On the way back the epoch shift is subtracted last, so the sum before it must fit as well. */
  lemma DaysWidth(n: int)
    requires FitsInt(n)
    ensures DaysFitsInt(CivilFromDays(n)) <==> n <= 0x7fff_ffff - 719468
  {
    hide CDiv, YearStart, YearLength, CivilFromDays, DayOfYear, DaysFromCivil, IsLeapYear, EraOfYear;
    var c := CivilFromDays(n);
    CivilRoundTrip(n);
    DaysParts(c);
    DayInYear(c);
    YearLengthRange(MarchYear(c) % 400);
    EraOfYearFloor(MarchYear(c));
    YearStartRange(MarchYear(c) % 400);
    var (era, yoe) := (MarchYear(c) / 400, MarchYear(c) % 400);
    assert MarchYear(c) == era * 400 + yoe;
    assert n == era * 146097 + YearStart(yoe) + DayOfYear(c) - 719468;
  }

  lemma YearStartRange(yoe: int)
    requires 0 <= yoe <= 399
    ensures 0 <= YearStart(yoe) <= 145731
  {
  }

  /** gmtime_r meets only values that fit their types. */
  predicate GmtimeFits(t: int) { FitsInt(CDiv(t, 86400)) && CivilFitsInt(DayOf(t)) }

  /** In machine integers: nothing narrows and nothing overflows in gmtime_r exactly for these day numbers, and for
      them it names the right day with the right time exactly for times that are not negative or fall on midnight. */
  lemma GmtimeWidth(t: int)
    ensures GmtimeFits(t) <==> -0x8000_0000 <= CDiv(t, 86400) < 2146906432
    ensures GmtimeFits(t) ==>
              (NormalTime(Gmtime(t)) && SameDate(Gmtime(t), CivilFromDays(t / 86400)) <==> t >= 0 || t % 86400 == 0)
  {
    hide CDiv, CivilFitsInt, CivilFromDays, Gmtime, NormalTime, SameDate;
    CivilWidth(DayOf(t));
    GmtimeExact(t);
  }

  /** gmtime_r and then timegm meet only values that fit their types. */
  predicate TripFits(t: int) { GmtimeFits(t) && DaysFitsInt(CivilFromDays(DayOf(t))) }

  /** In machine integers: nothing narrows and nothing overflows on the way exactly for these day numbers, and for
      them the way back gives the time. */
  lemma RoundTripWidth(t: int)
    ensures TripFits(t) <==> -0x8000_0000 <= CDiv(t, 86400) <= 0x7fff_ffff - 719468
    ensures TripFits(t) ==> Timegm(Gmtime(t)) == t
  {
    hide CDiv, CivilFitsInt, DaysFitsInt, CivilFromDays, Gmtime, Timegm;
    CivilWidth(DayOf(t));
    DaysWidth(DayOf(t));
    TimegmGmtime(t);
  }
}
