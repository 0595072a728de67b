/**
 The civil-calendar arithmetic of the historical export: `DaysFromCivil` is the conversion the
 timestamp parser uses, `CivilFromDays` the different closed form the timestamp printer uses.
 They are proved inverse to each other on every integer year, and equal to a calendar that is
 walked one day at a time.
 */
module Calendar {

  datatype Date = Date(year: int, month: int, day: int)

  /** Division as Rust performs it on signed integers: the quotient is rounded toward zero. */
  function TruncDiv(a: int, b: int): int
    requires b > 0
  {
    if a >= 0 then a / b else -((-a) / b)
  }

  // Only tests of a remainder against zero occur, and those agree for every rounding of `/`.
  predicate IsLeap(year: int) {
    year % 4 == 0 && (year % 100 != 0 || year % 400 == 0)
  }

  function DaysInMonth(year: int, month: int): (days: int)
    ensures 1 <= month <= 12 <==> days > 0
    ensures days <= 31
  {
    if month in {1, 3, 5, 7, 8, 10, 12} then 31
    else if month in {4, 6, 9, 11} then 30
    else if month == 2 && IsLeap(year) then 29
    else if month == 2 then 28
    else 0
  }

  predicate Valid(d: Date) {
    1 <= d.month <= 12 && 1 <= d.day <= DaysInMonth(d.year, d.month)
  }

  function DaysFromCivil(d: Date): int {
    var adjustedYear := d.year - if d.month <= 2 then 1 else 0;
    var era := TruncDiv(if adjustedYear >= 0 then adjustedYear else adjustedYear - 399, 400);
    var yearOfEra := adjustedYear - era * 400;
    var adjustedMonth := d.month + if d.month > 2 then -3 else 9;
    var dayOfYear := TruncDiv(153 * adjustedMonth + 2, 5) + d.day - 1;
    var dayOfEra := yearOfEra * 365 + TruncDiv(yearOfEra, 4) - TruncDiv(yearOfEra, 100) + dayOfYear;
    era * 146097 + dayOfEra - 719468
  }

  function CivilFromDays(days: int): Date {
    var shiftedDays := days + 719468;
    var era := shiftedDays / 146097;
    CivilOfEra(era, shiftedDays - era * 146097)
  }

  function CivilOfEra(era: int, dayOfEra: int): Date {
    var yearOfEra := YearOfEra(dayOfEra);
    CivilOfYear(era, yearOfEra, dayOfEra - DaysBeforeYearOfEra(yearOfEra))
  }

  function CivilOfYear(era: int, yearOfEra: int, dayOfYear: int): Date {
    var shiftedMonth := (5 * dayOfYear + 2) / 153;
    var day := dayOfYear - (153 * shiftedMonth + 2) / 5 + 1;
    var month := shiftedMonth + if shiftedMonth < 10 then 3 else -9;
    Date(yearOfEra + era * 400 + (if month <= 2 then 1 else 0), month, day)
  }

  function YearOfEra(dayOfEra: int): int {
    (dayOfEra - dayOfEra / 1460 + dayOfEra / 36524 - dayOfEra / 146096) / 365
  }

  function DaysBeforeYearOfEra(yearOfEra: int): int {
    365 * yearOfEra + yearOfEra / 4 - yearOfEra / 100
  }

  // --- Years inside an era of 400 years that start on the first of March. ---

  /** Last zero-based day of the given year of the era; the leap day is the last day of its year. */
  function LastDayOfYear(yearOfEra: int): int {
    if IsLeap(yearOfEra + 1) then 365 else 364
  }

  // The era splits into centuries, four-year cycles and years; the correction terms of the
  // closed form cancel in each of them.
  lemma YearOfEraInverts(c: int, q: int, r: int, dayOfYear: int)
    requires 0 <= c < 4 && 0 <= q < 25 && 0 <= r < 4
    requires 0 <= dayOfYear <= LastDayOfYear(100 * c + 4 * q + r)
    ensures YearOfEra(DaysBeforeYearOfEra(100 * c + 4 * q + r) + dayOfYear) == 100 * c + 4 * q + r
    ensures 0 <= DaysBeforeYearOfEra(100 * c + 4 * q + r) + dayOfYear < 146097
  {
    LeapInEra(c, q, r);
    Corrections(c, q, r, dayOfYear);
  }

  // The three correction terms at a day of a year; `carry` is the day that 1460 overlooks.
  lemma Corrections(c: int, q: int, r: int, dayOfYear: int)
    requires 0 <= c < 4 && 0 <= q < 25 && 0 <= r < 4 && 0 <= dayOfYear <= 365
    requires dayOfYear == 365 ==> r == 3 && (q < 24 || c == 3)
    ensures var y := 100 * c + 4 * q + r;
            YearOfEra(DaysBeforeYearOfEra(y) + dayOfYear) == y && 0 <= DaysBeforeYearOfEra(y) + dayOfYear < 146097
  {
    var y := 100 * c + 4 * q + r;
    var doe, rest := 36524 * c + 1461 * q + 365 * r + dayOfYear, 24 * c + q + 365 * r + dayOfYear;
    DaysBeforeYear(c, q, r);
    var carry, last := if rest >= 1460 then 1 else 0, if doe == 146096 then 1 else 0;
    assert doe == 1460 * (25 * c + q) + rest;
    assert doe / 1460 == 25 * c + q + carry;
    assert doe / 146096 == last;
    assert doe / 36524 == c + last;
    assert doe - doe / 1460 + doe / 36524 - doe / 146096 == 365 * y + (dayOfYear - carry);
  }

  lemma DaysBeforeYear(c: int, q: int, r: int)
    requires 0 <= c < 5 && 0 <= q < 25 && 0 <= r < 4
    ensures DaysBeforeYearOfEra(100 * c + 4 * q + r) == 36524 * c + 1461 * q + 365 * r
  {
    var y := 100 * c + 4 * q + r;
    assert y / 4 == 25 * c + q && y / 100 == c;
  }

  lemma LeapInEra(c: int, q: int, r: int)
    requires 0 <= c < 4 && 0 <= q < 25 && 0 <= r < 4
    ensures IsLeap(100 * c + 4 * q + r + 1) <==> r == 3 && (q < 24 || c == 3)
  {
    var y := 100 * c + 4 * q + r + 1;
    if r == 3 && q == 24 {
      assert y == 100 * (c + 1);
    } else {
      assert y == 100 * c + (4 * q + r + 1) && 0 < 4 * q + r + 1 < 100;
      assert y % 100 == 4 * q + r + 1;
    }
  }

  lemma YearOfEraRoundTrip(yearOfEra: int, dayOfYear: int)
    requires 0 <= yearOfEra < 400 && 0 <= dayOfYear <= LastDayOfYear(yearOfEra)
    ensures YearOfEra(DaysBeforeYearOfEra(yearOfEra) + dayOfYear) == yearOfEra
    ensures 0 <= DaysBeforeYearOfEra(yearOfEra) + dayOfYear < 146097
  {
    var c, q, r := yearOfEra / 100, yearOfEra % 100 / 4, yearOfEra % 4;
    assert yearOfEra == 100 * c + 4 * q + r;
    YearOfEraInverts(c, q, r, dayOfYear);
  }

  // Every day of the era lies in exactly one of its years.
  lemma DayOfEraSplits(dayOfEra: int) returns (yearOfEra: int, dayOfYear: int)
    requires 0 <= dayOfEra < 146097
    ensures 0 <= yearOfEra < 400 && 0 <= dayOfYear <= LastDayOfYear(yearOfEra)
    ensures dayOfEra == DaysBeforeYearOfEra(yearOfEra) + dayOfYear
  {
    var c := if dayOfEra == 146096 then 3 else dayOfEra / 36524;
    var inCentury := dayOfEra - 36524 * c;
    var q := inCentury / 1461;
    var inCycle := inCentury - 1461 * q;
    var r := if inCycle == 1460 then 3 else inCycle / 365;
    yearOfEra, dayOfYear := 100 * c + 4 * q + r, inCycle - 365 * r;
    DaysBeforeYear(c, q, r);
    LeapInEra(c, q, r);
  }

  // --- Months inside such a year: March is 0 and February is 11. ---

  function DaysBeforeMonth(shiftedMonth: int): int {
    (153 * shiftedMonth + 2) / 5
  }

  function ShiftedMonth(month: int): int {
    month + if month > 2 then -3 else 9
  }

  /** Length of the month `m` counted from March of the given March-based year. */
  function MonthLength(marchYear: int, m: int): int {
    DaysInMonth(marchYear + (if m >= 10 then 1 else 0), if m < 10 then m + 3 else m - 9)
  }

  function MarchYear(d: Date): int {
    d.year - if d.month <= 2 then 1 else 0
  }

  lemma LeapIsPeriodic(era: int, yearOfEra: int)
    ensures IsLeap(era * 400 + yearOfEra) <==> IsLeap(yearOfEra)
  {
    SameRemainder(4, 100 * era, yearOfEra);
    SameRemainder(100, 4 * era, yearOfEra);
    SameRemainder(400, era, yearOfEra);
  }

  lemma SameRemainder(divisor: int, multiple: int, rest: int)
    requires divisor in {4, 100, 400}
    ensures (divisor * multiple + rest) % divisor == rest % divisor
  {
    if divisor == 4 {
      assert (4 * multiple + rest) / 4 == multiple + rest / 4;
    } else if divisor == 100 {
      assert (100 * multiple + rest) / 100 == multiple + rest / 100;
    } else {
      assert (400 * multiple + rest) / 400 == multiple + rest / 400;
    }
  }

  // The 5/153 formula recovers the month from any day of it.
  lemma MonthInverts(m: int, day: int, yearOfEra: int)
    requires 0 <= m < 12
    requires 1 <= day <= MonthLength(yearOfEra, m)
    ensures (5 * (DaysBeforeMonth(m) + day - 1) + 2) / 153 == m
    ensures 0 <= DaysBeforeMonth(m) + day - 1 <= LastDayOfYear(yearOfEra)
  {
  }

  lemma MonthSplits(dayOfYear: int, yearOfEra: int)
    requires 0 <= dayOfYear <= LastDayOfYear(yearOfEra)
    ensures 0 <= (5 * dayOfYear + 2) / 153 < 12
    ensures DaysBeforeMonth((5 * dayOfYear + 2) / 153) <= dayOfYear
    ensures dayOfYear - DaysBeforeMonth((5 * dayOfYear + 2) / 153) + 1
            <= MonthLength(yearOfEra, (5 * dayOfYear + 2) / 153)
  {
  }

  // The era computed with truncating division is the floor of the year by 400.
  lemma EraIsFloor(adjustedYear: int)
    ensures TruncDiv(if adjustedYear >= 0 then adjustedYear else adjustedYear - 399, 400) == adjustedYear / 400
  {
  }

  lemma DaysFromCivilSplits(d: Date)
    requires 1 <= d.month <= 12
    ensures var y := MarchYear(d);
            DaysFromCivil(d) == y / 400 * 146097 + DaysBeforeYearOfEra(y % 400)
                                + DaysBeforeMonth(ShiftedMonth(d.month)) + d.day - 1 - 719468
  {
    EraIsFloor(MarchYear(d));
  }

  // --- The two conversions are mutual inverses. ---

  lemma DateRoundTrip(d: Date)
    requires Valid(d)
    ensures CivilFromDays(DaysFromCivil(d)) == d
  {
    var y, m := MarchYear(d), ShiftedMonth(d.month);
    var doy := DaysBeforeMonth(m) + d.day - 1;
    DaysFromCivilSplits(d);
    DateFromParts(d, y / 400, y % 400, doy);
    CivilFromParts(y / 400, y % 400, doy);
  }

  lemma DateFromParts(d: Date, era: int, yearOfEra: int, dayOfYear: int)
    requires Valid(d)
    requires MarchYear(d) == era * 400 + yearOfEra && 0 <= yearOfEra < 400
    requires dayOfYear == DaysBeforeMonth(ShiftedMonth(d.month)) + d.day - 1
    ensures 0 <= dayOfYear <= LastDayOfYear(yearOfEra)
    ensures d == CivilOfYear(era, yearOfEra, dayOfYear)
  {
    MonthLengthIsPeriodic(era, yearOfEra, ShiftedMonth(d.month));
    MonthInverts(ShiftedMonth(d.month), d.day, yearOfEra);
  }

  lemma MonthLengthIsPeriodic(era: int, yearOfEra: int, m: int)
    ensures MonthLength(era * 400 + yearOfEra, m) == MonthLength(yearOfEra, m)
  {
    LeapIsPeriodic(era, yearOfEra);
    LeapIsPeriodic(era, yearOfEra + 1);
  }

  lemma CivilFromEra(era: int, dayOfEra: int)
    requires 0 <= dayOfEra < 146097
    ensures CivilFromDays(era * 146097 + dayOfEra - 719468) == CivilOfEra(era, dayOfEra)
  {
    EraOfDay(era, dayOfEra);
  }

  lemma CivilOfEraParts(era: int, yearOfEra: int, dayOfYear: int)
    requires 0 <= yearOfEra < 400 && 0 <= dayOfYear <= LastDayOfYear(yearOfEra)
    ensures 0 <= DaysBeforeYearOfEra(yearOfEra) + dayOfYear < 146097
    ensures CivilOfEra(era, DaysBeforeYearOfEra(yearOfEra) + dayOfYear) == CivilOfYear(era, yearOfEra, dayOfYear)
  {
    YearOfEraRoundTrip(yearOfEra, dayOfYear);
  }

  // What the printer's formulas compute from a day number given by era, year of era and day of year.
  lemma CivilFromParts(era: int, yearOfEra: int, dayOfYear: int)
    requires 0 <= yearOfEra < 400 && 0 <= dayOfYear <= LastDayOfYear(yearOfEra)
    ensures CivilFromDays(era * 146097 + (DaysBeforeYearOfEra(yearOfEra) + dayOfYear) - 719468)
            == CivilOfYear(era, yearOfEra, dayOfYear)
  {
    CivilOfEraParts(era, yearOfEra, dayOfYear);
    CivilFromEra(era, DaysBeforeYearOfEra(yearOfEra) + dayOfYear);
  }

  lemma EraOfDay(era: int, dayOfEra: int)
    requires 0 <= dayOfEra < 146097
    ensures (era * 146097 + dayOfEra) / 146097 == era
  {
  }

  lemma DayRoundTrip(days: int)
    ensures Valid(CivilFromDays(days))
    ensures DaysFromCivil(CivilFromDays(days)) == days
  {
    var era := (days + 719468) / 146097;
    var yoe, doy := DayOfEraSplits((days + 719468) % 146097);
    CivilFromParts(era, yoe, doy);
    CivilOfYearIsValid(era, yoe, doy);
    DaysFromCivilSplits(CivilOfYear(era, yoe, doy));
  }

  lemma CivilOfYearIsValid(era: int, yearOfEra: int, dayOfYear: int)
    requires 0 <= yearOfEra < 400 && 0 <= dayOfYear <= LastDayOfYear(yearOfEra)
    ensures var d := CivilOfYear(era, yearOfEra, dayOfYear);
            Valid(d) && MarchYear(d) / 400 == era && MarchYear(d) % 400 == yearOfEra
            && DaysBeforeMonth(ShiftedMonth(d.month)) + d.day - 1 == dayOfYear
  {
    MonthSplits(dayOfYear, yearOfEra);
    MonthLengthIsPeriodic(era, yearOfEra, (5 * dayOfYear + 2) / 153);
    var d := CivilOfYear(era, yearOfEra, dayOfYear);
    assert MarchYear(d) == era * 400 + yearOfEra;
  }

  // --- Agreement with a calendar walked one day at a time. ---

  function NextDay(d: Date): Date {
    if d.day < DaysInMonth(d.year, d.month) then Date(d.year, d.month, d.day + 1)
    else if d.month < 12 then Date(d.year, d.month + 1, 1)
    else Date(d.year + 1, 1, 1)
  }

  lemma NextDayIsOneMore(d: Date)
    requires Valid(d)
    ensures Valid(NextDay(d))
    ensures DaysFromCivil(NextDay(d)) == DaysFromCivil(d) + 1
  {
    var n := NextDay(d);
    DaysFromCivilSplits(d);
    DaysFromCivilSplits(n);
    if d.day < DaysInMonth(d.year, d.month) {
      assert MarchYear(n) == MarchYear(d);
    } else if d.month == 2 {
      MarchAdvances(d);
    } else {
      MonthAdvances(d);
    }
  }

  // The last of February is the last day of its March-based year.
  lemma MarchAdvances(d: Date)
    requires Valid(d) && d.month == 2 && d.day == DaysInMonth(d.year, 2)
    ensures var y := MarchYear(d);
            (y + 1) / 400 * 146097 + DaysBeforeYearOfEra((y + 1) % 400)
            == y / 400 * 146097 + DaysBeforeYearOfEra(y % 400) + DaysBeforeMonth(11) + d.day
  {
    var y := MarchYear(d);
    YearAdvances(y);
    LeapIsPeriodic(y / 400, y % 400 + 1);
    assert y + 1 == y / 400 * 400 + (y % 400 + 1);
  }

  lemma MonthAdvances(d: Date)
    requires Valid(d) && d.day == DaysInMonth(d.year, d.month) && d.month != 2
    ensures MarchYear(NextDay(d)) == MarchYear(d) && NextDay(d).day == 1
    ensures DaysBeforeMonth(ShiftedMonth(NextDay(d).month)) == DaysBeforeMonth(ShiftedMonth(d.month)) + d.day
  {
  }

  // From the last day of February the era formula steps by the length of the year that ends.
  lemma YearAdvances(y: int)
    ensures (y + 1) / 400 * 146097 + DaysBeforeYearOfEra((y + 1) % 400)
            == y / 400 * 146097 + DaysBeforeYearOfEra(y % 400) + LastDayOfYear(y % 400) + 1
  {
    var yoe := y % 400;
    var c, q, r := yoe / 100, yoe % 100 / 4, yoe % 4;
    assert yoe == 100 * c + 4 * q + r;
    LeapInEra(c, q, r);
    DaysBeforeYear(c, q, r);
    if yoe == 399 {
      assert (y + 1) / 400 == y / 400 + 1 && (y + 1) % 400 == 0;
    } else {
      assert (y + 1) / 400 == y / 400 && (y + 1) % 400 == yoe + 1;
      if r < 3 {
        DaysBeforeYear(c, q, r + 1);
      } else if q < 24 {
        DaysBeforeYear(c, q + 1, 0);
      } else {
        DaysBeforeYear(c + 1, 0, 0);
      }
    }
  }

  /** The calendar walked forward from the Unix epoch. */
  function Walk(n: nat): Date {
    if n == 0 then Date(1970, 1, 1) else NextDay(Walk(n - 1))
  }

  lemma {:induction false} WalkIsCount(n: nat)
    ensures Valid(Walk(n)) && DaysFromCivil(Walk(n)) == n
  {
    if n > 0 {
      WalkIsCount(n - 1);
      OneDayOn(Walk(n - 1), n - 1);
    }
  }

  lemma OneDayOn(d: Date, days: int)
    requires Valid(d) && DaysFromCivil(d) == days
    ensures Valid(NextDay(d)) && DaysFromCivil(NextDay(d)) == days + 1
  {
    NextDayIsOneMore(d);
  }

  /** The day reached from `d` by walking `n` days forward, for dates before the epoch too. */
  function WalkFrom(d: Date, n: nat): Date {
    if n == 0 then d else NextDay(WalkFrom(d, n - 1))
  }

  lemma {:induction false} WalkFromIsCount(d: Date, n: nat)
    requires Valid(d)
    ensures Valid(WalkFrom(d, n)) && DaysFromCivil(WalkFrom(d, n)) == DaysFromCivil(d) + n
  {
    if n > 0 {
      WalkFromIsCount(d, n - 1);
      OneDayOn(WalkFrom(d, n - 1), DaysFromCivil(d) + n - 1);
    }
  }

  // --- Order. ---

  predicate Before(a: Date, b: Date) {
    a.year < b.year || (a.year == b.year && (a.month < b.month || (a.month == b.month && a.day < b.day)))
  }

  lemma NextDayIsLater(d: Date)
    requires Valid(d)
    ensures Before(d, NextDay(d))
  {
  }

  lemma {:induction false} WalkFromIsLater(d: Date, n: nat)
    requires Valid(d) && n > 0
    ensures Before(d, WalkFrom(d, n))
  {
    WalkFromIsValid(d, n - 1);
    if n > 1 {
      WalkFromIsLater(d, n - 1);
    }
    OneDayLater(d, WalkFrom(d, n - 1));
  }

  lemma WalkFromIsValid(d: Date, n: nat)
    requires Valid(d)
    ensures Valid(WalkFrom(d, n))
  {
    WalkFromIsCount(d, n);
  }

  lemma OneDayLater(d: Date, e: Date)
    requires Valid(e) && (d == e || Before(d, e))
    ensures Before(d, NextDay(e))
  {
    NextDayIsLater(e);
    if d != e {
      BeforeIsTransitive(d, e, NextDay(e));
    }
  }

  lemma BeforeIsTransitive(a: Date, b: Date, c: Date)
    requires Before(a, b) && Before(b, c)
    ensures Before(a, c)
  {
  }

  // Calendar order is day-number order, across months, leap years, centuries and eras.
  lemma OrderIsDayOrder(a: Date, b: Date)
    requires Valid(a) && Valid(b)
    ensures Before(a, b) <==> DaysFromCivil(a) < DaysFromCivil(b)
  {
    if DaysFromCivil(a) < DaysFromCivil(b) {
      WalkReaches(a, b);
    } else if DaysFromCivil(b) < DaysFromCivil(a) {
      WalkReaches(b, a);
    } else {
      SameDay(a, b);
    }
  }

  lemma WalkReaches(a: Date, b: Date)
    requires Valid(a) && Valid(b) && DaysFromCivil(a) < DaysFromCivil(b)
    ensures WalkFrom(a, DaysFromCivil(b) - DaysFromCivil(a)) == b
    ensures Before(a, b)
  {
    var n: nat := DaysFromCivil(b) - DaysFromCivil(a);
    WalkFromIsCount(a, n);
    SameDay(WalkFrom(a, n), b);
    WalkFromIsLater(a, n);
  }

  lemma SameDay(a: Date, b: Date)
    requires Valid(a) && Valid(b) && DaysFromCivil(a) == DaysFromCivil(b)
    ensures a == b
  {
    DateRoundTrip(a);
    DateRoundTrip(b);
  }
}
