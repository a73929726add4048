/** The proleptic Gregorian calendar behind `civil_from_days`: the 400-year-era
    day algorithm, the plain "next day" rule it must follow, and the usual
    days-from-civil formula as its inverse. */
module Calendar {

  datatype Date = Date(year: int, month: int, day: int)

  // ---------------------------------------------------------------- source

  /** Integer division as the source language does it: towards zero. */
  function TruncDiv(a: int, b: int): int
    requires b > 0
  {
    if a >= 0 then a / b else -((-a) / b)
  }

  /** The year within a 400-year era (years start in March) of a day of that era. */
  function YearOfEra(dayOfEra: int): int {
    TruncDiv(dayOfEra - TruncDiv(dayOfEra, 1460) + TruncDiv(dayOfEra, 36524) - TruncDiv(dayOfEra, 146096), 365)
  }

  /** The date of a day of a year that starts on 1 March. */
  function DateInYear(year: int, dayOfYear: int): Date {
    var monthPrime := TruncDiv(5 * dayOfYear + 2, 153);
    var day := dayOfYear - TruncDiv(153 * monthPrime + 2, 5) + 1;
    var month := monthPrime + (if monthPrime < 10 then 3 else -9);
    Date(year + (if month <= 2 then 1 else 0), month, day)
  }

  function Era(z: int): int {
    TruncDiv(if z >= 0 then z else z - 146096, 146097)
  }

  function DayOfYear(dayOfEra: int, yearOfEra: int): int {
    dayOfEra - (365 * yearOfEra + TruncDiv(yearOfEra, 4) - TruncDiv(yearOfEra, 100))
  }

  function CivilFromDays(daysSinceEpoch: int): Date {
    var z := daysSinceEpoch + 719468;
    var dayOfEra := z - Era(z) * 146097;
    var yearOfEra := YearOfEra(dayOfEra);
    DateInYear(yearOfEra + Era(z) * 400, DayOfYear(dayOfEra, yearOfEra))
  }

  // --------------------------------------------------------- specification

  predicate IsLeap(year: int) {
    year % 4 == 0 && (year % 100 != 0 || year % 400 == 0)
  }

  function DaysInMonth(year: int, month: int): int {
    if month == 2 then (if IsLeap(year) then 29 else 28)
    else if month in {4, 6, 9, 11} then 30
    else 31
  }

  predicate ValidDate(d: Date) {
    1 <= d.month <= 12 && 1 <= d.day <= DaysInMonth(d.year, d.month)
  }

  /** The day after `d`, by the rule on every wall calendar. */
  function NextDate(d: Date): Date {
    if d.day < DaysInMonth(d.year, d.month) then d.(day := d.day + 1)
    else if d.month < 12 then Date(d.year, d.month + 1, 1)
    else Date(d.year + 1, 1, 1)
  }

  /** The day before `d`. */
  function PreviousDate(d: Date): Date {
    if d.day > 1 then d.(day := d.day - 1)
    else if d.month > 1 then Date(d.year, d.month - 1, DaysInMonth(d.year, d.month - 1))
    else Date(d.year - 1, 12, 31)
  }

  /** The date reached by leafing through the calendar `days` days from 1970-01-01,
      forwards or backwards. */
  function DateAt(days: int): Date
    decreases if days >= 0 then days else -days
  {
    if days == 0 then Date(1970, 1, 1)
    else if days > 0 then NextDate(DateAt(days - 1))
    else PreviousDate(DateAt(days + 1))
  }

  predicate Earlier(a: Date, b: Date) {
    a.year < b.year || (a.year == b.year && (a.month < b.month || (a.month == b.month && a.day < b.day)))
  }

  /** Days before 1 March of `year`, counted from 1 March of year 0. */
  function DaysBeforeYear(year: int): int {
    365 * year + year / 4 - year / 100 + year / 400
  }

  /** The year, month and day of a date when years start on 1 March. */
  function MarchYear(d: Date): int {
    if d.month <= 2 then d.year - 1 else d.year
  }

  function MarchMonth(d: Date): int {
    if d.month <= 2 then d.month + 9 else d.month - 3
  }

  function MarchDay(d: Date): int {
    (153 * MarchMonth(d) + 2) / 5 + d.day - 1
  }

  /** The usual inverse formula, with floor division (`/` of Dafny on a positive divisor). */
  function DaysFromCivil(d: Date): int {
    DaysBeforeYear(MarchYear(d)) + MarchDay(d) - 719468
  }

  // ----------------------------------------------------------------- eras

  lemma FloorEra(z: int)
    ensures Era(z) == z / 146097
  {
  }

  /** `yearOfEra` is the year whose March-based span holds the day. */
  lemma YearOfEraSpan(dayOfEra: int)
    requires 0 <= dayOfEra < 146097
    ensures var y := YearOfEra(dayOfEra);
            && 0 <= y < 400
            && DaysBeforeYear(y) <= dayOfEra
            && (dayOfEra < DaysBeforeYear(y + 1))
  {
    var c := if dayOfEra == 146096 then 3 else dayOfEra / 36524;
    var r := dayOfEra - c * 36524;
    var q := r / 1461;
    var s := if r % 1461 == 1460 then 3 else (r % 1461) / 365;
    var y := 100 * c + 4 * q + s;
    YearOfEraValue(dayOfEra, c, q, s);
    YearStart(c, q, s);
    NextYearStart(c, q, s);
  }

  lemma YearOfEraValue(dayOfEra: int, c: int, q: int, s: int)
    requires 0 <= dayOfEra < 146097
    requires c == if dayOfEra == 146096 then 3 else dayOfEra / 36524
    requires q == (dayOfEra - c * 36524) / 1461
    requires var t := (dayOfEra - c * 36524) % 1461; s == if t == 1460 then 3 else t / 365
    ensures 0 <= c <= 3 && 0 <= q <= 24 && 0 <= s <= 3
    ensures YearOfEra(dayOfEra) == 100 * c + 4 * q + s
  {
  }

  lemma YearStart(c: int, q: int, s: int)
    requires 0 <= c <= 3 && 0 <= q <= 24 && 0 <= s <= 3
    ensures DaysBeforeYear(100 * c + 4 * q + s) == 36524 * c + 1461 * q + 365 * s
  {
    var y := 100 * c + 4 * q + s;
    assert y / 4 == 25 * c + q;
    assert y / 100 == c;
    assert y / 400 == 0;
  }

  lemma NextYearStart(c: int, q: int, s: int)
    requires 0 <= c <= 3 && 0 <= q <= 24 && 0 <= s <= 3
    ensures DaysBeforeYear(100 * c + 4 * q + s + 1) ==
            36524 * c + 1461 * q + 365 * s + 365
            + (if s == 3 && (q < 24 || c == 3) then 1 else 0)
  {
    var y := 100 * c + 4 * q + s + 1;
    assert y / 4 == 25 * c + q + if s == 3 then 1 else 0;
    assert y / 100 == c + if s == 3 && q == 24 then 1 else 0;
    assert y / 400 == if s == 3 && q == 24 && c == 3 then 1 else 0;
  }

  lemma EraPeriod(year: int, era: int)
    ensures DaysBeforeYear(year + 400 * era) == DaysBeforeYear(year) + 146097 * era
  {
    assert (year + 400 * era) / 4 == year / 4 + 100 * era;
    assert (year + 400 * era) / 100 == year / 100 + 4 * era;
    assert (year + 400 * era) / 400 == year / 400 + era;
  }

  /** A March-based year has 366 days exactly when the calendar year it ends in is leap. */
  lemma YearLength(year: int)
    ensures DaysBeforeYear(year + 1) - DaysBeforeYear(year) == if IsLeap(year + 1) then 366 else 365
  {
    var n := year + 1;
    assert n / 4 - year / 4 == if n % 4 == 0 then 1 else 0;
    assert n / 100 - year / 100 == if n % 100 == 0 then 1 else 0;
    assert n / 400 - year / 400 == if n % 400 == 0 then 1 else 0;
    MultiplesNest(n);
  }

  lemma MultiplesNest(n: int)
    ensures n % 400 == 0 ==> n % 100 == 0
    ensures n % 100 == 0 ==> n % 4 == 0
  {
    var century, era := n / 100, n / 400;
    assert n == 100 * century + n % 100 && n == 400 * era + n % 400;
    MultipleOf100(4 * era);
    MultipleOf4(25 * century);
  }

  lemma MultipleOf100(k: int)
    ensures (100 * k) % 100 == 0
  {
  }

  lemma MultipleOf4(k: int)
    ensures (4 * k) % 4 == 0
  {
  }

  lemma YearsAscend(a: int, b: int)
    requires a <= b
    ensures DaysBeforeYear(a) + 365 * (b - a) <= DaysBeforeYear(b)
    decreases b - a
  {
    if a < b {
      YearLength(b - 1);
      YearsAscend(a, b - 1);
    }
  }

  // ------------------------------------------------------- within one year

  /** The month table of the algorithm: `dayOfYear` counted from 1 March. */
  lemma MonthOfDay(year: int, dayOfYear: int)
    requires 0 <= dayOfYear < if IsLeap(year + 1) then 366 else 365
    ensures var m := (5 * dayOfYear + 2) / 153;
            var month := if m < 10 then m + 3 else m - 9;
            && 0 <= m <= 11
            && 1 <= dayOfYear - (153 * m + 2) / 5 + 1 <= DaysInMonth(if m < 10 then year else year + 1, month)
  {
    var m := (5 * dayOfYear + 2) / 153;
    assert 0 <= m <= 11;
    match m
    case 0 => case 1 => case 2 => case 3 => case 4 => case 5 =>
    case 6 => case 7 => case 8 => case 9 => case 10 => case _ =>
  }

  lemma DayOfMonth(d: Date)
    requires ValidDate(d)
    ensures var dayOfYear := MarchDay(d);
            && (5 * dayOfYear + 2) / 153 == MarchMonth(d)
            && 0 <= dayOfYear < if IsLeap(MarchYear(d) + 1) then 366 else 365
  {
    hide IsLeap;
    match MarchMonth(d)
    case 0 => case 1 => case 2 => case 3 => case 4 => case 5 =>
    case 6 => case 7 => case 8 => case 9 => case 10 => case _ =>
  }

  // ------------------------------------------------------------ the result

  lemma YearIsUnique(z: int, a: int, b: int)
    requires DaysBeforeYear(a) <= z < DaysBeforeYear(a + 1)
    requires DaysBeforeYear(b) <= z < DaysBeforeYear(b + 1)
    ensures a == b
  {
    if a < b {
      YearsAscend(a + 1, b);
    } else if b < a {
      YearsAscend(b + 1, a);
    }
  }

  /** The era, the year within it and the day within that year, as the algorithm finds them. */
  lemma EraAndYear(z: int, year: int)
    requires DaysBeforeYear(year) <= z < DaysBeforeYear(year + 1)
    ensures var y := YearOfEra(z - Era(z) * 146097);
            && y + Era(z) * 400 == year
            && DayOfYear(z - Era(z) * 146097, y) == z - DaysBeforeYear(year)
  {
    hide YearOfEra, Era;
    var era := Era(z);
    FloorEra(z);
    var y := YearOfEra(z - era * 146097);
    YearOfEraSpan(z - era * 146097);
    EraPeriod(y, era);
    EraPeriod(y + 1, era);
    YearIsUnique(z, year, y + 400 * era);
    assert y / 400 == 0;
  }

  /** The algorithm finds the March-based year and the day within it. */
  lemma CivilFromYearAndDay(days: int, year: int, dayOfYear: int)
    requires days + 719468 == DaysBeforeYear(year) + dayOfYear
    requires 0 <= dayOfYear < if IsLeap(year + 1) then 366 else 365
    ensures CivilFromDays(days) == DateInYear(year, dayOfYear)
  {
    hide DateInYear, DayOfYear, YearOfEra, Era, DaysBeforeYear, IsLeap;
    YearLength(year);
    EraAndYear(days + 719468, year);
  }

  /** Every day has a March-based year and a day within it. */
  lemma YearAndDayOf(days: int) returns (year: int, dayOfYear: int)
    ensures days + 719468 == DaysBeforeYear(year) + dayOfYear
    ensures 0 <= dayOfYear < if IsLeap(year + 1) then 366 else 365
  {
    hide YearOfEra, IsLeap;
    var z := days + 719468;
    var era := z / 146097;
    YearOfEraSpan(z % 146097);
    var y := YearOfEra(z % 146097);
    EraPeriod(y, era);
    EraPeriod(y + 1, era);
    year := y + 400 * era;
    YearLength(year);
    dayOfYear := z - DaysBeforeYear(year);
  }

  /** Left inverse: every day number yields a valid date that counts back to it. */
  lemma DaysOfCivil(days: int)
    ensures ValidDate(CivilFromDays(days))
    ensures DaysFromCivil(CivilFromDays(days)) == days
  {
    hide CivilFromDays, DaysBeforeYear, IsLeap;
    var year, dayOfYear := YearAndDayOf(days);
    CivilFromYearAndDay(days, year, dayOfYear);
    MonthOfDay(year, dayOfYear);
  }

  /** Right inverse: every valid date is the date of its day number. */
  lemma CivilOfDays(d: Date)
    requires ValidDate(d)
    ensures CivilFromDays(DaysFromCivil(d)) == d
  {
    hide CivilFromDays, IsLeap, DaysBeforeYear;
    DayOfMonth(d);
    CivilFromYearAndDay(DaysFromCivil(d), MarchYear(d), MarchDay(d));
  }

  /** The day count agrees with the wall-calendar rule. */
  lemma DaysOfNextDate(d: Date)
    requires ValidDate(d)
    ensures ValidDate(NextDate(d))
    ensures DaysFromCivil(NextDate(d)) == DaysFromCivil(d) + 1
  {
    hide DaysBeforeYear, IsLeap;
    YearLength(MarchYear(d));
  }

  lemma EpochDate()
    ensures CivilFromDays(0) == Date(1970, 1, 1)
  {
    assert DaysFromCivil(Date(1970, 1, 1)) == 0;
    CivilOfDays(Date(1970, 1, 1));
  }

  /** The algorithm is the proleptic Gregorian calendar: day 0 is 1970-01-01 and
      each day's date is the calendar successor of the day before, so day n
      carries the date n steps away from 1970-01-01, in both directions. */
  lemma CivilIsGregorian(days: int)
    ensures CivilFromDays(0) == Date(1970, 1, 1)
    ensures CivilFromDays(days + 1) == NextDate(CivilFromDays(days))
  {
    hide CivilFromDays, DaysFromCivil, NextDate, ValidDate;
    EpochDate();
    DaysOfCivil(days);
    var d := CivilFromDays(days);
    DaysOfNextDate(d);
    CivilOfDays(NextDate(d));
  }

  lemma PreviousOfNext(d: Date)
    requires ValidDate(d)
    ensures PreviousDate(NextDate(d)) == d
  {
    hide IsLeap;
  }

  /** The algorithm agrees with leafing through the calendar, for every day number. */
  lemma {:induction false} CivilIsDateAt(days: int)
    ensures CivilFromDays(days) == DateAt(days)
    decreases if days >= 0 then days else -days
  {
    hide CivilFromDays, NextDate, PreviousDate, ValidDate;
    if days == 0 {
      EpochDate();
    } else if days > 0 {
      CivilIsDateAt(days - 1);
      CivilIsGregorian(days - 1);
    } else {
      CivilIsDateAt(days + 1);
      CivilIsGregorian(days);
      DaysOfCivil(days);
      PreviousOfNext(CivilFromDays(days));
    }
  }

  /** Day numbers and valid dates are in bijection. */
  lemma CivilIsBijection(days: int, d: Date)
    requires ValidDate(d)
    ensures CivilFromDays(days) == d <==> days == DaysFromCivil(d)
  {
    hide CivilFromDays, DaysFromCivil;
    DaysOfCivil(days);
    CivilOfDays(d);
  }

  /** A later day has a later date. */
  lemma CivilIsMonotone(a: int, b: int)
    ensures a < b <==> Earlier(CivilFromDays(a), CivilFromDays(b))
  {
    hide CivilFromDays, DaysFromCivil, ValidDate;
    DaysOfCivil(a);
    DaysOfCivil(b);
    var da, db := CivilFromDays(a), CivilFromDays(b);
    if Earlier(da, db) {
      DaysAscend(da, db);
    }
    if Earlier(db, da) {
      DaysAscend(db, da);
    }
  }

  lemma DaysAscend(a: Date, b: Date)
    requires ValidDate(a) && ValidDate(b) && Earlier(a, b)
    ensures DaysFromCivil(a) < DaysFromCivil(b)
  {
    hide IsLeap, DaysBeforeYear, DaysInMonth;
    DayOfMonth(a);
    DayOfMonth(b);
    if MarchYear(a) < MarchYear(b) {
      hide MarchDay;
      YearLength(MarchYear(a));
      YearsAscend(MarchYear(a) + 1, MarchYear(b));
    }
  }
}
