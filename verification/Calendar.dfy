/** The civil-from-days arithmetic of asg-common/src/timeutil.rs against the proleptic Gregorian calendar. */
module Calendar {

  datatype Date = Date(year: int, month: int, day: int)

  // ----- The Gregorian calendar itself -----

  predicate IsLeap(y: int) {
    y % 4 == 0 && (y % 100 != 0 || y % 400 == 0)
  }

  function DaysInMonth(y: int, m: int): int
    requires 1 <= m <= 12
  {
    if m == 2 then (if IsLeap(y) then 29 else 28)
    else if m == 4 || m == 6 || m == 9 || m == 11 then 30
    else 31
  }

  predicate ValidDate(d: Date) {
    1 <= d.month <= 12 && 1 <= d.day <= DaysInMonth(d.year, d.month)
  }

  /** The calendar day after `d`. */
  function NextDay(d: Date): Date
    requires ValidDate(d)
  {
    if d.day < DaysInMonth(d.year, d.month) then Date(d.year, d.month, d.day + 1)
    else if d.month < 12 then Date(d.year, d.month + 1, 1)
    else Date(d.year + 1, 1, 1)
  }

  predicate Before(a: Date, b: Date) {
    a.year < b.year || (a.year == b.year &&
    (a.month < b.month || (a.month == b.month && a.day < b.day)))
  }

  /** Days of year `y` before the first of month `m`. */
  function DaysBeforeMonth(y: int, m: int): int
    requires 1 <= m <= 12
  {
    if m == 1 then 0 else DaysBeforeMonth(y, m - 1) + DaysInMonth(y, m - 1)
  }

  /** Days from 0001-01-01 to the first of January of year `y`; `/` rounds down here. */
  function DaysBeforeYear(y: int): int {
    365 * (y - 1) + (y - 1) / 4 - (y - 1) / 100 + (y - 1) / 400
  }

  /** Days from 1970-01-01 to `d`: counted, not computed by Hinnant's inverse formula. */
  function DaysFromCivil(d: Date): int
    requires 1 <= d.month <= 12
  {
    DaysBeforeYear(d.year) + DaysBeforeMonth(d.year, d.month) + d.day - 1 - 719_162
  }

  // ----- The program -----

  /** Rust's `/` on `i64`: truncation toward zero. */
  function TruncDiv(a: int, b: int): int
    requires b > 0
  {
    if a >= 0 then a / b else -(-a / b)
  }

  function YearOfEra(doe: int): int {
    TruncDiv(doe - TruncDiv(doe, 1_460) + TruncDiv(doe, 36_524) - TruncDiv(doe, 146_096), 365)
  }

  function CivilFromDays(days: int): Date {
    var z := days + 719_468;
    var era := TruncDiv(if z >= 0 then z else z - 146_096, 146_097);
    CivilOfEra(era, z - era * 146_097)
  }

  function CivilOfEra(era: int, doe: int): Date {
    var yoe := YearOfEra(doe);
    var doy := doe - (365 * yoe + TruncDiv(yoe, 4) - TruncDiv(yoe, 100));
    DateOfYear(yoe + era * 400, doy)
  }

  /** Day `doy` of the year that begins on 1 March of `y`. */
  function DateOfYear(y: int, doy: int): Date {
    var mp := TruncDiv(5 * doy + 2, 153);
    var d := doy - TruncDiv(153 * mp + 2, 5) + 1;
    var m := if mp < 10 then mp + 3 else mp - 9;
    Date(if m <= 2 then y + 1 else y, m, d)
  }

  // ----- The year within the 400-year era -----

  /** First day, counted from the start of the era, of the year `yoe` that begins on 1 March. */
  function MarchYearStart(yoe: int): int {
    365 * yoe + yoe / 4 - yoe / 100
  }

  /** Splits a day of the era into centuries, four-year cycles, years and a remainder. */
  lemma EraSplit(doe: int) returns (c: int, q: int, s: int)
    requires 0 <= doe < 146_097
    ensures 0 <= c <= 3 && 0 <= q <= 24 && 0 <= s <= 1_460
    ensures doe == 36_524 * c + 1_461 * q + s
    ensures s == 1_460 && q == 24 ==> c == 3
  {
    c := if doe == 146_096 then 3 else doe / 36_524;
    var r := doe - 36_524 * c;
    q := r / 1_461;
    s := r % 1_461;
  }

  lemma YearOfEraFrom(doe: int, c: int, q: int, s: int)
    requires 0 <= c <= 3 && 0 <= q <= 24 && 0 <= s <= 1_460
    requires doe == 36_524 * c + 1_461 * q + s && 0 <= doe < 146_097
    requires s == 1_460 && q == 24 ==> c == 3
    ensures YearOfEra(doe) == 100 * c + 4 * q + (if s == 1_460 then 3 else s / 365)
  {
    var e := if 24 * c + q + s >= 1_460 then 1 else 0;
    assert doe == 1_460 * (25 * c + q + e) + (24 * c + q + s - 1_460 * e);
    assert doe / 1_460 == 25 * c + q + e;
    var last := if doe == 146_096 then 1 else 0;
    assert doe / 146_096 == last;
    assert doe / 36_524 == c + last;
    assert doe - doe / 1_460 + doe / 36_524 - doe / 146_096 == 365 * (100 * c + 4 * q) + (s - e);
    var k := if s == 1_460 then 3 else s / 365;
    assert 365 * k <= s - e < 365 * (k + 1);
  }

  /** Every day of the era falls in the March-based year that `YearOfEra` names. */
  lemma YearOfEraBounds(doe: int)
    requires 0 <= doe < 146_097
    ensures var yoe := YearOfEra(doe);
            0 <= yoe < 400 && 0 <= doe - MarchYearStart(yoe) <= 365 &&
            (doe - MarchYearStart(yoe) == 365 ==> IsLeap(yoe + 1))
  {
    hide YearOfEra;
    var c, q, s := EraSplit(doe);
    YearOfEraFrom(doe, c, q, s);
    var k := if s == 1_460 then 3 else s / 365;
    var yoe := 100 * c + 4 * q + k;
    assert yoe / 100 == c;
    assert yoe / 4 == 25 * c + q;
    assert doe - MarchYearStart(yoe) == s - 365 * k;
    if s - 365 * k == 365 {
      assert k == 3 && (yoe + 1) % 4 == 0;
      if (yoe + 1) % 100 == 0 {
        assert q == 24 && c == 3;
      }
    }
  }

  // ----- The month within the March-based year -----

  lemma MonthOfYear(y: int, doy: int)
    requires 0 <= doy <= 365
    requires doy == 365 ==> IsLeap(y + 1)
    ensures var d := DateOfYear(y, doy);
            ValidDate(d) && d.year == (if d.month <= 2 then y + 1 else y) &&
            doy == (if d.month <= 2 then 306 + DaysBeforeMonth(y + 1, d.month)
                    else DaysBeforeMonth(y, d.month) - DaysBeforeMonth(y, 3)) + d.day - 1
  {
    MonthTable(y);
    MonthTable(y + 1);
    var mp := (5 * doy + 2) / 153;
    assert 0 <= mp <= 11;
    assert 153 * mp <= 5 * doy + 2 < 153 * (mp + 1);
    if {
      case mp == 0 => case mp == 1 => case mp == 2 => case mp == 3 =>
      case mp == 4 => case mp == 5 => case mp == 6 => case mp == 7 =>
      case mp == 8 => case mp == 9 => case mp == 10 => case mp == 11 =>
    }
  }

  lemma MonthTable(y: int)
    ensures var l := if IsLeap(y) then 1 else 0;
            DaysBeforeMonth(y, 1) == 0 && DaysBeforeMonth(y, 2) == 31 &&
            DaysBeforeMonth(y, 3) == 59 + l && DaysBeforeMonth(y, 4) == 90 + l && DaysBeforeMonth(y, 5) == 120 + l &&
            DaysBeforeMonth(y, 6) == 151 + l && DaysBeforeMonth(y, 7) == 181 + l && DaysBeforeMonth(y, 8) == 212 + l &&
            DaysBeforeMonth(y, 9) == 243 + l && DaysBeforeMonth(y, 10) == 273 + l && DaysBeforeMonth(y, 11) == 304 + l &&
            DaysBeforeMonth(y, 12) == 334 + l
  {
    assert DaysBeforeMonth(y, 2) == 31;
    assert DaysBeforeMonth(y, 4) == DaysBeforeMonth(y, 2) + DaysInMonth(y, 2) + 31;
    assert DaysBeforeMonth(y, 6) == DaysBeforeMonth(y, 4) + 61;
    assert DaysBeforeMonth(y, 8) == DaysBeforeMonth(y, 6) + 61;
    assert DaysBeforeMonth(y, 10) == DaysBeforeMonth(y, 8) + 61;
    assert DaysBeforeMonth(y, 12) == DaysBeforeMonth(y, 10) + 61;
  }

  // ----- Counting days is strictly monotone along the calendar -----

  lemma QuartersStep(y: int)
    ensures y / 4 - (y - 1) / 4 == if y % 4 == 0 then 1 else 0
  {
    var q := y / 4;
    assert y == 4 * q + y % 4;
    if y % 4 == 0 {
      assert 4 * (q - 1) <= y - 1 < 4 * q;
    } else {
      assert 4 * q <= y - 1 < 4 * (q + 1);
    }
  }

  lemma CenturiesStep(y: int)
    ensures y / 100 - (y - 1) / 100 == if y % 100 == 0 then 1 else 0
  {
    var q := y / 100;
    assert y == 100 * q + y % 100;
    if y % 100 == 0 {
      assert 100 * (q - 1) <= y - 1 < 100 * q;
    } else {
      assert 100 * q <= y - 1 < 100 * (q + 1);
    }
  }

  lemma ErasStep(y: int)
    ensures y / 400 - (y - 1) / 400 == if y % 400 == 0 then 1 else 0
  {
    var q := y / 400;
    assert y == 400 * q + y % 400;
    if y % 400 == 0 {
      assert 400 * (q - 1) <= y - 1 < 400 * q;
    } else {
      assert 400 * q <= y - 1 < 400 * (q + 1);
    }
  }

  lemma EraIsCentury(y: int)
    ensures y % 400 == 0 ==> y % 100 == 0
  {
    if y % 400 == 0 {
      var q := y / 400;
      assert y == 100 * (4 * q);
    }
  }

  lemma CenturyIsQuarter(y: int)
    ensures y % 100 == 0 ==> y % 4 == 0
  {
    if y % 100 == 0 {
      var q := y / 100;
      assert y == 4 * (25 * q);
    }
  }

  lemma YearLength(y: int)
    ensures DaysBeforeYear(y + 1) - DaysBeforeYear(y) == (if IsLeap(y) then 366 else 365)
  {
    QuartersStep(y);
    CenturiesStep(y);
    ErasStep(y);
    EraIsCentury(y);
    CenturyIsQuarter(y);
  }

  lemma {:induction false} YearsGrow(a: int, b: int)
    requires a <= b
    ensures DaysBeforeYear(b) - DaysBeforeYear(a) >= 365 * (b - a)
    decreases b - a
  {
    if a < b {
      YearLength(b - 1);
      YearsGrow(a, b - 1);
    }
  }

  lemma WithinYear(d: Date)
    requires ValidDate(d)
    ensures 0 <= DaysBeforeMonth(d.year, d.month) + d.day - 1
    ensures DaysBeforeMonth(d.year, d.month) + d.day <= (if IsLeap(d.year) then 366 else 365)
  {
    MonthTable(d.year);
  }

  lemma CountingIsMonotone(a: Date, b: Date)
    requires ValidDate(a) && ValidDate(b) && Before(a, b)
    ensures DaysFromCivil(a) < DaysFromCivil(b)
  {
    if a.year < b.year {
      WithinYear(a);
      WithinYear(b);
      YearLength(a.year);
      YearsGrow(a.year + 1, b.year);
    } else {
      MonthTable(a.year);
    }
  }

  lemma CountingStepsByOne(d: Date)
    requires ValidDate(d)
    ensures ValidDate(NextDay(d)) && DaysFromCivil(NextDay(d)) == DaysFromCivil(d) + 1
  {
    MonthTable(d.year);
    YearLength(d.year);
  }

  lemma CountingIsInjective(a: Date, b: Date)
    requires ValidDate(a) && ValidDate(b) && DaysFromCivil(a) == DaysFromCivil(b)
    ensures a == b
  {
    if Before(a, b) {
      CountingIsMonotone(a, b);
    } else if Before(b, a) {
      CountingIsMonotone(b, a);
    }
  }

  // ----- Main results -----

  /** Adding whole eras moves no division by 4, 100 or 400 off its place. */
  lemma EraShift(y: int, era: int)
    ensures (y + era * 400) / 4 == y / 4 + era * 100
    ensures (y + era * 400) / 100 == y / 100 + era * 4
    ensures (y + era * 400) / 400 == y / 400 + era
  {
    var a := y / 4;
    assert 4 * (a + era * 100) <= y + era * 400 < 4 * (a + era * 100) + 4;
    var b := y / 100;
    assert 100 * (b + era * 4) <= y + era * 400 < 100 * (b + era * 4) + 100;
    var c := y / 400;
    assert 400 * (c + era) <= y + era * 400 < 400 * (c + era) + 400;
  }

  lemma EraKeepsLeapYears(y: int, era: int)
    ensures IsLeap(y + era * 400) == IsLeap(y)
  {
    EraShift(y, era);
    var x := y + era * 400;
    assert x % 4 == x - 4 * (x / 4) == y % 4;
    assert x % 100 == x - 100 * (x / 100) == y % 100;
    assert x % 400 == x - 400 * (x / 400) == y % 400;
  }

  /** The first of March of year `yoe + era * 400`, as a day count. */
  lemma FirstOfMarch(yoe: int, era: int)
    requires 0 <= yoe < 400
    ensures var y := yoe + era * 400;
            DaysBeforeYear(y) + DaysBeforeMonth(y, 3) == MarchYearStart(yoe) + era * 146_097 - 306
  {
    var y := yoe + era * 400;
    EraShift(yoe, era);
    YearLength(y);
    MonthTable(y);
    assert DaysBeforeYear(y + 1) == 365 * y + y / 4 - y / 100 + y / 400;
  }

  lemma DateOfYearCorrect(yoe: int, era: int, doy: int)
    requires 0 <= yoe < 400 && 0 <= doy <= 365
    requires doy == 365 ==> IsLeap(yoe + 1)
    ensures var d := DateOfYear(yoe + era * 400, doy);
            ValidDate(d) && DaysFromCivil(d) == MarchYearStart(yoe) + doy + era * 146_097 - 719_468
  {
    var y := yoe + era * 400;
    EraKeepsLeapYears(yoe + 1, era);
    MonthOfYear(y, doy);
    FirstOfMarch(yoe, era);
    YearLength(y);
    MonthTable(y);
  }

  lemma CivilOfEraCorrect(era: int, doe: int)
    requires 0 <= doe < 146_097
    ensures ValidDate(CivilOfEra(era, doe))
    ensures DaysFromCivil(CivilOfEra(era, doe)) == doe + era * 146_097 - 719_468
  {
    hide YearOfEra, DateOfYear, DaysFromCivil, ValidDate;
    YearOfEraBounds(doe);
    var yoe := YearOfEra(doe);
    assert CivilOfEra(era, doe) == DateOfYear(yoe + era * 400, doe - MarchYearStart(yoe));
    DateOfYearCorrect(yoe, era, doe - MarchYearStart(yoe));
  }

  lemma EraOf(z: int)
    ensures TruncDiv(if z >= 0 then z else z - 146_096, 146_097) == z / 146_097
  {
  }

  /** `CivilFromDays` gives a valid date, and counting the days up to that date gives the input back. */
  lemma CivilFromDaysCorrect(days: int)
    ensures ValidDate(CivilFromDays(days))
    ensures DaysFromCivil(CivilFromDays(days)) == days
  {
    hide CivilOfEra, DaysFromCivil, ValidDate, TruncDiv;
    var z := days + 719_468;
    EraOf(z);
    CivilOfEraCorrect(z / 146_097, z % 146_097);
  }

  lemma DaysOfValidDateRoundTrip(d: Date)
    requires ValidDate(d)
    ensures CivilFromDays(DaysFromCivil(d)) == d
  {
    CivilFromDaysCorrect(DaysFromCivil(d));
    CountingIsInjective(CivilFromDays(DaysFromCivil(d)), d);
  }

  lemma EpochDay()
    ensures CivilFromDays(0) == Date(1970, 1, 1)
  {
    assert DaysFromCivil(Date(1970, 1, 1)) == 0;
    DaysOfValidDateRoundTrip(Date(1970, 1, 1));
  }

  /** Together with day 0 being 1970-01-01 this fixes the function on every day number, past and future. */
  lemma NextDayNumberIsNextDay(days: int)
    ensures CivilFromDays(0) == Date(1970, 1, 1)
    ensures ValidDate(CivilFromDays(days))
    ensures CivilFromDays(days + 1) == NextDay(CivilFromDays(days))
  {
    CivilFromDaysCorrect(days);
    CivilFromDaysCorrect(days + 1);
    CountingStepsByOne(CivilFromDays(days));
    var d := CivilFromDays(days);
    CountingIsInjective(CivilFromDays(days + 1), NextDay(d));
    EpochDay();
  }

  lemma CivilFromDaysIsMonotone(a: int, b: int)
    ensures a < b <==> Before(CivilFromDays(a), CivilFromDays(b))
  {
    CivilFromDaysCorrect(a);
    CivilFromDaysCorrect(b);
    var x, y := CivilFromDays(a), CivilFromDays(b);
    if Before(x, y) {
      CountingIsMonotone(x, y);
    } else if Before(y, x) {
      CountingIsMonotone(y, x);
    }
  }
}
