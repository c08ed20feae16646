/** Proleptic Gregorian calendar facts: the reference against which the
    day-of-year formula is measured, and the acceptance rule of the library's
    date type. */
module Calendar {
  /** chrono's `NaiveDate` year range: `i32::MIN >> 13` to `i32::MAX >> 13`. */
  const MIN_YEAR: int := -262_144
  const MAX_YEAR: int := 262_143

  predicate IsLeapYear(year: int)
  {
    year % 4 == 0 && (year % 100 != 0 || year % 400 == 0)
  }

  function DaysInMonth(leap: bool, month: int): (n: int)
    requires 1 <= month <= 12
    ensures 28 <= n <= 31
  {
    if month == 2 then (if leap then 29 else 28)
    else if month == 4 || month == 6 || month == 9 || month == 11 then 30
    else 31
  }

  /** Days of the year that precede the first of `month`: the sum of the
      lengths of the months before it, which is the familiar table. */
  function DaysBeforeMonth(leap: bool, month: int): (n: int)
    requires 1 <= month <= 12
    ensures var l := if leap then 1 else 0;
            n == [0, 31, 59 + l, 90 + l, 120 + l, 151 + l, 181 + l, 212 + l, 243 + l, 273 + l, 304 + l, 334 + l][month - 1]
    decreases month
  {
    if month == 1 then 0 else DaysBeforeMonth(leap, month - 1) + DaysInMonth(leap, month - 1)
  }

  /** What `NaiveDate::from_ymd_opt(year, month, day)` accepts. */
  predicate ValidDate(year: int, month: int, day: int)
  {
    MIN_YEAR <= year <= MAX_YEAR && 1 <= month <= 12 && 1 <= day <= DaysInMonth(IsLeapYear(year), month)
  }

  /** The year of a date counted from March, as the day count uses it:
      January and February belong to the year before. */
  function MarchYear(year: int, month: int): int
  {
    if month <= 2 then year - 1 else year
  }

  /** The 0-based day of a date within its March-based year. */
  function MarchDayOfYear(month: int, day: int): int
  {
    var mp := if month > 2 then month - 3 else month + 9;
    (153 * mp + 2) / 5 + day - 1
  }

  /** Day of the 400-year era on which the March-based year `yoe` of the era
      starts. */
  function EraYearStart(yoe: int): int
  {
    yoe * 365 + yoe / 4 - yoe / 100
  }

  /** Days from 0000-03-01 to 1 March of the year `y`: whole 400-year eras of
      146_097 days, then the years of the current era. */
  function DaysBeforeMarchYear(y: int): int
  {
    (y / 400) * 146_097 + EraYearStart(y % 400)
  }

  /** Days from 1970-01-01 to the given civil date (proleptic Gregorian; the
      era-based closed form, with `/` rounding down as Dafny's does). */
  function DaysFromCivil(year: int, month: int, day: int): int
  {
    DaysBeforeMarchYear(MarchYear(year, month)) + MarchDayOfYear(month, day) - 719_468
  }

  /** Adding a multiple of `m` changes neither the remainder nor, beyond
      the multiple itself, the quotient. */
  lemma DivModShift(k: int, m: int, n: int)
    requires m > 0
    ensures (k * m + n) % m == n % m
    ensures (k * m + n) / m == k + n / m
  {
    var q, r := (k * m + n) / m, (k * m + n) % m;
    var q2, r2 := n / m, n % m;
    var c := k + q2 - q;
    assert k * m + n == q * m + r && n == q2 * m + r2;
    assert c * m == r - r2 by {
      assert c * m == k * m + q2 * m - q * m;
    }
  }

  /** 1 when the `n`-th year of a 400-year era (1 to 400) is a leap year,
      else 0. */
  function EraLeap(n: int): int
  {
    if n % 4 == 0 && (n % 100 != 0 || n == 400) then 1 else 0
  }

  /** A year's leap status is decided by its place in its 400-year era. */
  lemma LeapInEra(y: int)
    ensures (if IsLeapYear(y + 1) then 1 else 0) == EraLeap(y % 400 + 1)
  {
    var era, n := y / 400, y % 400 + 1;
    assert y + 1 == era * 400 + n;
    DivModShift(era * 100, 4, n);
    DivModShift(era * 4, 100, n);
    DivModShift(era, 400, n);
  }

  /** The next March-based year of an era starts 365 days later, one more
      when it ends in a leap February. */
  lemma EraYearStep(yoe: int)
    requires 0 <= yoe < 399
    ensures EraYearStart(yoe + 1) == EraYearStart(yoe) + 365 + EraLeap(yoe + 1)
  {
    var n := yoe + 1;
    DivStep(yoe, 4);
    DivStep(yoe, 100);
    if n % 100 == 0 {
      DivModShift(n / 100 * 25, 4, 0);
    }
  }

  /** Counting up by one raises the quotient exactly when it reaches a
      multiple of `m`. */
  lemma DivStep(x: int, m: int)
    requires m > 0
    ensures (x + 1) / m == x / m + (if (x + 1) % m == 0 then 1 else 0)
  {
    var q, r := x / m, x % m;
    var q1, r1 := (x + 1) / m, (x + 1) % m;
    assert x == q * m + r && x + 1 == q1 * m + r1;
    var c := q1 - q;
    assert c * m == r + 1 - r1 by {
      assert c * m == q1 * m - q * m;
    }
  }

  /** The March-based year `y` has 365 days, plus one when the February that
      ends it is the February of a leap year of the era. */
  lemma MarchYearLength(y: int)
    ensures DaysBeforeMarchYear(y + 1) == DaysBeforeMarchYear(y) + 365 + EraLeap(y % 400 + 1)
  {
    var era, yoe := y / 400, y % 400;
    assert y + 1 == era * 400 + (yoe + 1);
    DivModShift(era, 400, yoe + 1);
    assert DaysBeforeMarchYear(y) == era * 146_097 + EraYearStart(yoe);
    if yoe < 399 {
      assert (y + 1) / 400 == era && (y + 1) % 400 == yoe + 1;
      EraYearStep(yoe);
      assert DaysBeforeMarchYear(y + 1) == era * 146_097 + EraYearStart(yoe + 1);
    } else {
      assert (y + 1) / 400 == era + 1 && (y + 1) % 400 == 0;
      assert EraYearStart(399) == 146_097 - 366 && EraLeap(400) == 1;
      assert DaysBeforeMarchYear(y + 1) == (era + 1) * 146_097;
    }
  }

  /** From the last day of February to 1 March the March-based year changes,
      and the count still advances by one, in leap and common years alike. */
  lemma EndOfFebruary(year: int, day: int)
    requires day == DaysInMonth(IsLeapYear(year), 2)
    ensures DaysFromCivil(year, 3, 1) == DaysFromCivil(year, 2, day) + 1
  {
    MarchYearLength(year - 1);
    LeapInEra(year - 1);
    assert MarchDayOfYear(2, day) == 336 + day;
  }

  /** The day count advances by exactly one from every valid date to the
      next one: within a month, across a month end and across a year end. */
  lemma DaysFromCivilNextDay(year: int, month: int, day: int)
    requires ValidDate(year, month, day)
    ensures day < DaysInMonth(IsLeapYear(year), month) ==>
              DaysFromCivil(year, month, day + 1) == DaysFromCivil(year, month, day) + 1
    ensures day == DaysInMonth(IsLeapYear(year), month) && month < 12 ==>
              DaysFromCivil(year, month + 1, 1) == DaysFromCivil(year, month, day) + 1
    ensures day == DaysInMonth(IsLeapYear(year), month) && month == 12 ==>
              DaysFromCivil(year + 1, 1, 1) == DaysFromCivil(year, month, day) + 1
  {
    if day == DaysInMonth(IsLeapYear(year), month) && month == 2 {
      EndOfFebruary(year, day);
    }
  }

  /** Anchors of the day count: the Unix epoch, and the day a leap February ends. */
  lemma DaysFromCivilAnchors()
    ensures DaysFromCivil(1970, 1, 1) == 0
    ensures DaysFromCivil(2000, 3, 1) == DaysFromCivil(2000, 2, 29) + 1
    ensures DaysFromCivil(2023, 6, 1) == 19_509
  {
  }
}
