/** The broken-down time record `Tm` (ISO C `struct tm` plus the UTC offset and
    nanoseconds), the Win32 SYSTEMTIME record, the field mapping between them
    and the day-of-year formula used when filling `Tm` from a SYSTEMTIME. */
module BrokenDown {
  import opened Ints
  import opened Calendar

  /** Value of a `Tm`. Documented ranges: sec in [0, 60], min in [0, 59],
      hour in [0, 23], mday in [1, 31], mon in [0, 11] (0 = January),
      year = calendar year - 1900, wday in [0, 6] (0 = Sunday),
      yday in [0, 365], isdst > 0 / = 0 / < 0 for DST on / off / unknown,
      utcoff in seconds east of UTC, nsec in [0, 10^9). */
  datatype TmRec = TmRec(
    sec: int32, min: int32, hour: int32, mday: int32, mon: int32, year: int32,
    wday: int32, yday: int32, isdst: int32, utcoff: int32, nsec: int32)

  /** The all-zero record `Timespec::local` starts from. */
  const ZERO_TM: TmRec := TmRec(0, 0, 0, 0, 0, 0, 0, 0, 0, 0, 0)

  /** A `Tm` that is updated field by field through a mutable reference. */
  class Tm {
    var sec: int32
    var min: int32
    var hour: int32
    var mday: int32
    var mon: int32
    var year: int32
    var wday: int32
    var yday: int32
    var isdst: int32
    var utcoff: int32
    var nsec: int32

    function Value(): TmRec
      reads this
    {
      TmRec(sec, min, hour, mday, mon, year, wday, yday, isdst, utcoff, nsec)
    }

    constructor (v: TmRec)
      ensures Value() == v
    {
      sec, min, hour, mday, mon, year := v.sec, v.min, v.hour, v.mday, v.mon, v.year;
      wday, yday, isdst, utcoff, nsec := v.wday, v.yday, v.isdst, v.utcoff, v.nsec;
    }
  }

  /** Win32 SYSTEMTIME: calendar fields as unsigned 16-bit values, month 1-based. */
  datatype SystemTime = SystemTime(
    year: uint16, month: uint16, dayOfWeek: uint16, day: uint16,
    hour: uint16, minute: uint16, second: uint16, milliseconds: uint16)

  /** The fields of two records that the SYSTEMTIME mapping carries. */
  predicate SameCalendarFields(a: TmRec, b: TmRec)
  {
    a.sec == b.sec && a.min == b.min && a.hour == b.hour && a.mday == b.mday &&
    a.wday == b.wday && a.mon == b.mon && a.year == b.year
  }

  /** `tm_to_system_time`: every field cast to `u16`, month shifted to 1-based
      and year to a calendar year in `i32`; milliseconds stay zero. Within the
      documented ranges, and for a year a SYSTEMTIME can hold, no cast changes
      a value. */
  function TmToSystemTime(t: TmRec): (s: SystemTime)
    ensures s.milliseconds == 0
    ensures InSystemTimeRange(t) ==>
              s == SystemTime(t.year + 1900, t.mon + 1, t.wday, t.mday, t.hour, t.min, t.sec, 0)
  {
    SystemTime(
      year := WrapU16(WrapI32(t.year + 1900)),
      month := WrapU16(WrapI32(t.mon + 1)),
      dayOfWeek := WrapU16(t.wday),
      day := WrapU16(t.mday),
      hour := WrapU16(t.hour),
      minute := WrapU16(t.min),
      second := WrapU16(t.sec),
      milliseconds := 0)
  }

  /** The SYSTEMTIME handed to the host depends on nothing but the seven
      calendar fields: not on yday, isdst, utcoff or nsec. */
  lemma SystemTimeIgnoresZoneAndNanos(a: TmRec, b: TmRec)
    requires SameCalendarFields(a, b)
    ensures TmToSystemTime(a) == TmToSystemTime(b)
  {
  }

  // ---------------------------------------------------------------- yday

  /** The closed-form day-of-year as the source computes it from years since
      1900, a 1-based month and a day; the arguments its only caller passes
      are `u16`-derived, so no step overflows `i32`. For a month in 1..12 it is
      exact for January to July and for September and November, one too high
      for August, October and December, with the leap test `year % 4 == 0`
      applied to years since 1900 (the Julian rule). */
  function YdayAsWritten(year: int, month: int, day: int): (r: int32)
    requires -TWO_16 <= year <= TWO_16 && 0 <= month <= TWO_16 && 0 <= day < TWO_16
    ensures 1 <= month <= 12 ==>
              r == DaysBeforeMonth(year % 4 == 0, month) + day - 1 +
                   (if month == 8 || month == 10 || month == 12 then 1 else 0)
  {
    var leap := if month > 2 then (if TruncRem(year, 4) == 0 then 1 else 2) else 0;
    var july := if month > 7 then 1 else 0;
    (month - 1) * 30 + month / 2 + (day - 1) - leap + july
  }

  /** Counterexample: 1 August 2023 is day 212, the formula says 213. */
  lemma YdayAugustOffByOne()
    ensures YdayAsWritten(123, 8, 1) == 213
    ensures DaysBeforeMonth(IsLeapYear(2023), 8) + 1 - 1 == 212
  {
  }

  /** Counterexample: 31 December of the leap year 2024 gives 366, outside
      the documented range [0, 365]. */
  lemma YdayLeapYearEndOutOfRange()
    ensures YdayAsWritten(124, 12, 31) == 366
  {
  }

  /** Counterexample: 1900 is not a leap year, so 1 March 1900 is day 59; the
      formula counts 1900 (and likewise 2100) as leap and says 60. */
  lemma YdayCenturyLeap()
    ensures YdayAsWritten(0, 3, 1) == 60 && YdayAsWritten(200, 3, 1) == 60
    ensures !IsLeapYear(1900) && !IsLeapYear(2100)
    ensures DaysBeforeMonth(IsLeapYear(1900), 3) + 1 - 1 == 59
  {
  }

  /** Day-of-year with both defects repaired: the month term rounds
      `(month + july) / 2`, and the leap test is the Gregorian one on the
      calendar year `year + 1900`. For every month it is the 0-based day of
      the year. */
  function Yday(year: int, month: int, day: int): (r: int32)
    requires -TWO_16 <= year <= TWO_16 && 0 <= month <= TWO_16 && 0 <= day < TWO_16
    ensures 1 <= month <= 12 ==> r == DaysBeforeMonth(IsLeapYear(year + 1900), month) + day - 1
  {
    var leap := if month > 2 then (if IsLeapYear(year + 1900) then 1 else 2) else 0;
    var july := if month > 7 then 1 else 0;
    (month - 1) * 30 + (month + july) / 2 + (day - 1) - leap
  }

  /** On a valid date the repaired day-of-year lies in [0, 365], is 0 on
      1 January and is 365 on 31 December exactly in leap years. */
  lemma YdayRange(year: int, month: int, day: int)
    requires -1900 <= year <= TWO_16 - 1900 && ValidDate(year + 1900, month, day)
    ensures 0 <= Yday(year, month, day) <= 365
    ensures month == 1 && day == 1 ==> Yday(year, month, day) == 0
    ensures month == 12 && day == 31 ==> (Yday(year, month, day) == 365 <==> IsLeapYear(year + 1900))
  {
  }

  // ---------------------------------------------------- SYSTEMTIME to Tm

  /** `system_time_to_tm` as written: month and year are shifted in `u16`
      arithmetic, so a year before 1900 wraps around. The time of day, day and
      weekday are copied, the day of year is the source's formula on the
      shifted fields; fields the function does not write (isdst, utcoff,
      nsec) are kept from `t`. */
  function FromSystemTimeAsWritten(sys: SystemTime, t: TmRec): (r: TmRec)
    ensures r.sec == sys.second && r.min == sys.minute && r.hour == sys.hour &&
            r.mday == sys.day && r.wday == sys.dayOfWeek
    ensures r.isdst == t.isdst && r.utcoff == t.utcoff && r.nsec == t.nsec
    ensures 1 <= sys.month ==> r.mon == sys.month - 1
    ensures sys.month == 0 ==> r.mon == TWO_16 - 1
    ensures 0 <= r.year < TWO_16
    ensures 1900 <= sys.year ==> r.year == sys.year - 1900
    ensures r.yday == YdayAsWritten(r.year, r.mon + 1, r.mday)
  {
    var mon := WrapU16(sys.month - 1);
    var year := WrapU16(sys.year - 1900);
    t.(sec := sys.second, min := sys.minute, hour := sys.hour, mday := sys.day,
       wday := sys.dayOfWeek, mon := mon, year := year,
       yday := YdayAsWritten(year, mon + 1, sys.day))
  }

  /** Counterexample: a SYSTEMTIME in 1899 becomes years-since-1900 65535,
      i.e. the year 67435, instead of -1. */
  lemma SystemTimeYearUnderflow(sys: SystemTime, t: TmRec)
    requires sys.year < 1900
    ensures FromSystemTimeAsWritten(sys, t).year == sys.year + TWO_16 - 1900
    ensures FromSystemTimeAsWritten(sys, t).year != sys.year - 1900
  {
  }

  /** `system_time_to_tm` with the shifts done in signed arithmetic and the
      repaired day-of-year. */
  function FromSystemTime(sys: SystemTime, t: TmRec): TmRec
  {
    var mon := sys.month - 1;
    var year := sys.year - 1900;
    t.(sec := sys.second, min := sys.minute, hour := sys.hour, mday := sys.day,
       wday := sys.dayOfWeek, mon := mon, year := year,
       yday := Yday(year, mon + 1, sys.day))
  }

  /** The calendar year a SYSTEMTIME year is read back as, once
      `system_time_to_tm` has shifted it in `u16` and `tm_to_datetime` has
      added 1900 again: itself from 1900 on, 65536 years later before that. */
  function YearAsRead(year: uint16): (r: int)
    ensures 1900 <= year ==> r == year
    ensures year < 1900 ==> r == year + TWO_16
  {
    WrapU16(year - 1900) + 1900
  }

  /** `system_time_to_tm`: fills a `Tm` in place as the code is written, every
      field but isdst, utcoff and nsec. */
  method SystemTimeToTm(sys: SystemTime, tm: Tm)
    modifies tm
    ensures tm.Value() == FromSystemTimeAsWritten(sys, old(tm.Value()))
  {
    tm.sec := sys.second;
    tm.min := sys.minute;
    tm.hour := sys.hour;
    tm.mday := sys.day;
    tm.wday := sys.dayOfWeek;
    tm.mon := WrapU16(sys.month - 1);
    tm.year := WrapU16(sys.year - 1900);
    tm.yday := YdayAsWritten(tm.year, tm.mon + 1, tm.mday);
  }

  /** The documented ranges of the seven calendar fields, with a year that a
      SYSTEMTIME can hold. */
  predicate InSystemTimeRange(t: TmRec)
  {
    0 <= t.sec <= 60 && 0 <= t.min <= 59 && 0 <= t.hour <= 23 && 1 <= t.mday <= 31 &&
    0 <= t.wday <= 6 && 0 <= t.mon <= 11 && -1900 <= t.year <= 0xFFFF - 1900
  }

  /** Tm -> SYSTEMTIME -> Tm restores the seven calendar fields, keeps isdst,
      utcoff and nsec, and only recomputes yday. */
  lemma TmSystemTimeRoundTrip(t: TmRec)
    requires InSystemTimeRange(t)
    ensures FromSystemTime(TmToSystemTime(t), t) == t.(yday := Yday(t.year, t.mon + 1, t.mday))
  {
  }

  /** The as-written mapping round-trips only from 1900 on. */
  lemma TmSystemTimeRoundTripAsWritten(t: TmRec)
    requires InSystemTimeRange(t) && 0 <= t.year
    ensures FromSystemTimeAsWritten(TmToSystemTime(t), t) == t.(yday := YdayAsWritten(t.year, t.mon + 1, t.mday))
  {
  }

  /** SYSTEMTIME -> Tm -> SYSTEMTIME gives the SYSTEMTIME back (milliseconds
      are not carried by `Tm`). */
  lemma SystemTimeTmRoundTrip(sys: SystemTime, t: TmRec)
    requires sys.milliseconds == 0
    ensures TmToSystemTime(FromSystemTime(sys, t)) == sys
  {
  }

  /** The as-written mapping also gives every SYSTEMTIME back: its `u16`
      wrap-around is undone by the `u16` cast on the way out, so the host
      round trip hides the year underflow. */
  lemma SystemTimeTmRoundTripAsWritten(sys: SystemTime, t: TmRec)
    requires sys.milliseconds == 0
    ensures TmToSystemTime(FromSystemTimeAsWritten(sys, t)) == sys
  {
  }
}
