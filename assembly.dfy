/** `tm_to_datetime`: a broken-down local reading with its UTC offset becomes
    a zoned timestamp, after a leap second has been folded into the
    nanoseconds. */
module Assembly {
  import opened Ints
  import opened Calendar
  import opened BrokenDown
  import opened Outcomes

  const NANOS_PER_SEC: int := 1_000_000_000
  const SECS_PER_DAY: int := 86_400

  /** A `DateTime<Local>`: an instant on the UTC time line (seconds since
      1970-01-01T00:00:00Z and the nanoseconds, which may reach 2 * 10^9 - 1 to
      carry a leap second) shown at a fixed offset east of UTC. */
  datatype DateTime = DateTime(utcSeconds: int, nanosecond: int, offset: int)

  /** chrono's `LocalResult`: no instant, exactly one, or two candidates. */
  datatype LocalResult = None | Single(dt: DateTime) | Ambiguous(earliest: DateTime, latest: DateTime)

  /** What `NaiveTime::from_hms_nano_opt` accepts; nanoseconds up to
      2 * 10^9 - 1 stand for a leap second. */
  predicate ValidTime(hour: int, minute: int, second: int, nano: int)
  {
    0 <= hour < 24 && 0 <= minute < 60 && 0 <= second < 60 && 0 <= nano < 2 * NANOS_PER_SEC
  }

  /** What `FixedOffset::east_opt` accepts: strictly less than a day either way. */
  predicate ValidOffset(secs: int)
  {
    -SECS_PER_DAY < secs < SECS_PER_DAY
  }

  /** Seconds of a civil date and time counted from 1970-01-01T00:00:00. */
  function CivilSeconds(year: int, month: int, day: int, hour: int, minute: int, second: int): int
  {
    DaysFromCivil(year, month, day) * SECS_PER_DAY + hour * 3600 + minute * 60 + second
  }

  /** The date arguments as `tm_to_datetime` passes them on: `tm_year + 1900`
      in `i32`, `tm_mon as u32 + 1` and `tm_mday as u32`. */
  function DateYear(t: TmRec): int { WrapI32(t.year + 1900) }
  function DateMonth(t: TmRec): int { WrapU32(WrapU32(t.mon) + 1) }
  function DateDay(t: TmRec): int { WrapU32(t.mday) }

  predicate HasValidDate(t: TmRec)
  {
    ValidDate(DateYear(t), DateMonth(t), DateDay(t))
  }

  /** The time arguments, each cast with `as u32`. */
  predicate HasValidTime(t: TmRec)
  {
    ValidTime(WrapU32(t.hour), WrapU32(t.min), WrapU32(t.sec), WrapU32(t.nsec))
  }

  /** The local reading of a record, in seconds since 1970-01-01T00:00:00 local. */
  function LocalSeconds(t: TmRec): int
  {
    CivilSeconds(DateYear(t), DateMonth(t), DateDay(t), t.hour, t.min, t.sec)
  }

  /** The leap-second clamp on a record: a second of 60 or more becomes 59
      and the excess whole seconds move into the nanoseconds (in `i32`). No
      other field changes; within the documented ranges nothing wraps and the
      elapsed time `sec * 10^9 + nsec` is kept. */
  function ClampLeapSecond(t: TmRec): (r: TmRec)
    ensures t.sec < 60 ==> r == t
    ensures t.sec >= 60 ==> r.sec == 59 && r == t.(sec := r.sec, nsec := r.nsec)
    ensures 0 <= t.sec <= 60 && 0 <= t.nsec < NANOS_PER_SEC ==>
              r.sec * NANOS_PER_SEC + r.nsec == t.sec * NANOS_PER_SEC + t.nsec &&
              0 <= r.sec <= 59 && 0 <= r.nsec < 2 * NANOS_PER_SEC
  {
    if t.sec >= 60 then
      t.(nsec := WrapI32(t.nsec + WrapI32((t.sec - 59) * NANOS_PER_SEC)), sec := 59)
    else
      t
  }

  /** The clamp's `i32` arithmetic overflows once the second passes 60: a
      second of 61 with half a second of nanoseconds wraps to a negative
      count, and 62 already overflows the multiplication. */
  lemma ClampOverflowsPastSixty()
    ensures ClampLeapSecond(ZERO_TM.(sec := 61, nsec := 500_000_000)).nsec == -1_794_967_296
    ensures !IsInt32((62 - 59) * NANOS_PER_SEC)
  {
  }

  /** What `tm_to_datetime` returns for a record: a fault where it panics on
      an impossible date or offset, `None` for an impossible time of day, and
      otherwise a single instant, the local reading minus the offset. It never
      reports an ambiguous reading. */
  function Assembled(t: TmRec): (r: Result<LocalResult>)
    ensures r.Ok? ==> !r.value.Ambiguous?
    ensures r == Fail(InvalidDate) <==> !HasValidDate(ClampLeapSecond(t))
    ensures r == Ok(None) <==> HasValidDate(ClampLeapSecond(t)) && !HasValidTime(ClampLeapSecond(t))
    ensures r == Fail(InvalidOffset) <==>
              HasValidDate(ClampLeapSecond(t)) && HasValidTime(ClampLeapSecond(t)) && !ValidOffset(ClampLeapSecond(t).utcoff)
    ensures r.Ok? && r.value.Single? <==>
              HasValidDate(ClampLeapSecond(t)) && HasValidTime(ClampLeapSecond(t)) && ValidOffset(ClampLeapSecond(t).utcoff)
    ensures r.Ok? && r.value.Single? ==>
              var c := ClampLeapSecond(t);
              r.value.dt == DateTime(LocalSeconds(c) - c.utcoff, c.nsec, c.utcoff)
  {
    var c := ClampLeapSecond(t);
    if !HasValidDate(c) then Fail(InvalidDate)
    else if !HasValidTime(c) then Ok(None)
    else if !ValidOffset(c.utcoff) then Fail(InvalidOffset)
    else Ok(Single(DateTime(LocalSeconds(c) - c.utcoff, c.nsec, c.utcoff)))
  }

  /** `tm_to_datetime(mut tm)`: clamps the record in place, then assembles it. */
  method TmToDatetime(tm: Tm) returns (r: Result<LocalResult>)
    modifies tm
    ensures tm.Value() == ClampLeapSecond(old(tm.Value()))
    ensures r == Assembled(old(tm.Value()))
  {
    if tm.sec >= 60 {
      tm.nsec := WrapI32(tm.nsec + WrapI32((tm.sec - 59) * NANOS_PER_SEC));
      tm.sec := 59;
    }
    var c := tm.Value();
    var year, month, day := WrapI32(tm.year + 1900), WrapU32(WrapU32(tm.mon) + 1), WrapU32(tm.mday);
    if !ValidDate(year, month, day) {
      return Fail(InvalidDate);
    }
    if !ValidTime(WrapU32(tm.hour), WrapU32(tm.min), WrapU32(tm.sec), WrapU32(tm.nsec)) {
      return Ok(None);
    }
    if !ValidOffset(tm.utcoff) {
      return Fail(InvalidOffset);
    }
    var local := CivilSeconds(year, month, day, tm.hour, tm.min, tm.sec);
    return Ok(Single(DateTime(local - tm.utcoff, tm.nsec, tm.utcoff)));
  }

  /** A leap second keeps its place on the time line: a valid reading at
      second 60 assembles to the instant one second after second 59, with the
      extra second carried in the nanoseconds. */
  lemma LeapSecondKeepsInstant(t: TmRec)
    requires t.sec == 60 && 0 <= t.nsec < NANOS_PER_SEC
    requires 0 <= t.hour < 24 && 0 <= t.min < 60 && ValidOffset(t.utcoff)
    requires HasValidDate(t)
    ensures Assembled(t).Ok? && Assembled(t).value.Single?
    ensures var dt := Assembled(t).value.dt;
            dt.utcSeconds * NANOS_PER_SEC + dt.nanosecond ==
              (LocalSeconds(t) - t.utcoff) * NANOS_PER_SEC + t.nsec
  {
    var c := ClampLeapSecond(t);
    assert c == t.(sec := 59, nsec := t.nsec + NANOS_PER_SEC);
    assert HasValidDate(c) && HasValidTime(c);
    assert LocalSeconds(c) == LocalSeconds(t) - 1;
  }

  /** A valid reading below second 60 whose local seconds are `s` plus its
      offset assembles to the single instant `s`, shown at that offset. */
  lemma AssembledAtInstant(t: TmRec, s: int)
    requires t.sec < 60 && HasValidDate(t) && HasValidTime(t) && ValidOffset(t.utcoff)
    requires LocalSeconds(t) == s + t.utcoff
    ensures Assembled(t) == Ok(Single(DateTime(s, t.nsec, t.utcoff)))
  {
    assert ClampLeapSecond(t) == t;
  }

  /** A record filled from a SYSTEMTIME by `system_time_to_tm` as written and
      then given an offset `k`, a DST flag and nanoseconds `n`, with a valid
      date (in the year the record reads back as), time of day and offset,
      assembles to the single instant its local reading names, with those
      nanoseconds and that offset. */
  lemma AssembledSystemTime(l: SystemTime, t: TmRec, k: int32, isdst: int32, n: int32)
    requires ValidDate(YearAsRead(l.year), l.month, l.day) && ValidTime(l.hour, l.minute, l.second, n)
    requires ValidOffset(k)
    ensures Assembled(FromSystemTimeAsWritten(l, t).(utcoff := k, isdst := isdst).(nsec := n)) ==
            Ok(Single(DateTime(CivilSeconds(YearAsRead(l.year), l.month, l.day, l.hour, l.minute, l.second) - k, n, k)))
  {
    var r := FromSystemTimeAsWritten(l, t).(utcoff := k, isdst := isdst).(nsec := n);
    assert DateYear(r) == YearAsRead(l.year) && DateMonth(r) == l.month && DateDay(r) == l.day;
    AssembledAtInstant(r, CivilSeconds(YearAsRead(l.year), l.month, l.day, l.hour, l.minute, l.second) - k);
  }

  /** An impossible calendar date reaching the assembler is a fault (the
      source unwraps the date), not a `None` result: 30 February 2023. */
  lemma InvalidDateIsFault()
    ensures Assembled(ZERO_TM.(year := 123, mon := 1, mday := 30)) == Fail(InvalidDate)
  {
  }

  /** A zone five hours behind UTC: noon on 1 June 2023 local is 17:00 UTC. */
  lemma OffsetSignConvention()
    ensures Assembled(ZERO_TM.(year := 123, mon := 5, mday := 1, hour := 12, utcoff := -18_000))
            == Ok(Single(DateTime(CivilSeconds(2023, 6, 1, 17, 0, 0), 0, -18_000)))
  {
  }
}
