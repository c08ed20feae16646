/** `naive_to_local`: a naive calendar value, read either as UTC or as local
    wall-clock time, resolved to a zoned timestamp through the host. */
module Resolve {
  import opened Ints
  import opened Calendar
  import opened FileTimes
  import opened BrokenDown
  import opened Outcomes
  import opened Platform
  import opened Assembly

  /** A chrono `NaiveDateTime` as its accessors show it: a valid date, a
      time of day, and nanoseconds that reach past 10^9 only for a leap second. */
  datatype NaiveDateTime = NaiveDateTime(
    year: int, month: int, day: int, hour: int, minute: int, second: int, nanosecond: int)
  {
    predicate Valid()
    {
      ValidDate(year, month, day) && ValidTime(hour, minute, second, nanosecond)
    }
  }

  /** The record built from the caller's value: years since 1900, 0-based
      month, DST unknown, offset field 1 as a marker for a local reading (0
      for UTC), weekday and day of year left 0, and no nanoseconds. */
  function InitialTm(d: NaiveDateTime, local: bool): (t: TmRec)
    requires d.Valid()
    ensures t.isdst == -1 && t.nsec == 0 && t.wday == 0 && t.yday == 0
    ensures t.utcoff == 1 <==> local
    ensures t.utcoff == 0 <==> !local
  {
    TmRec(sec := d.second, min := d.minute, hour := d.hour, mday := d.day,
          mon := d.month - 1, year := d.year - 1900, wday := 0, yday := 0,
          isdst := -1, utcoff := if local then 1 else 0, nsec := 0)
  }

  /** For every valid value, the host receives the caller's month, day and
      time of day unchanged, and the year cast to `u16`: a year outside
      0..65535 reaches the host wrapped modulo 65536. */
  lemma InitialTmSystemTime(d: NaiveDateTime, local: bool)
    requires d.Valid()
    ensures TmToSystemTime(InitialTm(d, local)) ==
            SystemTime(WrapU16(d.year), d.month, 0, d.day, d.hour, d.minute, d.second, 0)
    ensures TWO_16 <= d.year ==> TmToSystemTime(InitialTm(d, local)).year == d.year - TWO_16 * (d.year / TWO_16)
    ensures d.year < 0 ==> TmToSystemTime(InitialTm(d, local)).year != d.year
  {
    assert WrapI32(d.year - 1900 + 1900) == d.year;
    assert WrapI32(d.month - 1 + 1) == d.month;
  }

  /** The record hands the host exactly the caller's calendar reading (for any
      year a SYSTEMTIME can hold), with no sub-second part. */
  lemma InitialTmEncodesNaive(d: NaiveDateTime, local: bool)
    requires d.Valid() && 0 <= d.year < TWO_16
    ensures TmToSystemTime(InitialTm(d, local)) ==
            SystemTime(d.year, d.month, 0, d.day, d.hour, d.minute, d.second, 0)
    ensures InitialTm(d, local).nsec == 0
  {
    InitialTmSystemTime(d, local);
  }

  /** Seconds for the record from the UTC or the local host path. */
  function HostSeconds(host: Host, t: TmRec, local: bool): Result<int64>
  {
    if local then LocalTmToTime(host, t) else UtcTmToTime(host, t)
  }

  /** What `naive_to_local` returns: the host path gives the seconds, those
      are projected back to a local record (whose nanoseconds are 0 at this
      point, since the projection copies the 0 it was given), the caller's
      nanoseconds are put back, and the record is assembled. */
  function Resolved(host: Host, d: NaiveDateTime, local: bool): (r: Result<LocalResult>)
    requires d.Valid()
    ensures HostSeconds(host, InitialTm(d, local), local).Fail? ==>
              r == Fail(HostSeconds(host, InitialTm(d, local), local).fault)
    ensures HostSeconds(host, InitialTm(d, local), local).Ok? ==>
              var s := HostSeconds(host, InitialTm(d, local), local).value;
              (LocalTm(host, s, ZERO_TM).Fail? ==> r == Fail(LocalTm(host, s, ZERO_TM).fault)) &&
              (LocalTm(host, s, ZERO_TM).Ok? ==>
                 LocalTm(host, s, ZERO_TM).value.nsec == 0 &&
                 r == Assembled(LocalTm(host, s, ZERO_TM).value.(nsec := d.nanosecond)))
    ensures r.Ok? ==> !r.value.Ambiguous?
  {
    match HostSeconds(host, InitialTm(d, local), local)
    case Fail(f) => Fail(f)
    case Ok(s) =>
      match LocalTm(host, s, ZERO_TM)
      case Fail(f) => Fail(f)
      case Ok(t) => Assembled(t.(nsec := d.nanosecond))
  }

  /** `naive_to_local`. The check that the nanoseconds read 0 after the host
      round trip is proved, not tested. */
  method NaiveToLocal(host: Host, d: NaiveDateTime, local: bool) returns (r: Result<LocalResult>)
    requires d.Valid()
    ensures r == Resolved(host, d, local)
  {
    var tm := InitialTm(d, local);
    var secs := if local then LocalTmToTime(host, tm) else UtcTmToTime(host, tm);
    if secs.Fail? {
      return Fail(secs.fault);
    }
    var spec := Timespec(secs.value, tm.nsec);
    var projected := Local(host, spec);
    if projected.Fail? {
      return Fail(projected.fault);
    }
    var t := projected.value;
    assert t.nsec == 0;
    t.nsec := d.nanosecond;
    r := TmToDatetime(t);
  }

  /** `Resolved` from its two host results: the seconds `s` and the local
      record `t` for them. */
  lemma ResolvedFromParts(host: Host, d: NaiveDateTime, local: bool, s: int64, t: TmRec)
    requires d.Valid()
    requires HostSeconds(host, InitialTm(d, local), local) == Ok(s)
    requires LocalTm(host, s, ZERO_TM) == Ok(t)
    ensures Resolved(host, d, local) == Assembled(t.(nsec := d.nanosecond))
  {
  }

  /** `Resolved` once the host has produced the seconds `s` and the local
      record for them, filled from the SYSTEMTIME `l` with offset `k`. */
  lemma ResolvedFromLocalReading(
    host: Host, d: NaiveDateTime, local: bool, s: int64, k: int32, isdst: int32, l: SystemTime)
    requires d.Valid()
    requires HostSeconds(host, InitialTm(d, local), local) == Ok(s)
    requires LocalTm(host, s, ZERO_TM) == Ok(FromSystemTimeAsWritten(l, ZERO_TM).(utcoff := k, isdst := isdst))
    requires ValidDate(YearAsRead(l.year), l.month, l.day) && ValidTime(l.hour, l.minute, l.second, 0)
    requires ValidOffset(k)
    ensures Resolved(host, d, local) ==
            Ok(Single(DateTime(CivilSeconds(YearAsRead(l.year), l.month, l.day, l.hour, l.minute, l.second) - k,
                               d.nanosecond, k)))
  {
    ResolvedFromParts(host, d, local, s, FromSystemTimeAsWritten(l, ZERO_TM).(utcoff := k, isdst := isdst));
    AssembledSystemTime(l, ZERO_TM, k, isdst, d.nanosecond);
  }

  /** When the host resolves the reading to second `s`, reads `s` back as
      the local SYSTEMTIME `l` that it encodes as `s + k`, and `k` is a valid
      offset, the result is a single instant shown at offset `k` with the
      caller's nanoseconds: the local reading of `l`, with its year as the
      source reads it back, minus `k`. */
  lemma ResolveReading(
    host: Host, d: NaiveDateTime, local: bool, s: int64, k: int32, u: SystemTime, l: SystemTime)
    requires d.Valid()
    requires HostSeconds(host, InitialTm(d, local), local) == Ok(s)
    requires IsInt64(s * HECTONANOSECS_IN_SEC) && IsInt64(s + k) && IsInt64((s + k) * HECTONANOSECS_IN_SEC)
    requires host.fileTimeToSystemTime(TimeToFileTime(s)) == Success(u)
    requires host.systemTimeToTzSpecificLocalTime(u) == Success(l)
    requires host.systemTimeToFileTime(l) == Success(TimeToFileTime(s + k))
    requires ValidDate(YearAsRead(l.year), l.month, l.day) && ValidTime(l.hour, l.minute, l.second, 0)
    requires ValidOffset(k)
    ensures Resolved(host, d, local) ==
            Ok(Single(DateTime(CivilSeconds(YearAsRead(l.year), l.month, l.day, l.hour, l.minute, l.second) - k,
                               d.nanosecond, k)))
  {
    LocalOffsetFromShift(host, s, k, ZERO_TM, u, l);
    ResolvedFromLocalReading(host, d, local, s, k, if k == StandardOffset(host.timeZoneInformation) then 0 else 1, l);
  }

  /** For a local reading from 1900 on that the host encodes as `s + k`, the
      result is the single instant `s` shown at offset `k`, carrying the
      caller's nanoseconds. */
  lemma ResolveSingle(
    host: Host, d: NaiveDateTime, local: bool, s: int64, k: int32, u: SystemTime, l: SystemTime)
    requires d.Valid()
    requires HostSeconds(host, InitialTm(d, local), local) == Ok(s)
    requires IsInt64(s * HECTONANOSECS_IN_SEC) && IsInt64(s + k) && IsInt64((s + k) * HECTONANOSECS_IN_SEC)
    requires host.fileTimeToSystemTime(TimeToFileTime(s)) == Success(u)
    requires host.systemTimeToTzSpecificLocalTime(u) == Success(l)
    requires host.systemTimeToFileTime(l) == Success(TimeToFileTime(s + k))
    requires 1900 <= l.year
    requires ValidDate(l.year, l.month, l.day) && ValidTime(l.hour, l.minute, l.second, 0)
    requires CivilSeconds(l.year, l.month, l.day, l.hour, l.minute, l.second) == s + k
    requires ValidOffset(k)
    ensures Resolved(host, d, local) == Ok(Single(DateTime(s, d.nanosecond, k)))
  {
    assert YearAsRead(l.year) == l.year;
    assert CivilSeconds(YearAsRead(l.year), l.month, l.day, l.hour, l.minute, l.second) - k == s;
    ResolveReading(host, d, local, s, k, u, l);
  }

  /** Resolving a UTC reading: if the host encodes the calendar reading as its
      own civil second count, and reads that instant back as a local time from
      1900 on, the timestamp is that instant, whatever the zone offset `k` it
      is shown at. */
  lemma ResolveUtcInstant(
    host: Host, d: NaiveDateTime, s: int64, k: int32, u: SystemTime, l: SystemTime)
    requires d.Valid()
    requires s == CivilSeconds(d.year, d.month, d.day, d.hour, d.minute, d.second)
    requires IsInt64(s * HECTONANOSECS_IN_SEC) && IsInt64(s + k) && IsInt64((s + k) * HECTONANOSECS_IN_SEC)
    requires host.systemTimeToFileTime(TmToSystemTime(InitialTm(d, false))) == Success(TimeToFileTime(s))
    requires host.fileTimeToSystemTime(TimeToFileTime(s)) == Success(u)
    requires host.systemTimeToTzSpecificLocalTime(u) == Success(l)
    requires host.systemTimeToFileTime(l) == Success(TimeToFileTime(s + k))
    requires 1900 <= l.year
    requires ValidDate(l.year, l.month, l.day) && ValidTime(l.hour, l.minute, l.second, 0)
    requires CivilSeconds(l.year, l.month, l.day, l.hour, l.minute, l.second) == s + k
    requires ValidOffset(k)
    ensures Resolved(host, d, false) == Ok(Single(DateTime(s, d.nanosecond, k)))
  {
    UtcTmToTimeExact(host, InitialTm(d, false), s);
    ResolveSingle(host, d, false, s, k, u, l);
  }

  /** The readings the two counterexamples below compare name different
      instants. */
  lemma WrappedYearsDiffer()
    ensures CivilSeconds(67386, 6, 1, 12, 0, 0) != CivilSeconds(1850, 6, 1, 12, 0, 0)
    ensures CivilSeconds(67559, 6, 1, 12, 0, 0) != CivilSeconds(2023, 6, 1, 12, 0, 0)
  {
  }

  /** Counterexample: on a host in UTC that answers consistently, noon on
      1 June 1850 read as UTC resolves not to that instant but to noon on
      1 June 67386, because `system_time_to_tm` shifts the year in `u16`. */
  lemma ResolveUtcBefore1900()
    ensures var d := NaiveDateTime(1850, 6, 1, 12, 0, 0, 0);
            var s := CivilSeconds(1850, 6, 1, 12, 0, 0);
            var sys := SystemTime(1850, 6, 6, 1, 12, 0, 0, 0);
            IsInt64(s) &&
            var host := Host(_ => Success(sys), st => Success(st), st => Success(st),
                             _ => Success(TimeToFileTime(s)), TimeZoneInformation(0, 0));
            Resolved(host, d, false) == Ok(Single(DateTime(CivilSeconds(67386, 6, 1, 12, 0, 0), 0, 0))) &&
            CivilSeconds(67386, 6, 1, 12, 0, 0) != s
  {
    var d := NaiveDateTime(1850, 6, 1, 12, 0, 0, 0);
    var s: int64 := CivilSeconds(1850, 6, 1, 12, 0, 0);
    var sys := SystemTime(1850, 6, 6, 1, 12, 0, 0, 0);
    var host := Host(_ => Success(sys), st => Success(st), st => Success(st),
                     _ => Success(TimeToFileTime(s)), TimeZoneInformation(0, 0));
    UtcTmToTimeExact(host, InitialTm(d, false), s);
    ResolveReading(host, d, false, s, 0, sys, sys);
    WrappedYearsDiffer();
  }

  /** Counterexample: noon on 1 June 67559, a valid value, reaches the host as
      noon on 1 June 2023 (the year cast to `u16` on the way in), and on a
      host in UTC that answers consistently it resolves to that instant in
      2023. */
  lemma ResolveUtcAfter65535()
    ensures var d := NaiveDateTime(67559, 6, 1, 12, 0, 0, 0);
            var s := CivilSeconds(2023, 6, 1, 12, 0, 0);
            var sys := SystemTime(2023, 6, 4, 1, 12, 0, 0, 0);
            IsInt64(s) &&
            var host := Host(_ => Success(sys), st => Success(st), st => Success(st),
                             _ => Success(TimeToFileTime(s)), TimeZoneInformation(0, 0));
            TmToSystemTime(InitialTm(d, false)).year == 2023 &&
            Resolved(host, d, false) == Ok(Single(DateTime(s, 0, 0))) &&
            CivilSeconds(67559, 6, 1, 12, 0, 0) != s
  {
    var d := NaiveDateTime(67559, 6, 1, 12, 0, 0, 0);
    var s: int64 := CivilSeconds(2023, 6, 1, 12, 0, 0);
    var sys := SystemTime(2023, 6, 4, 1, 12, 0, 0, 0);
    var host := Host(_ => Success(sys), st => Success(st), st => Success(st),
                     _ => Success(TimeToFileTime(s)), TimeZoneInformation(0, 0));
    InitialTmSystemTime(d, false);
    UtcTmToTimeExact(host, InitialTm(d, false), s);
    ResolveReading(host, d, false, s, 0, sys, sys);
    WrappedYearsDiffer();
  }
}
