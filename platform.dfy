/** The host side of the conversions: the Win32 time calls are supplied as a
    record of functions (they depend on the machine's zone database), and the
    model describes what the source does with their results. */
module Platform {
  import opened Ints
  import opened FileTimes
  import opened BrokenDown
  import opened Outcomes

  /** The result of a Win32 call: the output it wrote, or a zero return. */
  datatype Status<+T> = Success(out: T) | Failure

  /** The part of TIME_ZONE_INFORMATION the source reads, `Bias` and
      `StandardBias`: biases in minutes, UTC = local time + bias. */
  datatype TimeZoneInformation = TimeZoneInformation(bias: int32, standardBias: int32)

  /** The machine's time services, as seen at the moment of the conversion.
      `timeZoneInformation` is whatever GetTimeZoneInformation wrote; its
      return value is not checked. */
  datatype Host = Host(
    fileTimeToSystemTime: FileTime -> Status<SystemTime>,
    systemTimeToTzSpecificLocalTime: SystemTime -> Status<SystemTime>,
    tzSpecificLocalTimeToSystemTime: SystemTime -> Status<SystemTime>,
    systemTimeToFileTime: SystemTime -> Status<FileTime>,
    timeZoneInformation: TimeZoneInformation)

  /** Seconds and nanoseconds since the Unix epoch. */
  datatype Timespec = Timespec(sec: int64, nsec: int32)

  /** `system_time_to_file_time`: the return value of SystemTimeToFileTime is
      not checked, so a failed call leaves the zeroed FILETIME, which reads as
      1601-01-01, 11_644_473_600 seconds before the Unix epoch. */
  function SystemTimeToFileTimeUnchecked(host: Host, sys: SystemTime): (ft: FileTime)
    ensures host.systemTimeToFileTime(sys).Success? ==> ft == host.systemTimeToFileTime(sys).out
    ensures host.systemTimeToFileTime(sys).Failure? ==>
              FileTimeAsU64(ft) == 0 && FileTimeToUnixSeconds(ft) == -11_644_473_600
  {
    match host.systemTimeToFileTime(sys)
    case Success(ft) => ft
    case Failure => FileTime(0, 0)
  }

  /** `utc_tm_to_time`: the calendar fields read as UTC, through the host's
      calendar arithmetic, to Unix seconds. */
  function UtcTmToTime(host: Host, t: TmRec): (r: Result<int64>)
    ensures r.Fail? <==> host.systemTimeToFileTime(TmToSystemTime(t)).Failure?
    ensures r.Fail? ==> r.fault == HostCallFailed(SystemTimeToFileTime)
    ensures r.Ok? ==> r.value == FileTimeToUnixSeconds(host.systemTimeToFileTime(TmToSystemTime(t)).out)
  {
    match host.systemTimeToFileTime(TmToSystemTime(t))
    case Failure => Fail(HostCallFailed(SystemTimeToFileTime))
    case Success(ft) => Ok(FileTimeToUnixSeconds(ft))
  }

  /** `local_tm_to_time`: the calendar fields read as local wall-clock time,
      converted to UTC by the host, then to Unix seconds. */
  function LocalTmToTime(host: Host, t: TmRec): (r: Result<int64>)
    ensures r.Ok? <==>
              host.tzSpecificLocalTimeToSystemTime(TmToSystemTime(t)).Success? &&
              host.systemTimeToFileTime(host.tzSpecificLocalTimeToSystemTime(TmToSystemTime(t)).out).Success?
    ensures r.Fail? ==>
              r.fault == if host.tzSpecificLocalTimeToSystemTime(TmToSystemTime(t)).Failure?
                         then HostCallFailed(TzSpecificLocalTimeToSystemTime)
                         else HostCallFailed(SystemTimeToFileTime)
    ensures r.Ok? ==>
              r.value == FileTimeToUnixSeconds(
                           host.systemTimeToFileTime(host.tzSpecificLocalTimeToSystemTime(TmToSystemTime(t)).out).out)
  {
    match host.tzSpecificLocalTimeToSystemTime(TmToSystemTime(t))
    case Failure => Fail(HostCallFailed(TzSpecificLocalTimeToSystemTime))
    case Success(utc) =>
      match host.systemTimeToFileTime(utc)
      case Failure => Fail(HostCallFailed(SystemTimeToFileTime))
      case Success(ft) => Ok(FileTimeToUnixSeconds(ft))
  }

  /** Neither host path reads yday, isdst, utcoff or nsec: two records that
      agree on the calendar fields resolve to the same seconds. */
  lemma HostPathIgnoresZoneAndNanos(host: Host, a: TmRec, b: TmRec)
    requires SameCalendarFields(a, b)
    ensures UtcTmToTime(host, a) == UtcTmToTime(host, b)
    ensures LocalTmToTime(host, a) == LocalTmToTime(host, b)
  {
    SystemTimeIgnoresZoneAndNanos(a, b);
  }

  /** When the host encodes the SYSTEMTIME as a whole number of seconds `s`,
      the UTC path returns exactly `s`. */
  lemma UtcTmToTimeExact(host: Host, t: TmRec, s: int64)
    requires IsInt64(s * HECTONANOSECS_IN_SEC)
    requires host.systemTimeToFileTime(TmToSystemTime(t)) == Success(TimeToFileTime(s))
    ensures UtcTmToTime(host, t) == Ok(s)
  {
    UnixSecondsRoundTrip(s);
  }

  /** When the host turns the local reading into the UTC SYSTEMTIME `u` and
      encodes `u` as a whole number of seconds `s`, the local path returns
      exactly `s`. */
  lemma LocalTmToTimeExact(host: Host, t: TmRec, u: SystemTime, s: int64)
    requires IsInt64(s * HECTONANOSECS_IN_SEC)
    requires host.tzSpecificLocalTimeToSystemTime(TmToSystemTime(t)) == Success(u)
    requires host.systemTimeToFileTime(u) == Success(TimeToFileTime(s))
    ensures LocalTmToTime(host, t) == Ok(s)
  {
    UnixSecondsRoundTrip(s);
  }

  /** The offset in seconds east of UTC that the zone information calls
      standard time: `-60 * (Bias + StandardBias)` in `i32`. */
  function StandardOffset(tz: TimeZoneInformation): (k: int32)
    ensures -35_791_394 <= tz.bias + tz.standardBias <= 35_791_394 ==>
              k == -60 * (tz.bias + tz.standardBias)
  {
    WrapI32(-60 * WrapI32(tz.bias + tz.standardBias))
  }

  /** What `time_to_local_tm` leaves in a record `t`: the host's local
      SYSTEMTIME for `sec` in the calendar fields, mapped by `system_time_to_tm`
      as written (so the year since 1900 is a `u16` value), the offset measured as the
      difference between that local reading and `sec`, and the DST flag set
      exactly when the offset is not the standard one. */
  function LocalTm(host: Host, sec: int64, t: TmRec): (r: Result<TmRec>)
    ensures r.Ok? ==> r.value.nsec == t.nsec
    ensures r.Ok? ==> 0 <= r.value.year < TWO_16
    ensures r.Ok? ==> (r.value.isdst == 0 || r.value.isdst == 1)
    ensures r.Ok? ==> (r.value.isdst == 0 <==> r.value.utcoff == StandardOffset(host.timeZoneInformation))
  {
    match host.fileTimeToSystemTime(TimeToFileTime(sec))
    case Failure => Fail(HostCallFailed(FileTimeToSystemTime))
    case Success(utc) =>
      match host.systemTimeToTzSpecificLocalTime(utc)
      case Failure => Fail(HostCallFailed(SystemTimeToTzSpecificLocalTime))
      case Success(local) =>
        var localSec := FileTimeToUnixSeconds(SystemTimeToFileTimeUnchecked(host, local));
        var utcoff := WrapI32(WrapI64(localSec - sec));
        var isdst := if utcoff == StandardOffset(host.timeZoneInformation) then 0 else 1;
        Ok(FromSystemTimeAsWritten(local, t).(utcoff := utcoff, isdst := isdst))
  }

  /** `time_to_local_tm`: fills `tm` in place; a failing host call stops it
      before anything is written. */
  method TimeToLocalTm(host: Host, sec: int64, tm: Tm) returns (o: Outcome)
    modifies tm
    ensures o.Pass? <==> LocalTm(host, sec, old(tm.Value())).Ok?
    ensures o.Pass? ==> tm.Value() == LocalTm(host, sec, old(tm.Value())).value
    ensures o.Failed? ==> o.fault == LocalTm(host, sec, old(tm.Value())).fault && unchanged(tm)
  {
    var ft := TimeToFileTime(sec);
    var utc: SystemTime;
    match host.fileTimeToSystemTime(ft) {
      case Failure => return Failed(HostCallFailed(FileTimeToSystemTime));
      case Success(u) => utc := u;
    }
    var local: SystemTime;
    match host.systemTimeToTzSpecificLocalTime(utc) {
      case Failure => return Failed(HostCallFailed(SystemTimeToTzSpecificLocalTime));
      case Success(l) => local := l;
    }
    SystemTimeToTm(local, tm);
    var localFt := SystemTimeToFileTimeUnchecked(host, local);
    var localSec := FileTimeToUnixSeconds(localFt);
    var tz := host.timeZoneInformation;
    tm.utcoff := WrapI32(WrapI64(localSec - sec));
    tm.isdst := if tm.utcoff == StandardOffset(tz) then 0 else 1;
    return Pass;
  }

  /** If the host reads `sec` as the UTC SYSTEMTIME `u`, shows it as the local
      SYSTEMTIME `l`, and encodes `l` as `sec + k` seconds, the record holds
      `l`'s calendar fields as `system_time_to_tm` maps them, the offset exactly `k` (east of UTC, so a zone
      behind UTC gets a negative offset), and DST exactly when `k` is not the
      standard offset. */
  lemma LocalOffsetFromShift(
    host: Host, sec: int64, k: int32, t: TmRec, u: SystemTime, l: SystemTime)
    requires IsInt64(sec * HECTONANOSECS_IN_SEC) && IsInt64(sec + k) && IsInt64((sec + k) * HECTONANOSECS_IN_SEC)
    requires host.fileTimeToSystemTime(TimeToFileTime(sec)) == Success(u)
    requires host.systemTimeToTzSpecificLocalTime(u) == Success(l)
    requires host.systemTimeToFileTime(l) == Success(TimeToFileTime(sec + k))
    ensures LocalTm(host, sec, t) ==
            Ok(FromSystemTimeAsWritten(l, t).(utcoff := k,
                                              isdst := if k == StandardOffset(host.timeZoneInformation) then 0 else 1))
  {
    UnixSecondsRoundTrip(sec + k);
  }

  /** If SystemTimeToFileTime fails on the local reading, the unchecked call
      leaves tick 0 (1601-01-01), and the offset recorded is the distance from
      `sec` back to 1601 rather than a zone offset. */
  lemma ZeroedFileTimeOffset(host: Host, sec: int64, t: TmRec)
    requires host.fileTimeToSystemTime(TimeToFileTime(sec)).Success?
    requires host.systemTimeToTzSpecificLocalTime(host.fileTimeToSystemTime(TimeToFileTime(sec)).out).Success?
    requires host.systemTimeToFileTime(
               host.systemTimeToTzSpecificLocalTime(host.fileTimeToSystemTime(TimeToFileTime(sec)).out).out).Failure?
    ensures LocalTm(host, sec, t).Ok?
    ensures LocalTm(host, sec, t).value.utcoff == WrapI32(WrapI64(-11_644_473_600 - sec))
  {
    assert FileTimeToUnixSeconds(FileTime(0, 0)) == -11_644_473_600;
  }

  /** `Timespec::local`: a zeroed `Tm` filled for `ts.sec`, then given the
      nanoseconds of `ts`. */
  method Local(host: Host, ts: Timespec) returns (r: Result<Tm>)
    ensures r.Ok? <==> LocalTm(host, ts.sec, ZERO_TM).Ok?
    ensures r.Ok? ==> fresh(r.value) && r.value.Value() == LocalTm(host, ts.sec, ZERO_TM).value.(nsec := ts.nsec)
    ensures r.Fail? ==> r.fault == LocalTm(host, ts.sec, ZERO_TM).fault
  {
    var tm := new Tm(ZERO_TM);
    var o := TimeToLocalTm(host, ts.sec, tm);
    if o.Failed? {
      return Fail(o.fault);
    }
    tm.nsec := ts.nsec;
    return Ok(tm);
  }
}
