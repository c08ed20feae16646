# Windows local-time conversion, modelled in Dafny

This project models the Windows back end of chrono's `Local` time zone
(`src/offset/local/windows.rs`). The back end converts between instants
(Unix seconds plus nanoseconds) and broken-down local readings (`Tm`, the
ISO C `struct tm` of C11 section 7.27.1 extended with `tm_utcoff` and
`tm_nsec`). It does so through the Win32 time services. The model covers
the following:

- **The FILETIME epoch bridge.** 100 ns ticks since 1601-01-01 are stored
  as two `u32` halves and converted to and from Unix seconds, with Rust's
  truncating `/`.
- **The `Tm` ↔ SYSTEMTIME field mapping and its day-of-year formula.**
- **The leap-second clamp and result assembly of `tm_to_datetime`.**
- **The offset and DST flag derivation of `time_to_local_tm`.**
- **The `naive_to_local` orchestration.**

Modules, one file each:

| file | module | contents |
|---|---|---|
| `ints.dfy` | `Ints` | `i32`/`i64`/`u16`/`u32`/`u64` as subset types; `as` casts and overflowing arithmetic as explicit two's-complement wrap; truncating division and remainder |
| `file_time.dfy` | `FileTimes` | `FILETIME` and the three bridge functions |
| `calendar.dfy` | `Calendar` | Gregorian reference facts: month lengths, days before a month, date validity, day count from 1970 |
| `broken_down.dfy` | `BrokenDown` | `Tm` (a class whose fields are written in place, with its value `TmRec`), `SYSTEMTIME`, `tm_to_system_time`, `system_time_to_tm` and `yday` as written, and a repaired `system_time_to_tm` and `yday` beside them |
| `outcomes.dfy` | `Outcomes` | results and the faults where the source panics |
| `platform.dfy` | `Platform` | the host (the Win32 calls as a record of functions), `utc_tm_to_time`, `local_tm_to_time`, `time_to_local_tm`, `Timespec::local` |
| `assembly.dfy` | `Assembly` | `tm_to_datetime` |
| `resolve.dfy` | `Resolve` | `naive_to_local` |

Integer arithmetic follows the release build: every `i32`, `i64` and `u16`
operation of the source that overflows wraps around. This includes the
`u16` shifts of month and year in `system_time_to_tm`. A debug build would
panic there instead. Repaired variants of `system_time_to_tm` and `yday`
sit beside the as-written ones and carry their own proofs (see
"## Findings"). The chain from `time_to_local_tm` to `naive_to_local`
uses the code as written.

Behaviour worth noting:

- **`tm_isdst` is always −1 on the way in.** `naive_to_local` sets it to
  −1 for UTC readings as well as for local ones (windows.rs:43).
- **An impossible date is a fault, not a `None` result.** `tm_to_datetime`
  unwraps the date (windows.rs:73-74), so an invalid date panics. The model
  returns `Fail(InvalidDate)`.
- **Two host results go unchecked.** `system_time_to_file_time` ignores the
  return value of SystemTimeToFileTime (windows.rs:196-202). A failed call
  leaves the zeroed FILETIME. The return value of GetTimeZoneInformation is
  ignored too (windows.rs:264).
- **Years before 1900 are read back 65536 years late.** `system_time_to_tm`
  computes `wYear - 1900` in `u16` (windows.rs:223). `tm_to_datetime` adds
  1900 back, so a local reading in 1850 comes back as the year 67386.
- **Years outside 0..65535 reach the host wrapped.** `tm_to_system_time`
  casts `tm_year + 1900` to `u16` (windows.rs:212). A valid value in the
  year 67559 is handed to the host as 2023, and a UTC reading in 67559
  resolves to the instant in 2023.

## Model

| member | source | states |
|---|---|---|
| `Ints.WrapU16` | src/offset/local/windows.rs:206-212 | `x as u16` is the unique value in [0, 2^16) congruent to `x`, and leaves in-range values alone |
| `Ints.WrapU32` | src/offset/local/windows.rs:184 | `x as u32` is the unique value in [0, 2^32) congruent to `x`, and leaves in-range values alone |
| `Ints.WrapU64` | src/offset/local/windows.rs:183 | `x as u64` is the unique value in [0, 2^64) congruent to `x`, and leaves in-range values alone |
| `Ints.WrapI32` | src/offset/local/windows.rs:268 | `x as i32` is the unique signed 32-bit value congruent to `x`, and leaves in-range values alone |
| `Ints.WrapI64` | src/offset/local/windows.rs:192 | `x as i64` is the unique signed 64-bit value congruent to `x`, and leaves in-range values alone |
| `Ints.TruncDiv` | src/offset/local/windows.rs:193 | Rust's signed `/` rounds toward zero: `q*b <= a < q*b + b` for `a >= 0`, the mirror image for `a < 0`, and `abs(q) <= abs(a)` |
| `Ints.TruncRem` | src/offset/local/windows.rs:228 | Rust's signed `%` has the sign of the dividend and completes `a == (a / b) * b + r` |
| `FileTimes.FromTicks` | src/offset/local/windows.rs:184-185 | the low and high halves of a tick count recombine to that count |
| `FileTimes.TimeToFileTime` | src/offset/local/windows.rs:182-185 | when `sec * 10^7` and the shift to 1601 fit in `i64`, the stored tick count is the ticks since 1601: as is when not negative, plus 2^64 before 1601 |
| `FileTimes.FileTimeAsU64` | src/offset/local/windows.rs:187-189 | the low half is the count modulo 2^32 and the high half the count divided by 2^32 |
| `FileTimes.FileTimeToUnixSeconds` | src/offset/local/windows.rs:191-194 | for tick counts below 2^63, the seconds are the elapsed time since 1970 rounded down after 1970 and up before it, never off by a whole second |
| `FileTimes.SplitJoin` | src/offset/local/windows.rs:182-189 | splitting a `u64` tick count into `dwLowDateTime`/`dwHighDateTime` and recombining them with a shift and a bitwise or gives the count back, and every pair of halves comes from exactly one count |
| `FileTimes.UnixSecondsRoundTrip` | src/offset/local/windows.rs:179-194 | `file_time_to_unix_seconds(time_to_file_time(s)) == s` whenever `s * 10^7` fits in `i64`; any wrap-around of the epoch shift cancels |
| `FileTimes.UnixEpochTicks` | src/offset/local/windows.rs:179-194 | Unix second 0 is tick 116_444_736_000_000_000, and that tick is Unix second 0 |
| `FileTimes.WholeSecondTicksRoundTrip` | src/offset/local/windows.rs:182-194 | a tick count that is a whole number of seconds from 1970 survives ticks → seconds → ticks exactly |
| `Calendar.DaysBeforeMonth` | src/offset/local/windows.rs:159-160 | the reference day-of-year offset: the days before each month of a common or leap year, 0 for January up to 334 or 335 for December |
| `Calendar.DaysFromCivilNextDay` | src/offset/local/windows.rs:73 | the day count used for assembled instants advances by exactly one to the next valid date: within a month, across a month end (February included) and across a year end |
| `Calendar.DaysFromCivilAnchors` | src/offset/local/windows.rs:73 | 1970-01-01 is day 0, 2000-02-29 is followed by 2000-03-01, and 2023-06-01 is day 19_509 |
| `BrokenDown.Tm.constructor` | src/offset/local/windows.rs:137-177 | a new `Tm` holds exactly the given field values |
| `BrokenDown.TmToSystemTime` | src/offset/local/windows.rs:204-214 | milliseconds are 0; for the documented field ranges and years a SYSTEMTIME holds, the SYSTEMTIME carries the calendar year, the 1-based month and the other fields unchanged |
| `BrokenDown.SystemTimeIgnoresZoneAndNanos` | src/offset/local/windows.rs:204-214 | the SYSTEMTIME built from a `Tm` depends only on its seven calendar fields: not on yday, isdst, utcoff or nsec |
| `BrokenDown.YdayAsWritten` | src/offset/local/windows.rs:226-239 | the source's `yday` for months 1..12 is the days before the month with the leap test `year % 4 == 0` on years since 1900, plus the day of month less one, plus one extra day in August, October and December |
| `BrokenDown.YdayAugustOffByOne` | src/offset/local/windows.rs:236-238 | 1 August 2023 gives 213; the true day of year is 212 |
| `BrokenDown.YdayLeapYearEndOutOfRange` | src/offset/local/windows.rs:226-239 | 31 December 2024 gives 366, outside the documented range [0, 365] |
| `BrokenDown.YdayCenturyLeap` | src/offset/local/windows.rs:227-235 | 1900 and 2100 are taken as leap years: 1 March 1900 gives 60 instead of 59 |
| `BrokenDown.Yday` | src/offset/local/windows.rs:159-160 | the repaired formula (`(month + july) / 2`, Gregorian leap test on the calendar year) is the 0-based day of the year for every month |
| `BrokenDown.YdayRange` | src/offset/local/windows.rs:159-160 | on valid dates the repaired day of year lies in [0, 365], is 0 on 1 January and is 365 on 31 December exactly in leap years |
| `BrokenDown.FromSystemTimeAsWritten` | src/offset/local/windows.rs:216-224 | `system_time_to_tm` as written copies time of day, day and weekday, keeps isdst, utcoff and nsec, shifts the month to 0-based (month 0 wraps to 65535), gives a year in [0, 2^16) that is `wYear - 1900` from 1900 on, and sets the day of year by the source's formula (`YdayAsWritten`) on the shifted fields |
| `BrokenDown.SystemTimeYearUnderflow` | src/offset/local/windows.rs:222-223 | as written, a SYSTEMTIME year before 1900 gives years-since-1900 `wYear + 65536 - 1900`, not `wYear - 1900` |
| `BrokenDown.YearAsRead` | src/offset/local/windows.rs:223 | the calendar year the code reads a SYSTEMTIME year back as: the year itself from 1900 on, 65536 years later before 1900 |
| `BrokenDown.SystemTimeToTm` | src/offset/local/windows.rs:216-224 | filling a `Tm` in place leaves exactly the record `FromSystemTimeAsWritten` describes: u16-shifted month and year, formula day of year, isdst, utcoff and nsec as they were |
| `BrokenDown.TmSystemTimeRoundTrip` | src/offset/local/windows.rs:204-224 | for the repaired mapping, the documented field ranges and calendar years 0..65535, `Tm` → SYSTEMTIME → `Tm` restores the seven calendar fields, keeps isdst, utcoff and nsec, and only recomputes yday |
| `BrokenDown.TmSystemTimeRoundTripAsWritten` | src/offset/local/windows.rs:204-224 | the same round trip for the code as written, for years from 1900 on |
| `BrokenDown.SystemTimeTmRoundTrip` | src/offset/local/windows.rs:204-224 | for the repaired mapping, SYSTEMTIME → `Tm` → SYSTEMTIME gives back any SYSTEMTIME with zero milliseconds |
| `BrokenDown.SystemTimeTmRoundTripAsWritten` | src/offset/local/windows.rs:204-224 | the code as written also gives back every SYSTEMTIME with zero milliseconds: the `u16` cast on the way out undoes the year underflow, so the host round trip never exposes it |
| `Platform.SystemTimeToFileTimeUnchecked` | src/offset/local/windows.rs:196-202 | the host's FILETIME when the call succeeds; when it fails, the zeroed FILETIME, tick 0, which reads as Unix second −11_644_473_600 |
| `Platform.UtcTmToTime` | src/offset/local/windows.rs:273-280 | fails exactly when SystemTimeToFileTime fails on the record's SYSTEMTIME, naming that call; otherwise the Unix seconds of the host's FILETIME |
| `Platform.LocalTmToTime` | src/offset/local/windows.rs:282-291 | succeeds exactly when both TzSpecificLocalTimeToSystemTime and SystemTimeToFileTime succeed, returning the Unix seconds of the FILETIME the host gives for the converted UTC SYSTEMTIME; a failure names the first call that failed |
| `Platform.HostPathIgnoresZoneAndNanos` | src/offset/local/windows.rs:273-291 | the UTC and the local host paths give the same seconds for two records with the same calendar fields: the host never sees yday, isdst, utcoff or nsec |
| `Platform.UtcTmToTimeExact` | src/offset/local/windows.rs:273-280 | when the host encodes the reading as a whole second `s`, `utc_tm_to_time` returns exactly `s` |
| `Platform.LocalTmToTimeExact` | src/offset/local/windows.rs:282-291 | when the host turns the local reading into UTC SYSTEMTIME `u` and encodes `u` as a whole second `s`, `local_tm_to_time` returns exactly `s` |
| `Platform.StandardOffset` | src/offset/local/windows.rs:269 | when `Bias + StandardBias` is small enough for the `i32` product, the standard offset is `-60 * (Bias + StandardBias)` seconds east of UTC |
| `Platform.LocalTm` | src/offset/local/windows.rs:251-271 | `time_to_local_tm` never writes nsec; the year since 1900 lies in [0, 2^16) as the `u16` shift leaves it; isdst is 0 or 1, and 0 exactly when the measured offset equals `-60 * (Bias + StandardBias)` |
| `Platform.TimeToLocalTm` | src/offset/local/windows.rs:251-271 | the in-place update leaves the record `LocalTm` describes; a failing host call stops it before anything is written |
| `Platform.LocalOffsetFromShift` | src/offset/local/windows.rs:260-269 | if the host reads `sec` as local SYSTEMTIME `l` and encodes `l` as `sec + k`, the record is `l` mapped by `system_time_to_tm` as written, with `tm_utcoff == k` (east of UTC: −18000 for a zone five hours behind), and DST is reported exactly when `k` is not the standard offset |
| `Platform.ZeroedFileTimeOffset` | src/offset/local/windows.rs:196-202 | if SystemTimeToFileTime fails on the local reading, the unchecked call leaves tick 0 and the offset becomes `-11_644_473_600 - sec` (wrapped to `i32`) |
| `Platform.Local` | src/offset/local/windows.rs:112-130 | `Timespec::local` returns a fresh `Tm` holding the local record for `sec` with the caller's `nsec` copied in, or the host fault |
| `Assembly.ClampLeapSecond` | src/offset/local/windows.rs:68-71 | second < 60 changes nothing; second >= 60 becomes 59 and no other field but nsec changes; for second <= 60 and nsec < 10^9, `sec * 10^9 + nsec` is kept and nsec stays below 2 * 10^9 |
| `Assembly.ClampOverflowsPastSixty` | src/offset/local/windows.rs:69 | the clamp's `i32` arithmetic overflows past second 60: second 61 with 0.5 s wraps to −1_794_967_296 ns, and at 62 the product overflows |
| `Assembly.Assembled` | src/offset/local/windows.rs:67-92 | the result is `Fail(InvalidDate)` exactly for an impossible date, `None` exactly for a valid date with an impossible time, `Fail(InvalidOffset)` exactly for a valid date and time with an impossible offset, and `Single` exactly when date, time and offset are valid; the `Single` instant is the local reading minus `tm_utcoff` seconds; never `Ambiguous` |
| `Assembly.AssembledAtInstant` | src/offset/local/windows.rs:67-92 | a valid reading below second 60 whose local seconds are `s` plus its offset assembles to the single instant `s` at that offset |
| `Assembly.AssembledSystemTime` | src/offset/local/windows.rs:67-92 | a record filled from a local SYSTEMTIME, with a valid date in the year it is read back as, valid time and valid offset `k`, assembles to that local reading minus `k` seconds |
| `Assembly.TmToDatetime` | src/offset/local/windows.rs:67-92 | the method clamps the record in place and returns what `Assembled` describes |
| `Assembly.LeapSecondKeepsInstant` | src/offset/local/windows.rs:68-88 | a valid reading at second 60 assembles to the same point on the time line, one second after second 59, with the extra second in the nanoseconds |
| `Assembly.InvalidDateIsFault` | src/offset/local/windows.rs:73-74 | 30 February 2023 reaching the assembler is a fault, not a `None` result |
| `Assembly.OffsetSignConvention` | src/offset/local/windows.rs:85-86 | noon local on 1 June 2023 at offset −18000 is 17:00 UTC, shown at offset −18000 |
| `Resolve.InitialTm` | src/offset/local/windows.rs:34-48 | the record built from the caller's value has isdst −1, nsec 0, weekday and day of year 0, and offset field 1 exactly for a local reading and 0 exactly for a UTC one |
| `Resolve.InitialTmSystemTime` | src/offset/local/windows.rs:204-214 | for every valid value, the host receives the caller's month, day, hour, minute and second unchanged and the year cast to `u16`: reduced modulo 65536 from 65536 on, and different from the caller's year below 0 |
| `Resolve.InitialTmEncodesNaive` | src/offset/local/windows.rs:34-48 | for years 0..65535, the record built from the caller's value hands the host exactly the caller's year, month, day, hour, minute and second, with nsec 0 |
| `Resolve.Resolved` | src/offset/local/windows.rs:33-64 | a host fault on either step is the result; otherwise the projected record (built by `system_time_to_tm` as written) has nsec 0 (the `assert_eq!` holds), the caller's nanoseconds are restored and the record is assembled; never `Ambiguous` |
| `Resolve.NaiveToLocal` | src/offset/local/windows.rs:33-64 | the method, with its nanosecond assertion proved, returns what `Resolved` describes |
| `Resolve.ResolveReading` | src/offset/local/windows.rs:50-63 | if the host resolves the reading to second `s` and reads `s` back as local SYSTEMTIME `l` encoded as `s + k`, with `s * 10^7`, `s + k` and `(s + k) * 10^7` in `i64`, `l` a valid date (in its read-back year) and time of day, and `k` a valid offset, the result is the single instant of `l`'s reading, in the year the code reads it back as, minus `k`, at offset `k` with the caller's nanoseconds |
| `Resolve.ResolveSingle` | src/offset/local/windows.rs:50-63 | if moreover `l` is from 1900 on and names second `s + k`, the result is the single instant `s` at offset `k`, carrying the caller's nanoseconds |
| `Resolve.ResolveUtcInstant` | src/offset/local/windows.rs:50-63 | a UTC reading that the host encodes by its civil second count, and reads back from 1900 on, resolves to exactly that instant, whatever offset it is shown at |
| `Resolve.ResolveUtcAfter65535` | src/offset/local/windows.rs:34-63 | noon on 1 June 67559 reaches the host as noon on 1 June 2023, and on a UTC host that answers consistently resolves to that instant in 2023, not to the caller's |
| `Resolve.ResolveUtcBefore1900` | src/offset/local/windows.rs:50-63 | a UTC reading of 1850-06-01 12:00 on a consistent host resolves to 67386-06-01 12:00, not to itself |

## Left out

- `now()` and `Timespec::now()` (windows.rs:27-30, 106-110) read the system clock and are not modelled.
- The Win32 calls (FileTimeToSystemTime, SystemTimeToTzSpecificLocalTime, TzSpecificLocalTimeToSystemTime, SystemTimeToFileTime, GetTimeZoneInformation) depend on the machine's zone database. They are parameters: the fields of `Platform.Host`.
- The panic message of `call!` with `io::Error::last_os_error()` is not modelled. A failing checked call is `Fail(HostCallFailed(call))`.
- Debug-build overflow panics are not modelled: every overflowing operation wraps, as in a release build.
- `mem::zeroed`, `unsafe` and the `#[repr(C)]` layout are memory and FFI details. A zeroed SYSTEMTIME shows up only as milliseconds 0, and a zeroed FILETIME as tick 0.
- `Tm` is moved by value in Rust. As a Dafny class it could be aliased, which Rust rules out.
- chrono's `NaiveDate`, `NaiveTime`, `FixedOffset` and `DateTime` are not part of this model. They are represented as follows:
  - `NaiveDate::from_ymd_opt` is `Calendar.ValidDate`: the proleptic Gregorian calendar, years −262144 to 262143.
  - `NaiveTime::from_hms_nano_opt` is `Assembly.ValidTime`: hour < 24, minute < 60, second < 60, nanoseconds < 2·10^9. Later chrono releases also reject leap nanoseconds unless the second is 59.
  - `FixedOffset::east_opt` is `Assembly.ValidOffset`.
  - `DateTime::from_utc(local - offset, offset)` is an instant given as seconds since 1970 plus an offset. The panic when `local - offset` leaves chrono's range is not modelled.
- Detection of repeated (fall-back) local hours is not modelled: the code does not attempt it (windows.rs:87), so `Ambiguous` is never produced.
- Platform.LocalOffsetFromShift, Resolve.ResolveReading, Resolve.ResolveSingle, Resolve.ResolveUtcInstant: these hold only for a host whose answers are consistent at the instants involved. Their requires clauses spell this out. Nothing is assumed about the host in general.
- Resolve.ResolveSingle: states the instant `s` only for a local reading from 1900 on. Before 1900 the code reads the year back 65536 years late; `Resolve.ResolveReading` states that case and `Resolve.ResolveUtcBefore1900` exhibits it.
- Resolve.ResolveUtcInstant: states the round trip only for a reading from 1900 on, for the same reason; `Resolve.ResolveUtcBefore1900` shows a reading in 1850 that does not come back as itself. Its hypothesis that the host encodes the caller's own civil second count is a consistent host only for caller years 0..65535; above that the host sees the year wrapped, as `Resolve.ResolveUtcAfter65535` shows.

## Findings

| source | as written | input that shows it | evidently intended | confidence | as-written member | corrected member |
|---|---|---|---|---|---|---|
| src/offset/local/windows.rs:236-238 | `month / 2 + july` adds a day too many in August, October and December | year 123, month 8, day 1 (1 August 2023) gives 213 | 212, the 0-based day of the year; `(month + july) / 2` | high; not executed | `BrokenDown.YdayAugustOffByOne` | `BrokenDown.Yday` |
| src/offset/local/windows.rs:228 | leap test `year % 4 == 0` on years since 1900 (Julian rule) | year 0, month 3, day 1 (1 March 1900) gives 60 | 59: Gregorian leap rule on `year + 1900` | medium (the formula is a rough approximation); not executed | `BrokenDown.YdayCenturyLeap` | `BrokenDown.Yday` |
| src/offset/local/windows.rs:223 | `sys.wYear - 1900` computed in `u16` | a SYSTEMTIME in 1899 gives tm_year 65535 (year 67435) in a release build; a debug build panics | −1; subtract in `i32` | high; not executed | `BrokenDown.SystemTimeYearUnderflow` | `BrokenDown.TmSystemTimeRoundTrip` |

The as-written definitions (`BrokenDown.YdayAsWritten`,
`BrokenDown.FromSystemTimeAsWritten`) are the ones `time_to_local_tm`,
`Timespec::local` and `naive_to_local` use in this model. The corrected
definitions (`BrokenDown.Yday`, `BrokenDown.FromSystemTime`) stand beside
them, with the properties the code evidently intends proved about them.
`Resolve.ResolveUtcBefore1900` shows the year underflow of the third row
reaching the result of `naive_to_local`.
