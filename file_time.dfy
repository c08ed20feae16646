/** The numeric bridge between Unix seconds and the Windows FILETIME encoding:
    a 64-bit count of 100-nanosecond ticks since 1601-01-01T00:00:00Z, stored
    as two unsigned 32-bit halves. */
module FileTimes {
  import opened Ints

  const HECTONANOSECS_IN_SEC: int64 := 10_000_000
  /** Ticks from 1601-01-01 to 1970-01-01 (11_644_473_600 seconds). */
  const HECTONANOSEC_TO_UNIX_EPOCH: int64 := 11_644_473_600 * 10_000_000

  datatype FileTime = FileTime(lowDateTime: uint32, highDateTime: uint32)

  /** A 64-bit tick count split into its low and high 32-bit halves
      (`t as u32` and `(t >> 32) as u32`). */
  function FromTicks(t: uint64): (f: FileTime)
    ensures f.highDateTime * TWO_32 + f.lowDateTime == t
  {
    FileTime(WrapU32(t), t / TWO_32)
  }

  /** `time_to_file_time`: Unix seconds to ticks since 1601, in wrapping
      `i64` arithmetic, reinterpreted as `u64` and split. When the tick count
      since 1601 fits in `i64` it is stored as is if it is not negative, and
      as its two's complement (plus 2^64) if it lies before 1601. */
  function TimeToFileTime(sec: int64): (f: FileTime)
    ensures var ticks := sec * HECTONANOSECS_IN_SEC + HECTONANOSEC_TO_UNIX_EPOCH;
            IsInt64(sec * HECTONANOSECS_IN_SEC) && IsInt64(ticks) ==>
              FileTimeAsU64(f) == if ticks >= 0 then ticks else ticks + TWO_64
  {
    var t := WrapU64(WrapI64(WrapI64(sec * HECTONANOSECS_IN_SEC) + HECTONANOSEC_TO_UNIX_EPOCH));
    FromTicks(t)
  }

  /** `file_time_as_u64`: `(high << 32) | low`; the halves occupy disjoint
      bits, so the bitwise or is a sum. */
  function FileTimeAsU64(ft: FileTime): (u: uint64)
    ensures u % TWO_32 == ft.lowDateTime && u / TWO_32 == ft.highDateTime
  {
    ft.highDateTime * TWO_32 + ft.lowDateTime
  }

  /** `file_time_to_unix_seconds`: ticks reinterpreted as `i64`, shifted to
      the Unix epoch and divided with truncation toward zero. For every tick
      count below 2^63 the seconds are the elapsed time since the Unix epoch
      truncated toward the epoch: rounded down after 1970, rounded up before
      it, never off by a whole second. */
  function FileTimeToUnixSeconds(ft: FileTime): (s: int64)
    ensures var d := FileTimeAsU64(ft) - HECTONANOSEC_TO_UNIX_EPOCH;
            FileTimeAsU64(ft) < 0x8000_0000_0000_0000 ==>
              (d >= 0 ==> s * HECTONANOSECS_IN_SEC <= d < s * HECTONANOSECS_IN_SEC + HECTONANOSECS_IN_SEC) &&
              (d < 0 ==> s * HECTONANOSECS_IN_SEC - HECTONANOSECS_IN_SEC < d <= s * HECTONANOSECS_IN_SEC)
  {
    var t := WrapI64(FileTimeAsU64(ft));
    TruncDiv(WrapI64(t - HECTONANOSEC_TO_UNIX_EPOCH), HECTONANOSECS_IN_SEC)
  }

  /** Splitting a tick count into halves and recombining them gives it back,
      and every pair of halves arises from exactly one tick count. */
  lemma SplitJoin(t: uint64, ft: FileTime)
    ensures FileTimeAsU64(FromTicks(t)) == t
    ensures FromTicks(FileTimeAsU64(ft)) == ft
  {
    var u := FileTimeAsU64(ft);
    assert u / TWO_32 == ft.highDateTime;
    assert u % TWO_32 == ft.lowDateTime;
  }

  /** Unix seconds survive the trip through the FILETIME encoding whenever the
      tick count `sec * 10^7` fits in `i64`: the wrap-around of the epoch shift,
      if any, cancels when the shift is taken off again. */
  lemma UnixSecondsRoundTrip(sec: int64)
    requires IsInt64(sec * HECTONANOSECS_IN_SEC)
    ensures FileTimeToUnixSeconds(TimeToFileTime(sec)) == sec
  {
    var p := sec * HECTONANOSECS_IN_SEC;
    var shifted := WrapI64(p + HECTONANOSEC_TO_UNIX_EPOCH);
    var t := WrapU64(shifted);
    SplitJoin(t, FileTime(0, 0));
    assert FileTimeAsU64(TimeToFileTime(sec)) == t;
    WrapI64Congruent(t, shifted);
    assert WrapI64(t) == shifted;
    WrapI64Congruent(shifted - HECTONANOSEC_TO_UNIX_EPOCH, p);
    assert WrapI64(WrapI64(t) - HECTONANOSEC_TO_UNIX_EPOCH) == p;
  }

  /** The Unix epoch is tick 116_444_736_000_000_000 and back. */
  lemma UnixEpochTicks()
    ensures FileTimeAsU64(TimeToFileTime(0)) == 116_444_736_000_000_000
    ensures FileTimeToUnixSeconds(FromTicks(116_444_736_000_000_000)) == 0
  {
    SplitJoin(116_444_736_000_000_000, FileTime(0, 0));
  }

  /** A tick count that is a whole number of seconds from the Unix epoch is
      reproduced exactly by converting to seconds and back. */
  lemma WholeSecondTicksRoundTrip(ft: FileTime)
    requires FileTimeAsU64(ft) < 0x8000_0000_0000_0000
    requires (FileTimeAsU64(ft) - HECTONANOSEC_TO_UNIX_EPOCH) % HECTONANOSECS_IN_SEC == 0
    ensures TimeToFileTime(FileTimeToUnixSeconds(ft)) == ft
  {
    var u := FileTimeAsU64(ft);
    var d := u - HECTONANOSEC_TO_UNIX_EPOCH;
    var s := FileTimeToUnixSeconds(ft);
    assert s * HECTONANOSECS_IN_SEC == d;
    assert WrapI64(s * HECTONANOSECS_IN_SEC) == d;
    assert WrapI64(d + HECTONANOSEC_TO_UNIX_EPOCH) == u;
    assert WrapU64(u) == u;
    SplitJoin(u, ft);
  }
}
