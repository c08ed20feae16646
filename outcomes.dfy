/** Outcomes of a conversion: a value, or the fault that makes the source panic. */
module Outcomes {
  /** The Win32 calls whose failure the source reports by panicking. */
  datatype HostCall =
    | FileTimeToSystemTime
    | SystemTimeToTzSpecificLocalTime
    | TzSpecificLocalTimeToSystemTime
    | SystemTimeToFileTime

  datatype Fault =
    | HostCallFailed(call: HostCall)  // a `call!` whose Win32 call returned 0
    | InvalidDate                     // `NaiveDate::from_ymd_opt(..).unwrap()` on `None`
    | InvalidOffset                   // `FixedOffset::east_opt(..).unwrap()` on `None`

  datatype Result<+T> = Ok(value: T) | Fail(fault: Fault)

  datatype Outcome = Pass | Failed(fault: Fault)
}
