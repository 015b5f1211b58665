/**
 * The hardware-independent digital IO interface (hal/digital_io.hpp): the
 * two logic levels and the `drive(level)` dispatch every digital output
 * inherits, which calls the implementation's drive_low or drive_high.
 */
module HalDigitalIo {
  datatype LogicLevel = Low | High

  /** A call digital_output<T> forwards to the implementation T. */
  datatype Request = DriveLowCall | DriveHighCall

  /** The implementation calls drive(level) makes, in order. */
  function Drive(level: LogicLevel): (calls: seq<Request>)
    ensures |calls| == 1
    ensures calls[0] == DriveLowCall <==> level == Low
    ensures calls[0] == DriveHighCall <==> level == High
  {
    match level
    case Low => [DriveLowCall]
    case High => [DriveHighCall]
  }

  /** The level drive makes the implementation establish; drive is total over the two levels. */
  function Requested(r: Request): LogicLevel
  {
    match r
    case DriveLowCall => Low
    case DriveHighCall => High
  }

  /** Every level is driven: the one call drive makes asks for that very level. */
  lemma DriveRequestsLevel(level: LogicLevel)
    ensures Requested(Drive(level)[0]) == level
  {
  }
}
