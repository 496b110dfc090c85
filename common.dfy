/** Values shared by the whole target scheduler: build events, quantities,
    the fatal configuration errors, and small helpers on maps. */
module Common {

  datatype Option<T> = None | Some(value: T)

  /** Every failure of the scheduler is a fatal configuration error. */
  datatype Error =
    | UnrecognizedPsipValue(value: string)    // USE_PSIP_PLAN is not a boolean word
    | PreexistingBattery(group: string)       // a rebuild seed from the existing fleet is a battery
    | UnknownTechGroup(group: string)         // a target names a group with no known service life
    | MixedUnitSizes(group: string)           // two projects of one group declare different unit sizes
    | NoMatchingProjects(group: string, period: int) // a non-zero target with nothing to build

  datatype Result<T> = Ok(value: T) | Err(error: Error)

  /** The quantity of a target: megawatts alone, or (megawatts, hours) for
      storage whose energy-to-power ratio is chosen by the target. */
  datatype Quantity = Scalar(mw: real) | Pair(power: real, hours: real)

  /** A build event `(year, tech group, quantity)`. */
  datatype Event = Event(year: int, group: string, quantity: Quantity)

  /** A projected event `(year, tech group, value)` in the power or energy list. */
  datatype Amount = Amount(year: int, group: string, value: real)

  /** Python's `d.get(k, default)`. */
  function GetOr<K, V>(m: map<K, V>, k: K, default: V): V
  {
    if k in m then m[k] else default
  }
}
