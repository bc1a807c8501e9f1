/** Operations that may fail or panic. */
module Outcomes {

  /** `Failed` stands for a returned error, `Panics` for a run-time panic. */
  datatype Outcome<T> = Ok(value: T) | Failed | Panics
}
