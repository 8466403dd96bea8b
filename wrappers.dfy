/** Failure-carrying values shared by every module: `Option` for a value that may be
    absent (a null pointer, a missing regex match, an unset variable) and `Result`
    for an operation that throws in the source. */
module Wrappers {

  datatype Option<+T> = None | Some(value: T)

  /** `Err` carries the message the source throws or reports. */
  datatype Result<+T> = Ok(value: T) | Err(msg: string)
}
