/** Option and a panic-or-value outcome, shared by the kernel modules. */
module Wrappers {

  datatype Option<+T> = None | Some(value: T)

  /** A kernel operation either returns a value or stops the kernel with a panic
      (an `assert!`, an `expect`, an out-of-bounds index). */
  datatype Outcome<+T, +E> = Ok(value: T) | Panic(reason: E)
}
