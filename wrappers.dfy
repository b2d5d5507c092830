/** Failure-carrying results shared by both components, and the .NET exception
    kinds the modelled code throws. */
module Wrappers {

  /** The exceptions the modelled code throws, by their .NET names. */
  datatype Exception =
    | ArgumentNullException
    | ArgumentOutOfRangeException
    | ArgumentException
    | KeyNotFoundException
    | IndexOutOfRangeException

  /** A value that may be absent; `None` also stands for a C# `null` argument. */
  datatype Option<+T> = None | Some(value: T)

  /** The result of an operation that either returns a value or throws. */
  datatype Result<+T> = Ok(value: T) | Throws(error: Exception)

  /** The result of an operation that returns nothing or throws. */
  datatype Outcome = Done | Fails(error: Exception)

  /** C# `int`: the range of a signed 32-bit integer. */
  type Int32 = x: int | -0x8000_0000 <= x < 0x8000_0000
}
