// Result and option types shared by the modules below.
module Wrappers {

  datatype Option<+T> = None | Some(value: T)

  datatype Result<+T, +E> = Ok(value: T) | Err(error: E)

  // The result of an operation that returns nothing but may fail.
  datatype Outcome<+E> = Done | Failed(error: E)
}
