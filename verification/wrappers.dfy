/** The two wrappers used throughout the model.
    - Option<T> stands for a Java reference that may be null.
    - Result<T> stands for a computation that either returns a value or throws;
      every exception of the service ends the request the same way, so there is
      a single Error variant.
 */
module Wrappers {

  datatype Option<+T> = None | Some(value: T)

  datatype Result<+T> = Ok(value: T) | Error
}
