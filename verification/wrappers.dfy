/** Outcome types shared by the model: an optional value for the stream
    terminals that may find nothing, and a result for the Java calls that
    throw. */
module Wrappers {

  datatype Option<+T> = None | Some(value: T)

  /** The unchecked exceptions the modelled Java code can raise. */
  datatype JavaException =
    | IndexOutOfBounds        // List.subList, String.substring
    | NoSuchElement           // Optional.orElseThrow on an empty Optional

  datatype Result<+T> = Success(value: T) | Failure(error: JavaException)
}
