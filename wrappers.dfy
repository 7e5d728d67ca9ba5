/** Optional values and the Java exceptions that the modelled code lets escape. */
module Wrappers {

  /** Stands in for a Java reference that may be null. */
  datatype Option<+T> = None | Some(value: T)

  /** The unchecked Java exceptions raised by the library calls the core makes. */
  datatype JavaException =
    | NumberFormat            // Integer.parseInt on a malformed or out-of-range string
    | IndexOutOfBounds        // ArrayList.get / ArrayList.remove outside 0..size-1
    | StringIndexOutOfBounds  // String.substring with a bad index
    | ArrayIndexOutOfBounds   // String[] element access outside the array
  {
    /** StringIndexOutOfBoundsException and ArrayIndexOutOfBoundsException both extend
        IndexOutOfBoundsException, so a catch of the latter also catches them. */
    predicate IsIndexOutOfBounds() {
      !NumberFormat?
    }
  }

  /** The result of a void Java method that may throw: it returned, or it threw e. */
  datatype Outcome = Done | Threw(e: JavaException)

  /** The result of a Java expression that may throw. */
  datatype Result<+T> = Ok(value: T) | Err(e: JavaException)
}
