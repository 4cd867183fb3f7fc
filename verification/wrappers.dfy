/** The absent-result signal every fallible operation of the cursor returns. */
module Wrappers {

  /** Some(value) on success, None on any failure (short input, no terminator,
      text that does not validate). */
  datatype Option<+T> = None | Some(value: T)
}
