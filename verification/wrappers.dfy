/** Option: None stands for a null reference. */
module Wrappers {

  /** `None` stands for the `null` reference the helpers return when there is
      nothing to give back. */
  datatype Option<+T> = None | Some(value: T)
}
