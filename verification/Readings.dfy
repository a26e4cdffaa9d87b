/** Small shared types. */
module Readings {
  /**
   * Some lines of the kernel do not do what the code around them relies on. Such a line is modelled both as it stands
   * in the source and as the rest of the source needs it.
   */
  datatype Text = Written | Corrected

  datatype Option<T> = None | Some(value: T)
}
