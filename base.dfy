/** Small value types shared by every module of the model. */
module Base {

  /** A value that may be missing: an absent stat record, a failed mapping or readlink. */
  datatype Option<T> = None | Some(value: T)

  /** One byte of file content. */
  newtype byte = x: int | 0 <= x < 256
}
