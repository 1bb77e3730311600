/** Shared plumbing: optional values and bytes. */
module Base {

  datatype Option<T> = None | Some(value: T)

  /** One byte of native storage. */
  newtype byte = x: int | 0 <= x < 256
}
