/** Handles handed out by an interner, and the optional result of a lookup. */
module Names {

  /** Number of distinct handles: a handle wraps a 32-bit unsigned integer. */
  const NameLimit: int := 0x1_0000_0000

  /** A handle: the position of an entry in the interner's dense store. */
  newtype Name = n: int | 0 <= n < NameLimit

  datatype Option<T> = None | Some(value: T)
}
