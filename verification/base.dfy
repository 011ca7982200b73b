/** Small shared vocabulary: an optional value and Rust's `u32`. */
module Base {

  /** Rust's `Option<T>`. */
  datatype Option<+T> = None | Some(value: T)

  /** The largest `u32`, Rust's `u32::MAX`. */
  const U32_MAX: int := 0xFFFF_FFFF

  /** Rust's `u32`: the integers 0 ..= u32::MAX. */
  newtype u32 = x: int | 0 <= x <= U32_MAX
}
