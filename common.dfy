/** Small shared vocabulary: optional values, results with an error, and
    Rust's `u32`. */
module Common {

  /** `Option<T>` as in Rust. */
  datatype Option<+T> = None | Some(value: T)

  /** `Result<T, E>` as in Rust: `Ok` carries a value, `Err` an error. */
  datatype Result<+T, +E> = Ok(value: T) | Err(error: E)

  /** Number of values of Rust's `u32`. */
  const U32_LIMIT: int := 0x1_0000_0000

  /** Rust's `u32`. */
  type u32 = x: int | 0 <= x < U32_LIMIT
}
