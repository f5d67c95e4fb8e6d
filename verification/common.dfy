/** Fixed-width integers of the Rust source. */
module Bytes {

  /** Rust `u8`: report bytes are manipulated with bit masks, so a bit-vector. */
  type u8 = bv8

  /** Rust `u16`: vendor and product identifiers. */
  type u16 = x: int | 0 <= x < 0x1_0000
}

/** Rust's `Option` and `Result`. */
module Wrappers {

  datatype Option<+T> = None | Some(value: T)

  datatype Result<+R, +E> = Success(value: R) | Failure(error: E)
}
