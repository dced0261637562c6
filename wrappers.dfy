/** Failure-compatible wrappers and the fixed-width integers the program uses. */
module Wrappers {

  /** Rust's `Option<T>`. */
  datatype Option<+T> = None | Some(value: T) {
    /** `Option::unwrap_or` */
    function GetOr(default: T): T {
      match this
      case Some(v) => v
      case None => default
    }
  }

  /** Rust's `Result<T, E>`. */
  datatype Result<+T, +E> = Ok(value: T) | Err(error: E)

  /** An 8-bit unsigned integer (`u8`). */
  type byte = x: int | 0 <= x < 0x100

  /** A 32-bit unsigned integer (`u32`), the type of the image dimensions. */
  type u32 = x: int | 0 <= x < 0x1_0000_0000

  /** A value and a remainder below 64 packed as `q * 64 + r` come apart again: the 6-bit groups of base64 and UTF-8. */
  lemma SplitBy64(q: int, r: int)
    requires 0 <= r < 64
    ensures (q * 64 + r) / 64 == q && (q * 64 + r) % 64 == r
  {
  }
}
