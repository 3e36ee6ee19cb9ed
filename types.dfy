/** Machine integer widths and the Option/Result wrappers shared by the model. */
module Types {

  /** `u32`, the width of control and property identifiers. */
  newtype u32 = x: int | 0 <= x < 0x1_0000_0000

  /** `u8`, the element of a byte control. */
  newtype u8 = x: int | 0 <= x < 0x100

  /** `i32`, the element of a 32-bit integer control. */
  newtype i32 = x: int | -0x8000_0000 <= x < 0x8000_0000

  /** `i64`, the element of a 64-bit integer control. */
  newtype i64 = x: int | -0x8000_0000_0000_0000 <= x < 0x8000_0000_0000_0000

  /** A nullable result: `None` stands for a null pointer or Rust's `None`. */
  datatype Option<+T> = None | Some(value: T)

  /** Rust's `Result`. */
  datatype Result<+T, +E> = Ok(value: T) | Err(error: E)
}
