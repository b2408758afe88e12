/** Machine types, byte strings and the error-carrying wrappers shared by the
    transaction-import model. */
module Primitives {

  const I64_MIN: int := -0x8000_0000_0000_0000
  const I64_MAX: int := 0x7FFF_FFFF_FFFF_FFFF
  const U32_MAX: int := 0xFFFF_FFFF

  /** Rust's `i64`: arithmetic that leaves this range panics, so every
      operation on it carries the range obligation. */
  newtype i64 = x: int | -0x8000_0000_0000_0000 <= x < 0x8000_0000_0000_0000

  /** Rust's `u32`, the type of the import counter. */
  newtype u32 = x: int | 0 <= x < 0x1_0000_0000

  newtype byte = x: int | 0 <= x < 256

  /** A Rust `&str`/`String` seen as its UTF-8 bytes. */
  type Text = seq<byte>

  const PLUS: byte := 0x2B
  const MINUS: byte := 0x2D
  const DOT: byte := 0x2E
  const ZERO: byte := 0x30
  const NINE: byte := 0x39

  /** The UTF-8 bytes of an ASCII string literal (a character beyond one
      byte, which no literal here has, becomes 0). */
  function AsciiBytes(s: string): (t: Text)
    ensures |t| == |s|
  {
    seq(|s|, i requires 0 <= i < |s| => if s[i] < 256 as char then s[i] as int as byte else 0)
  }

  datatype Option<+T> = None | Some(value: T) {
    function GetOr(default: T): T {
      match this
      case Some(v) => v
      case None => default
    }
  }

  /** The `anyhow` errors the import path can surface, by origin. */
  datatype Error =
    | OpenFailed   // File::open
    | ReadFailed   // a record the csv reader could not read
    | BadDate      // NaiveDate::parse_from_str rejected field 0
    | StoreFailed  // insert_transaction (the insert or the read-back)

  datatype Result<+T> = Ok(value: T) | Err(error: Error)
}
