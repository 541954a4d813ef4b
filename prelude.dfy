/** Types shared by every module of the model: bytes, optional values, results and the
    reasons for which the server panics. */
module Prelude {

  /** One byte on the wire, written as the character with the same code (so string
      literals such as "\r\n" denote byte sequences). */
  type byte = c: char | c as int < 256

  /** A byte sequence. Rust `String`s are modelled by their UTF-8 bytes. */
  type Bytes = seq<byte>

  /** Rust's `u8` and `u16`. */
  type u8 = x: int | 0 <= x < 0x100
  type u16 = x: int | 0 <= x < 0x1_0000

  datatype Option<+T> = None | Some(value: T)

  datatype Result<+T, +E> = Ok(value: T) | Err(error: E)

  /** Every way in which the server stops with a panic. */
  datatype Panic =
    | UnexpectedEof         // the transport ended before the head or the body was complete
    | RequestParseFailed    // the head tokenizer rejected the head
    | RequestIncomplete     // the head tokenizer reported a partial head
    | UnknownMethod         // the method token is not one of the nine methods
    | InvalidContentLength  // the Content-Length value is not a decimal `usize`
    | UnknownRoute          // no route is registered for the request's method and path
    | DuplicateRoute        // a route is registered twice under the same method and path

  /** A header as a name and a raw value. */
  datatype Header = Header(name: Bytes, value: Bytes)

  /** `a - b` saturating at zero, as Rust's `usize::saturating_sub`. */
  function SaturatingSub(a: nat, b: nat): (r: nat)
    ensures a >= b ==> r + b == a
    ensures a < b ==> r == 0
  {
    if a >= b then a - b else 0
  }
}
