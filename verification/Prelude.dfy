/** Shared vocabulary: machine bytes and words, Rust's `Option` and `Result`,
    and ASCII literals as bytes. */
module Prelude {

  type byte = b: int | 0 <= b < 256

  const TWO_64: int := 0x1_0000_0000_0000_0000

  type u64 = n: int | 0 <= n < TWO_64

  /** A Rust `String`: its UTF-8 bytes. */
  type Str = seq<byte>

  datatype Option<+T> = None | Some(value: T)

  datatype Result<+T, +E> = Ok(value: T) | Err(error: E) {
    predicate IsFailure() {
      Err?
    }

    function PropagateFailure<U>(): Result<U, E>
      requires Err?
    {
      Err(error)
    }

    function Extract(): T
      requires Ok?
    {
      value
    }
  }

  /** `Err(error)` unless `condition` holds: the source's early returns. */
  function Need<E>(condition: bool, error: E): Result<(), E> {
    if condition then Ok(()) else Err(error)
  }

  /** The cast `as u64`. */
  function AsU64(n: nat): u64 {
    n % TWO_64
  }

  /** The bytes of an ASCII string literal. */
  function Bytes(text: string): (b: Str)
    ensures |b| == |text|
    ensures forall i :: 0 <= i < |text| ==> b[i] == text[i] as int % 256
  {
    seq(|text|, i requires 0 <= i < |text| => text[i] as int % 256)
  }

  /** `u8::is_ascii_whitespace`. */
  predicate IsAsciiWhitespace(c: byte) {
    c == ' ' as int || 9 <= c <= 10 || 12 <= c <= 13
  }

  function Min(a: int, b: int): int {
    if a <= b then a else b
  }
}
