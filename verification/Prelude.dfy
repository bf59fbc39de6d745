/** Option and result types shared by the modules. */
module Prelude {
  datatype Option<+T> = None | Some(value: T)

  datatype Result<+T, +E> = Success(value: T) | Failure(error: E)

  newtype Byte = b: int | 0 <= b < 256

  type Bytes = seq<Byte>

  /** The largest value of Go's `int` and `int64`. */
  const MAX_INT64: int := 0x7FFF_FFFF_FFFF_FFFF

  /** Two's complement wrap-around of Go's signed 64-bit arithmetic. */
  function Wrap64(x: int): int {
    (x + 0x8000_0000_0000_0000) % 0x1_0000_0000_0000_0000 - 0x8000_0000_0000_0000
  }

  /** Go's integer division: truncates toward zero. */
  function Quotient(a: int, b: int): int
    requires b > 0
  {
    if a >= 0 then a / b else -((-a) / b)
  }

  /** A set with elements has an element. */
  lemma Pick<T>(s: set<T>) returns (x: T)
    requires |s| > 0
    ensures x in s
  {
    x :| x in s;
  }

  lemma NoElements<T>(s: set<T>)
    requires |s| == 0
    ensures forall x :: x !in s
  {
  }
}
