/** What every component shares: bytes, optional values, the errors of `std::io`, and that
    concatenation is associative. */
module Primitives {

  type byte = x: int | 0 <= x < 256

  datatype Option<+T> = None | Some(value: T)

  /** An `io::Error`: the end-of-file error a reader makes up itself, or an error of the
      source, told apart by a code. */
  datatype IoError = UnexpectedEof | Io(code: int)

  datatype Result<+T> = Ok(value: T) | Err(error: IoError)

  function Min(a: int, b: int): (m: int)
    ensures m <= a && m <= b && (m == a || m == b)
  {
    if a <= b then a else b
  }

  function Max(a: int, b: int): (m: int)
    ensures m >= a && m >= b && (m == a || m == b)
  {
    if a >= b then a else b
  }

  lemma Regroup<T>(a: seq<T>, b: seq<T>, c: seq<T>)
    ensures a + (b + c) == a + b + c
  {
  }

  lemma Regroup4<T>(a: seq<T>, b: seq<T>, c: seq<T>, d: seq<T>)
    ensures a + (b + c + d) == a + b + c + d
  {
  }

  function WithoutLast<T>(s: seq<T>): seq<T> {
    if s == [] then [] else s[..|s| - 1]
  }
}
