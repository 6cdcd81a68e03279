/** The decoder's failure kinds and the result every decoder returns. */
module Errors {
  import opened Bytes

  /** A decode failure. The source also wraps I/O errors of the reader; a
      finite byte sequence cannot fail that way, so only these two arise. */
  datatype ParseError =
    | MissingData
    | InvalidValue(value: seq<Byte>)

  datatype Option<+T> = None | Some(value: T)

  /** What was consumed and what is left of the stream after one value.
      `rest` is the unread input in both cases: a failure leaves the stream
      wherever the failing read stopped. */
  datatype Result<+T> =
    | Ok(value: T, rest: seq<Byte>)
    | Err(error: ParseError, rest: seq<Byte>)
  {
    predicate IsFailure() {
      Err?
    }

    function PropagateFailure<U>(): Result<U>
      requires Err?
    {
      Err(error, rest)
    }

    function Extract(): Parsed<T>
      requires Ok?
    {
      Parsed(value, rest)
    }
  }

  /** A successful decode seen through `:-`. */
  datatype Parsed<+T> = Parsed(value: T, rest: seq<Byte>)
}
