/** Small shared vocabulary: optional values, results, the integer widths of the source. */
module Basics {

  datatype Option<+T> = None | Some(value: T)

  /** What can go wrong while a message is read or re-encoded. */
  datatype Error =
    | NoForm            // a row with neither bytes nor a struct
    | NoPlan            // a struct row on a topic whose definition cannot be reflected
    | WrongColumn       // a column of another type than its layout's
    | WrongLength       // a fixed-size array of another size, or a message of another arity
    | Unsupported       // ROS 2 `wstring`
    | NoTopic           // a topic index that was never handed out

  datatype Result<+T> = Ok(value: T) | Err(error: Error)

  const I64_MIN: int := -0x8000_0000_0000_0000
  const I64_MAX: int := 0x7FFF_FFFF_FFFF_FFFF

  type i64 = x: int | I64_MIN <= x <= I64_MAX

  type byte = x: int | 0 <= x < 256

  type bytes = seq<byte>

  function Min(a: int, b: int): int { if a <= b then a else b }

  function Max(a: int, b: int): int { if a <= b then b else a }
}
