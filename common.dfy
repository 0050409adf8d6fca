/**
 * Value types shared by the whole model: the bounded integer types of the
 * source's signatures, an Option for nullable values, and an Outcome that
 * stands for "returned normally" or "threw one of these exceptions".
 */
module Common {

  /** A C# `ushort`: offsets, sizes and the pool size. */
  type UShort = x: int | 0 <= x < 0x1_0000

  /** A C# `int`: task deadlines and durations as the caller passes them. */
  type Int32 = x: int | -0x8000_0000 <= x < 0x8000_0000

  datatype Option<+T> = None | Some(value: T)

  /** The .NET exceptions the core throws, with the parameter name they carry. */
  datatype Exception =
    | ArgumentNull(param: string)
    | ArgumentOutOfRange(param: string)
    | InvalidOperation

  /** The result of a member that either returns `value` or throws `error`. */
  datatype Outcome<+T> = Ok(value: T) | Fault(error: Exception)

  /** `Math.Max` on integers. */
  function Max(a: int, b: int): (m: int)
    ensures m >= a && m >= b
    ensures m == a || m == b
  {
    if a >= b then a else b
  }
}
