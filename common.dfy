/** Small shared vocabulary: the byte type of a `Uint8Array` element and the
 *  two wrappers used for the operations that can throw. */
module Common {
  /** One element of a `Uint8Array`. */
  newtype byte = x: int | 0 <= x < 256

  datatype Option<T> = None | Some(value: T)

  /** The outcome of an operation that throws `Error` in the source. */
  datatype Result<T, E> = Success(value: T) | Failure(error: E)

  /** `count` copies of `x`. */
  function Repeat(x: int, count: nat): (r: seq<int>)
    ensures |r| == count
    ensures forall i | 0 <= i < count :: r[i] == x
  {
    if count == 0 then [] else Repeat(x, count - 1) + [x]
  }

  /** The elements of `s` in the opposite order. */
  function Reversed<T>(s: seq<T>): (r: seq<T>)
    ensures |r| == |s|
    ensures forall i | 0 <= i < |s| :: r[i] == s[|s| - 1 - i]
  {
    if s == [] then [] else [s[|s| - 1]] + Reversed(s[..|s| - 1])
  }
}
