/** Optional values, results with an error and vector resizing, shared by every module of the model. */
module Wrappers {

  datatype Option<T> = None | Some(value: T)

  /** The value of a call that returns normally, or the exception it throws. */
  datatype Result<T, E> = Success(value: T) | Failure(error: E)
  {
    predicate IsFailure() { Failure? }
  }

  /** `std::vector::resize(n)`: keeps the first n elements and pads with the value-initialised `fill`. */
  function Resized<T>(v: seq<T>, n: nat, fill: T): (r: seq<T>)
    ensures |r| == n
    ensures forall i :: 0 <= i < n ==> r[i] == if i < |v| then v[i] else fill
  {
    if n <= |v| then v[..n] else v + seq(n - |v|, _ => fill)
  }
}
