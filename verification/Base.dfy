/** Failure-compatible results and the machine integer ranges used throughout the model. */
module Base {

  type u8 = x: int | 0 <= x < 0x100
  type u16 = x: int | 0 <= x < 0x1_0000
  type u32 = x: int | 0 <= x < 0x1_0000_0000
  type u64 = x: int | 0 <= x < 0x1_0000_0000_0000_0000

  type Bytes = seq<u8>

  datatype Option<+T> = None | Some(value: T)

  datatype Result<+T, +E> = Success(value: T) | Failure(error: E) {
    predicate IsFailure() { Failure? }

    function PropagateFailure<U>(): Result<U, E>
      requires Failure?
    {
      Failure(error)
    }

    function Extract(): T
      requires Success?
    {
      value
    }
  }

  datatype Ordering = Less | Equal | Greater

  lemma Swap(a: nat, c: nat, b: nat)
    ensures a * (c * b) == c * (a * b)
  {
  }

  /** `Ord::cmp` on integers. */
  function Cmp(a: int, b: int): Ordering {
    if a < b then Less else if a > b then Greater else Equal
  }
}
