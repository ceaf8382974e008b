/** Small datatypes shared by every model: an optional value, a success-or-error result, and elapsed time. */
module Prelude {
  datatype Option<+T> = None | Some(value: T)

  datatype Result<+T, +E> = Ok(value: T) | Err(error: E)

  function Min(a: int, b: int): (m: int)
    ensures m <= a && m <= b && (m == a || m == b)
  {
    if a <= b then a else b
  }

  /** The time from one clock reading to a later one; 0 if the clock went back. */
  function Elapsed(now: nat, since: nat): nat { if now >= since then now - since else 0 }
}
