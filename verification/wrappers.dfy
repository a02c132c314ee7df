/** Failure-carrying wrappers used across the model: `Option` for Python's
    `None`-or-value returns and `Result` for operations that either produce a
    value or raise an exception the caller catches. */
module Wrappers {

  datatype Option<+T> = None | Some(value: T) {

    /** The value, or `default` when there is none (Python's `x or default`). */
    function GetOr(default: T): T {
      match this
      case Some(v) => v
      case None => default
    }
  }

  datatype Result<+T, +E> = Ok(value: T) | Err(error: E) {

    function ToOption(): Option<T> {
      match this
      case Ok(v) => Some(v)
      case Err(_) => None
    }
  }

  /** Applies `f` to the elements in order and stops at the first `None`:
      the shape of a loop whose body may raise, caught outside the loop. */
  function MapWhileSome<A, B>(xs: seq<A>, f: A -> Option<B>): (r: seq<B>)
    ensures |r| <= |xs|
    ensures forall i | 0 <= i < |r| :: f(xs[i]) == Some(r[i])
    ensures |r| < |xs| ==> f(xs[|r|]).None?
  {
    if |xs| == 0 then []
    else
      match f(xs[0])
      case None => []
      case Some(y) =>
        var rest := MapWhileSome(xs[1..], f);
        assert forall i | 1 <= i <= |rest| :: xs[i] == xs[1..][i - 1];
        [y] + rest
  }
}
