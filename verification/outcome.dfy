/** Failure-carrying results shared by every parser of the model.

    The repository reports every malformed input by raising an exception
    (mostly `ValueError`, in a few places `IndexError` or `KeyError`).  The
    model folds all of them into the single failure value `Err`: the
    message text and the exception class are not modelled. */
module Outcome {

  /** An optional value; the counterpart of Python's `X | None`. */
  datatype Option<+T> = None | Some(value: T)

  /** The outcome of a call that may raise.  `Ok(v)` is a normal return of `v`;
      `Err` is any raised exception.  Usable with `:-`. */
  datatype Result<+T> = Ok(value: T) | Err {

    predicate IsFailure() {
      Err?
    }

    function PropagateFailure<U>(): Result<U>
      requires Err?
    {
      Err
    }

    function Extract(): T
      requires Ok?
    {
      value
    }
  }

  /** Applies `f` to every element in order and stops at the first failure,
      the way a Python `for` loop that appends to a list stops at the first
      exception.  All-or-nothing: either every element succeeds and the
      results come back in order, or the whole call fails. */
  function MapResult<A, B>(xs: seq<A>, f: A -> Result<B>): (r: Result<seq<B>>)
    ensures r.Ok? <==> forall i | 0 <= i < |xs| :: f(xs[i]).Ok?
    ensures r.Ok? ==> |r.value| == |xs|
    ensures r.Ok? ==> forall i | 0 <= i < |xs| :: r.value[i] == f(xs[i]).value
  {
    if |xs| == 0 then Ok([])
    else
      match f(xs[0])
      case Err => Err
      case Ok(y) =>
        match MapResult(xs[1..], f)
        case Err => Err
        case Ok(ys) => Ok([y] + ys)
  }

  /** When every element succeeds with a known value, the mapped result is
      exactly those values. */
  lemma {:induction false} MapResultAllOk<A, B>(xs: seq<A>, f: A -> Result<B>, ys: seq<B>)
    requires |ys| == |xs|
    requires forall i | 0 <= i < |xs| :: f(xs[i]) == Ok(ys[i])
    ensures MapResult(xs, f) == Ok(ys)
  {
    var r := MapResult(xs, f);
    assert r.Ok?;
    assert r.value == ys;
  }
}
