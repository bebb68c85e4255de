/** Failure-compatible wrappers shared by every puzzle module.

    A Rust `Option` becomes `Option`; a Rust `Result`, and also a panic
    (`unwrap`, `expect`, an index out of range, an unsigned underflow),
    becomes `Result` with an error value saying which of those it was.
 */
module Wrappers {

  datatype Option<+T> = None | Some(value: T) {

    predicate IsFailure() {
      None?
    }

    function PropagateFailure<U>(): Option<U>
      requires None?
    {
      None
    }

    function Extract(): T
      requires Some?
    {
      value
    }
  }

  datatype Result<+T, +E> = Ok(value: T) | Err(error: E) {

    predicate IsFailure() {
      Err?
    }

    function PropagateFailure<U>(): Result<U, E>
      requires Err?
    {
      Err(error)
    }

    function Extract(): T
      requires Ok?
    {
      value
    }
  }

  /** `Ok` when `condition` holds, otherwise the given error; used with `:-`. */
  datatype Outcome<+E> = Pass | Fail(error: E) {

    predicate IsFailure() {
      Fail?
    }

    function PropagateFailure<U>(): Result<U, E>
      requires Fail?
    {
      Err(error)
    }
  }

  function Need<E>(condition: bool, error: E): Outcome<E>
  {
    if condition then Pass else Fail(error)
  }

  /** Converts an `Option` into a `Result`, as Rust's `ok_or` does. */
  function OkOr<T, E>(o: Option<T>, error: E): Result<T, E>
  {
    match o
    case Some(v) => Ok(v)
    case None => Err(error)
  }

  /** Applies `f` to every element in order, stopping at the first error
      (Rust's `collect::<Result<Vec<_>, _>>()`, or a loop using `?`). */
  function TryMap<T, U, E>(xs: seq<T>, f: T -> Result<U, E>): (r: Result<seq<U>, E>)
    ensures r.Ok? <==> forall i :: 0 <= i < |xs| ==> f(xs[i]).Ok?
    ensures r.Ok? ==> |r.value| == |xs| && forall i :: 0 <= i < |xs| ==> f(xs[i]) == Ok(r.value[i])
    ensures r.Err? ==> exists i :: 0 <= i < |xs| && f(xs[i]) == Err(r.error) && forall j :: 0 <= j < i ==> f(xs[j]).Ok?
    decreases |xs|
  {
    if xs == [] then Ok([])
    else
      match f(xs[0])
      case Err(e) => Err(e)
      case Ok(first) =>
        match TryMap(xs[1..], f)
        case Err(e) =>
          assert exists i :: 0 <= i < |xs| && f(xs[i]) == Err(e) && forall j :: 0 <= j < i ==> f(xs[j]).Ok? by {
            var i :| 0 <= i < |xs| - 1 && f(xs[1..][i]) == Err(e) && forall j :: 0 <= j < i ==> f(xs[1..][j]).Ok?;
            assert forall j :: 0 <= j < i + 1 ==> f(xs[j]).Ok? by {
              forall j | 0 <= j < i + 1
                ensures f(xs[j]).Ok?
              {
                if j > 0 { assert xs[j] == xs[1..][j - 1]; }
              }
            }
            assert f(xs[i + 1]) == Err(e);
          }
          Err(e)
        case Ok(rest) => Ok([first] + rest)
  }

  /** `TryMap` succeeds with exactly the values `f` gives, when `f` gives
      one for every element. */
  lemma TryMapAllOk<T, U, E>(xs: seq<T>, f: T -> Result<U, E>, ys: seq<U>)
    requires |xs| == |ys|
    requires forall i :: 0 <= i < |xs| ==> f(xs[i]) == Ok(ys[i])
    ensures TryMap(xs, f) == Ok(ys)
  {
    var r := TryMap(xs, f);
    assert r.Ok?;
    assert r.value == ys;
  }
}
