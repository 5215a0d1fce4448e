/** Failure-carrying values shared by every module of the model. */
module Wrappers {

  /** A value that may be absent: JavaScript's `null`/`undefined`, Python's `None`. */
  datatype Option<+T> = None | Some(value: T) {
    function GetOr(default: T): T {
      match this
      case Some(v) => v
      case None => default
    }
  }

  /** The outcome of a step that either produces a value or raises an error. */
  datatype Result<+T, +E> = Ok(value: T) | Err(error: E) {
    /** `:-` stops at an `Err` and passes it on. */
    predicate IsFailure() {
      Err?
    }

    function PropagateFailure<U>(): Result<U, E>
      requires Err?
    {
      Err(error)
    }

    function Extract(): T
      requires Ok?
    {
      value
    }
  }

  /**
   * Running the first `n` steps of a loop whose body may throw: the values of
   * those steps in order, or the error of the first step that throws (the
   * loop stops there).
   */
  function FirstN<T, E>(steps: seq<Result<T, E>>, n: nat): (r: Result<seq<T>, E>)
    requires n <= |steps|
    ensures r.Ok? ==> |r.value| == n
  {
    if n == 0 then Ok([])
    else match FirstN(steps, n - 1)
      case Err(e) => Err(e)
      case Ok(done) =>
        match steps[n - 1]
        case Err(e) => Err(e)
        case Ok(v) => Ok(done + [v])
  }

  /** Once a step has thrown, running further steps does not change the outcome. */
  lemma {:induction false} FirstNErrorPersists<T, E>(steps: seq<Result<T, E>>, n: nat, m: nat)
    requires n <= m <= |steps|
    requires FirstN(steps, n).Err?
    ensures FirstN(steps, m) == FirstN(steps, n)
    decreases m - n
  {
    if n < m {
      FirstNErrorPersists(steps, n, m - 1);
    }
  }

  /** The run succeeds exactly when no step throws, and then it holds every step's value in order. */
  lemma {:induction false} FirstNOk<T, E>(steps: seq<Result<T, E>>, n: nat)
    requires n <= |steps|
    ensures FirstN(steps, n).Ok? <==> forall j :: 0 <= j < n ==> steps[j].Ok?
    ensures FirstN(steps, n).Ok? ==> forall j :: 0 <= j < n ==> steps[j] == Ok(FirstN(steps, n).value[j])
  {
    if n > 0 {
      FirstNOk(steps, n - 1);
    }
  }

  /** A failed run reports the error of the first step that throws; every step before it succeeded. */
  lemma {:induction false} FirstNErr<T, E>(steps: seq<Result<T, E>>, n: nat)
    requires n <= |steps|
    requires FirstN(steps, n).Err?
    ensures exists k :: 0 <= k < n && steps[k] == Err(FirstN(steps, n).error) && forall j :: 0 <= j < k ==> steps[j].Ok?
  {
    var e := FirstN(steps, n).error;
    if FirstN(steps, n - 1).Err? {
      FirstNErr(steps, n - 1);
    } else {
      FirstNOk(steps, n - 1);
      assert steps[n - 1] == Err(e);
      assert forall j :: 0 <= j < n - 1 ==> steps[j].Ok?;
    }
  }
}
