/** The two-variant outcome type used instead of exceptions by every
    fallible operation of the domain layer (src/lib/result.ts). */
module Results {

  /** An optional value: the source's `undefined`, `null` and `NaN` cases. */
  datatype Option<+T> = None | Some(value: T)

  /** Exactly one of two variants, told apart by `success`: a value exists
      only on the success variant and an error only on the failure variant. */
  datatype Result<+T, +E> = Success(value: T) | Failure(error: E) {

    /** The `success` discriminant of the source's tagged union. */
    predicate success() {
      Success?
    }

    predicate IsFailure() {
      Failure?
    }

    function PropagateFailure<U>(): Result<U, E>
      requires Failure?
    {
      Failure(error)
    }

    function Extract(): T
      requires Success?
    {
      value
    }
  }

  /** `Result.ok(value)`: a success carrying exactly `value`. The validators
      of this model build `Success(..)` and `Failure(..)` directly; `Ok` and
      `Err` mirror the two constructors of src/lib/result.ts, and
      `ExactlyOneVariant` ties them to the datatype. */
  function Ok<T, E>(v: T): (r: Result<T, E>)
    ensures r.success() && r.value == v
    ensures !r.IsFailure()
  {
    Success(v)
  }

  /** `Result.err(error)`: a failure carrying exactly `error`. */
  function Err<T, E>(e: E): (r: Result<T, E>)
    ensures !r.success() && r.error == e
    ensures r.IsFailure()
  {
    Failure(e)
  }

  /** Every result is built by exactly one of `ok` and `err`, and the
      discriminant decides which. */
  lemma ExactlyOneVariant<T, E>(r: Result<T, E>)
    ensures r.success() ==> r == Ok(r.value)
    ensures !r.success() ==> r == Err(r.error)
  {
    if r.success() {
      assert r == Ok(r.value);
    } else {
      assert r == Err(r.error);
    }
  }
}
