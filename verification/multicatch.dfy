/** The multi-catch extensions on `Result` (package `multicatch`): `recover` and
    `recoverCatching` taking a list of exception kinds. An empty list catches every
    exception.
 */
module Multicatch {
  import opened Kinds
  import opened Outcomes

  /** `Result.recover(vararg exceptions, transform)`: a failure whose exception matches
      the kinds is recovered by the transform, whose own exception propagates; a success
      or an unmatched failure is returned unchanged and the transform is not invoked. */
  function Recover<T>(r: Result<T>, kinds: seq<Kind>, transform: Exn -> Call<T>): (out: Run<Result<T>>)
    ensures |out.events| > 0 <==> r.Failure? && Matches(kinds, r.exception)
    ensures r.Success? ==> out == Pure(r)
    ensures r.Failure? && !Matches(kinds, r.exception) ==> out == Pure(r)
    ensures r.Failure? && Matches(kinds, r.exception) ==>
      && out.events == [HandlerRan(r.exception)]
      && (transform(r.exception).Returned? ==> out.call == Returned(Success(transform(r.exception).value)))
      && (transform(r.exception).Raised? ==> out.call == Raised(transform(r.exception).exception))
  {
    if r.Failure? && (|kinds| == 0 || AnyInstance(kinds, r.exception)) then
      StdRecover(r, transform)
    else
      Pure(r)
  }

  /** `Result.recoverCatching(vararg exceptions, transform)`: the same matching rule as
      `Recover`, but an exception thrown by the transform becomes a `Failure`, so the
      call never throws. A success or an unmatched failure comes back unchanged. */
  function RecoverCatching<T>(r: Result<T>, kinds: seq<Kind>, transform: Exn -> Call<T>): (out: Run<Result<T>>)
    ensures out.call.Returned?
    ensures |out.events| > 0 <==> r.Failure? && Matches(kinds, r.exception)
    ensures r.Success? ==> out == Pure(r)
    ensures r.Failure? && !Matches(kinds, r.exception) ==> out == Pure(r)
    ensures r.Failure? && Matches(kinds, r.exception) ==>
      && out.events == [HandlerRan(r.exception)]
      && out.call.value == RunCatching(transform(r.exception))
  {
    if |kinds| == 0 then
      StdRecoverCatching(r, transform)
    else
      Recapture(Recover(r, kinds, transform))
  }

  /** The empty-list path through the standard library agrees with the list path given a
      list that catches everything. */
  lemma RecoverCatchingStdlibPathAgrees<T>(r: Result<T>, transform: Exn -> Call<T>)
    ensures RecoverCatching(r, [], transform) == RecoverCatching(r, [Throwable], transform)
  {
    if r.Failure? {
      ThrowableCatchesAll(r.exception);
    }
  }

  /** Propagation versus capture: for every kind list, `RecoverCatching` is `Recover`
      with its outcome re-captured. So a transform exception `j` that makes `Recover`
      throw makes `RecoverCatching` return `Failure(j)`, and otherwise both return the
      same result after invoking the same blocks. */
  lemma PropagateVersusCapture<T>(r: Result<T>, kinds: seq<Kind>, transform: Exn -> Call<T>)
    ensures RecoverCatching(r, kinds, transform) == Recapture(Recover(r, kinds, transform))
    ensures Recover(r, kinds, transform).call.Raised? ==>
      RecoverCatching(r, kinds, transform).call == Returned(Failure(Recover(r, kinds, transform).call.exception))
    ensures Recover(r, kinds, transform).call.Returned? ==>
      RecoverCatching(r, kinds, transform).call == Recover(r, kinds, transform).call
  {
    if |kinds| == 0 {
      StdRecoverCatchingIsRecapturedRecover(r, transform);
    }
  }

  /** A success short-circuits both combinators whatever the kinds and transform. */
  lemma SuccessShortCircuits<T>(v: T, kinds: seq<Kind>, transform: Exn -> Call<T>)
    ensures Recover(Success(v), kinds, transform) == Pure(Success(v))
    ensures RecoverCatching(Success(v), kinds, transform) == Pure(Success(v))
  {
  }
}
