/** Kotlin's `Result<T>` and the ambient exception mechanism.

    A block that may throw is modelled by its outcome, a `Call`: it either returned a
    value or raised an exception. A combinator that runs user blocks returns a `Run`:
    its own outcome together with the blocks it invoked, in order, so that "the handler
    was not invoked" and "the finally block ran exactly once" are facts about values.
 */
module Outcomes {
  import opened Kinds

  /** kotlin.Result: a success value or a captured exception. */
  datatype Result<T> = Success(value: T) | Failure(exception: Exn)

  /** The outcome of evaluating a block: it returned normally, or it threw. */
  datatype Call<A> = Returned(value: A) | Raised(exception: Exn)

  /** A user block invoked by a combinator. */
  datatype Event = HandlerRan(arg: Exn) | FinallyRan

  /** The outcome of one combinator call and the user blocks it invoked. */
  datatype Run<A> = Run(call: Call<A>, events: seq<Event>)

  /** A combinator that returned `a` without invoking any user block. */
  function Pure<A>(a: A): Run<A> {
    Run(Returned(a), [])
  }

  /** `runCatching { block }`: captures the block's exception as data; never throws. */
  function RunCatching<T>(block: Call<T>): (r: Result<T>)
    ensures r.Success? <==> block.Returned?
    ensures block.Returned? ==> r.value == block.value
    ensures block.Raised? ==> r.exception == block.exception
  {
    match block
    case Returned(v) => Success(v)
    case Raised(e) => Failure(e)
  }

  /** `getOrThrow()`: rethrows a captured exception; capturing it again gives the same
      result back. */
  function GetOrThrow<T>(r: Result<T>): (c: Call<T>)
    ensures RunCatching(c) == r
  {
    match r
    case Success(v) => Returned(v)
    case Failure(e) => Raised(e)
  }

  /** Capturing and then rethrowing reproduces the block's outcome. */
  lemma CaptureRoundTrip<T>(block: Call<T>)
    ensures GetOrThrow(RunCatching(block)) == block
  {
  }

  /** The outcome of the block `{ x.getOrThrow() }` where evaluating `x` had outcome `c`:
      an exception raised while computing `x` and one captured inside `x` surface alike. */
  function Unwrapped<T>(c: Call<Result<T>>): (u: Call<T>)
    ensures c.Raised? ==> u == Raised(c.exception)
    ensures c.Returned? ==> RunCatching(u) == c.value
  {
    match c
    case Returned(res) => GetOrThrow(res)
    case Raised(j) => Raised(j)
  }

  /** `runCatching { x.getOrThrow() }` around a combinator call `x`: the events of `x`
      are kept, a result of `x` comes back unchanged and an exception escaping `x`
      becomes a `Failure`; the whole never throws. */
  function Recapture<T>(run: Run<Result<T>>): (out: Run<Result<T>>)
    ensures out.call.Returned?
    ensures out.events == run.events
    ensures run.call.Returned? ==> out.call.value == run.call.value
    ensures run.call.Raised? ==> out.call.value == Failure(run.call.exception)
  {
    Run(Returned(RunCatching(Unwrapped(run.call))), run.events)
  }

  /** The standard library's single-lambda `Result.recover(transform)`: a success is
      returned as is; on a failure the transform is applied to the exception, and an
      exception it throws propagates. */
  function StdRecover<T>(r: Result<T>, transform: Exn -> Call<T>): (out: Run<Result<T>>)
    ensures r.Success? ==> out == Pure(r)
    ensures r.Failure? ==> out.events == [HandlerRan(r.exception)]
    ensures r.Failure? ==> Unwrapped(out.call) == transform(r.exception)
    ensures r.Failure? && out.call.Returned? ==> out.call.value.Success?
  {
    match r
    case Success(_) => Pure(r)
    case Failure(e) =>
      var c := match transform(e)
        case Returned(v) => Returned(Success(v))
        case Raised(j) => Raised(j);
      Run(c, [HandlerRan(e)])
  }

  /** The standard library's single-lambda `Result.recoverCatching(transform)`: like
      `StdRecover`, but an exception thrown by the transform is captured. */
  function StdRecoverCatching<T>(r: Result<T>, transform: Exn -> Call<T>): (out: Run<Result<T>>)
    ensures out.call.Returned?
    ensures r.Success? ==> out == Pure(r)
    ensures r.Failure? ==> out.events == [HandlerRan(r.exception)]
    ensures r.Failure? ==> out.call.value == RunCatching(transform(r.exception))
  {
    match r
    case Success(_) => Pure(r)
    case Failure(e) => Run(Returned(RunCatching(transform(e))), [HandlerRan(e)])
  }

  /** Capturing is propagating followed by re-capturing. */
  lemma StdRecoverCatchingIsRecapturedRecover<T>(r: Result<T>, transform: Exn -> Call<T>)
    ensures StdRecoverCatching(r, transform) == Recapture(StdRecover(r, transform))
  {
  }
}
