/** The try/catch/finally-style DSL over `Result` (package `multicatch.javalike`).

    `catch` and `catchTrying` apply the same matching rule as the multi-catch `recover`
    and `recoverCatching` under Java-like names; `finally` runs a block whatever the
    receiver holds; `throwIfNotCaught` and `getValue` end a chain by unwrapping it.
 */
module JavaLike {
  import opened Kinds
  import opened Outcomes
  import Multicatch

  /** A typed handler for kind `single` needs to be defined only on instances of
      `single`: the source casts the exception to that type after the instance test. */
  ghost predicate AcceptsInstancesOf<R>(single: Kind, block: Exn --> Call<R>) {
    forall e: Exn :: IsInstance(single, e.kind) ==> block.requires(e)
  }

  /** A typed handler seen as an untyped one; it is never applied outside `single`. */
  function Widen<R>(single: Kind, block: Exn --> Call<R>): (h: Exn -> Call<R>)
    requires AcceptsInstancesOf(single, block)
    ensures forall e: Exn :: IsInstance(single, e.kind) ==> h(e) == block(e)
  {
    (e: Exn) => if IsInstance(single, e.kind) then block(e) else Raised(e)
  }

  /** `trying { block }`: captures the block's outcome; it never throws. */
  function Trying<R>(block: Call<R>): (r: Result<R>)
    ensures GetOrThrow(r) == block
    ensures block.Returned? ==> r == Success(block.value)
    ensures block.Raised? ==> r == Failure(block.exception)
  {
    RunCatching(block)
  }

  /** `catch(vararg exceptions, catchBlock)`: fires exactly when the receiver is a failure
      whose exception matches the kinds (an empty list matches all); then the result is
      the block's value, or the block's exception propagates. Otherwise the receiver is
      returned and the block is not invoked. */
  function Catch<R>(r: Result<R>, kinds: seq<Kind>, block: Exn -> Call<R>): (out: Run<Result<R>>)
    ensures |out.events| > 0 <==> r.Failure? && Matches(kinds, r.exception)
    ensures !(r.Failure? && Matches(kinds, r.exception)) ==> out == Pure(r)
    ensures r.Failure? && Matches(kinds, r.exception) ==>
      && out.events == [HandlerRan(r.exception)]
      && Unwrapped(out.call) == block(r.exception)
      && (out.call.Returned? ==> out.call.value.Success?)
    ensures out == Multicatch.Recover(r, kinds, block)
  {
    if r.Failure? && (|kinds| == 0 || AnyInstance(kinds, r.exception)) then
      StdRecover(r, block)
    else
      Pure(r)
  }

  /** `catch(single, catchBlock)` with a typed block: fires exactly when the receiver is
      a failure whose exception is an instance of `single`, and the block receives that
      same exception. */
  function CatchSingle<R>(r: Result<R>, single: Kind, block: Exn --> Call<R>): (out: Run<Result<R>>)
    requires AcceptsInstancesOf(single, block)
    ensures |out.events| > 0 <==> r.Failure? && IsInstance(single, r.exception.kind)
    ensures !(r.Failure? && IsInstance(single, r.exception.kind)) ==> out == Pure(r)
    ensures r.Failure? && IsInstance(single, r.exception.kind) ==>
      && out.events == [HandlerRan(r.exception)]
      && Unwrapped(out.call) == block(r.exception)
      && (out.call.Returned? ==> out.call.value.Success?)
  {
    if r.Failure? && IsInstance(single, r.exception.kind) then
      var c := block(r.exception);
      StdRecover(r, (_: Exn) => c)
    else
      Pure(r)
  }

  /** The typed overload is the vararg overload with one kind. */
  lemma CatchSingleIsOneKindCatch<R>(r: Result<R>, single: Kind, block: Exn --> Call<R>)
    requires AcceptsInstancesOf(single, block)
    ensures CatchSingle(r, single, block) == Catch(r, [single], Widen(single, block))
  {
  }

  /** `catch catchBlock` (infix): catches every failure. */
  function CatchAll<R>(r: Result<R>, block: Exn -> Call<R>): (out: Run<Result<R>>)
    ensures r.Failure? ==> out.events == [HandlerRan(r.exception)]
    ensures r.Success? ==> out == Pure(r)
    ensures out == Catch(r, [], block)
  {
    Catch(r, [], block)
  }

  /** `catchTrying(vararg exceptions, catchBlock)`: `catch` whose outcome is re-captured,
      so an exception thrown by the block becomes a `Failure` and the call never throws.
      It agrees with the multi-catch `recoverCatching`, including on the empty list. */
  function CatchTrying<R>(r: Result<R>, kinds: seq<Kind>, block: Exn -> Call<R>): (out: Run<Result<R>>)
    ensures out.call.Returned?
    ensures |out.events| > 0 <==> r.Failure? && Matches(kinds, r.exception)
    ensures !(r.Failure? && Matches(kinds, r.exception)) ==> out == Pure(r)
    ensures r.Failure? && Matches(kinds, r.exception) ==>
      && out.events == [HandlerRan(r.exception)]
      && out.call.value == RunCatching(block(r.exception))
    ensures out == Multicatch.RecoverCatching(r, kinds, block)
  {
    Multicatch.PropagateVersusCapture(r, kinds, block);
    Recapture(Catch(r, kinds, block))
  }

  /** `catchTrying(single, catchBlock)` with a typed block. */
  function CatchTryingSingle<R>(r: Result<R>, single: Kind, block: Exn --> Call<R>): (out: Run<Result<R>>)
    requires AcceptsInstancesOf(single, block)
    ensures out.call.Returned?
    ensures |out.events| > 0 <==> r.Failure? && IsInstance(single, r.exception.kind)
    ensures !(r.Failure? && IsInstance(single, r.exception.kind)) ==> out == Pure(r)
    ensures r.Failure? && IsInstance(single, r.exception.kind) ==>
      && out.events == [HandlerRan(r.exception)]
      && out.call.value == RunCatching(block(r.exception))
    ensures out == CatchTrying(r, [single], Widen(single, block))
  {
    CatchSingleIsOneKindCatch(r, single, block);
    Recapture(CatchSingle(r, single, block))
  }

  /** `catchTrying catchBlock` (infix): catches every failure, capturing what the block
      throws. */
  function CatchTryingAll<R>(r: Result<R>, block: Exn -> Call<R>): (out: Run<Result<R>>)
    ensures out.call.Returned?
    ensures r.Failure? ==> out.events == [HandlerRan(r.exception)]
    ensures r.Failure? ==> out.call.value == RunCatching(block(r.exception))
    ensures r.Success? ==> out == Pure(r)
    ensures out == CatchTrying(r, [], block)
  {
    CatchTrying(r, [], block)
  }

  /** `finally finallyBlock` (infix): runs the block exactly once, whatever the receiver
      holds, and returns the receiver; an exception from the block propagates. */
  function Finally<T>(r: Result<T>, block: Call<()>): (out: Run<Result<T>>)
    ensures out.events == [FinallyRan]
    ensures block.Returned? ==> out.call == Returned(r)
    ensures block.Raised? ==> out.call == Raised(block.exception)
  {
    match block
    case Returned(_) => Run(Returned(r), [FinallyRan])
    case Raised(j) => Run(Raised(j), [FinallyRan])
  }

  /** `throwIfNotCaught()`: returns normally on a success and rethrows the captured
      exception of a failure. */
  function ThrowIfNotCaught<T>(r: Result<T>): (c: Call<()>)
    ensures c.Raised? <==> r.Failure?
    ensures r.Failure? ==> c.exception == r.exception
  {
    match r
    case Success(_) => Returned(())
    case Failure(e) => Raised(e)
  }

  /** `getValue` (property delegation): every read unwraps the receiver, giving the
      success value or rethrowing the captured exception. */
  function GetValue<R>(r: Result<R>): (c: Call<R>)
    ensures RunCatching(c) == r
    ensures c.Raised? <==> ThrowIfNotCaught(r).Raised?
  {
    GetOrThrow(r)
  }
}
