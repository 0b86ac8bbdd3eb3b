/** The older copy of the try/catch/finally DSL (package `javalikemulticatch`).

    Its definitions are the same code as in `multicatch.javalike`, except that it has no
    typed `catchTrying` overload and its infix `catch` is not inline (which changes
    nothing observable). Each operation is defined here from its own source text, and
    its contract is agreement with the `JavaLike` module, whose contracts therefore
    carry over.
 */
module JavaLikeMulticatch {
  import opened Kinds
  import opened Outcomes
  import JavaLike

  function Trying<R>(block: Call<R>): (r: Result<R>)
    ensures r == JavaLike.Trying(block)
    ensures GetOrThrow(r) == block
  {
    RunCatching(block)
  }

  function Catch<R>(r: Result<R>, kinds: seq<Kind>, block: Exn -> Call<R>): (out: Run<Result<R>>)
    ensures out == JavaLike.Catch(r, kinds, block)
    ensures |out.events| > 0 <==> r.Failure? && Matches(kinds, r.exception)
  {
    if r.Failure? && (|kinds| == 0 || AnyInstance(kinds, r.exception)) then
      StdRecover(r, block)
    else
      Pure(r)
  }

  function CatchSingle<R>(r: Result<R>, single: Kind, block: Exn --> Call<R>): (out: Run<Result<R>>)
    requires JavaLike.AcceptsInstancesOf(single, block)
    ensures out == JavaLike.CatchSingle(r, single, block)
    ensures r.Success? ==> out == Pure(r)
  {
    if r.Failure? && IsInstance(single, r.exception.kind) then
      var c := block(r.exception);
      StdRecover(r, (_: Exn) => c)
    else
      Pure(r)
  }

  function CatchAll<R>(r: Result<R>, block: Exn -> Call<R>): (out: Run<Result<R>>)
    ensures out == JavaLike.CatchAll(r, block)
    ensures r.Failure? ==> out.events == [HandlerRan(r.exception)]
  {
    Catch(r, [], block)
  }

  function CatchTrying<R>(r: Result<R>, kinds: seq<Kind>, block: Exn -> Call<R>): (out: Run<Result<R>>)
    ensures out == JavaLike.CatchTrying(r, kinds, block)
    ensures out.call.Returned?
  {
    Recapture(Catch(r, kinds, block))
  }

  function CatchTryingAll<R>(r: Result<R>, block: Exn -> Call<R>): (out: Run<Result<R>>)
    ensures out == JavaLike.CatchTryingAll(r, block)
    ensures r.Failure? ==> out.events == [HandlerRan(r.exception)]
  {
    CatchTrying(r, [], block)
  }

  function Finally<T>(r: Result<T>, block: Call<()>): (out: Run<Result<T>>)
    ensures out == JavaLike.Finally(r, block)
    ensures out.events == [FinallyRan]
  {
    match block
    case Returned(_) => Run(Returned(r), [FinallyRan])
    case Raised(j) => Run(Raised(j), [FinallyRan])
  }

  function ThrowIfNotCaught<T>(r: Result<T>): (c: Call<()>)
    ensures c == JavaLike.ThrowIfNotCaught(r)
    ensures r.Failure? ==> c == Raised(r.exception)
  {
    match r
    case Success(_) => Returned(())
    case Failure(e) => Raised(e)
  }

  function GetValue<R>(r: Result<R>): (c: Call<R>)
    ensures c == JavaLike.GetValue(r)
    ensures RunCatching(c) == r
  {
    GetOrThrow(r)
  }
}
