/** The demonstration chains of the repository, stated as lemmas over the model.

    The exception classes they use are placed in the JVM hierarchy below Throwable.
    Handlers that only print are modelled as blocks returning unit; which handler ran
    is visible in the events.
 */
module Scenarios {
  import opened Kinds
  import opened Outcomes
  import JavaLike
  import opened Chains

  const Exception: Kind := Sub(Throwable, "Exception")
  const RuntimeException: Kind := Sub(Exception, "RuntimeException")
  const IllegalArgumentException: Kind := Sub(RuntimeException, "IllegalArgumentException")
  const IllegalStateException: Kind := Sub(RuntimeException, "IllegalStateException")
  const IndexOutOfBoundsException: Kind := Sub(RuntimeException, "IndexOutOfBoundsException")
  const ArithmeticException: Kind := Sub(RuntimeException, "ArithmeticException")

  /** A handler that ignores the exception and returns `v`. */
  function Returning<T>(v: T): Exn -> Call<T> {
    (_: Exn) => Returned(v)
  }

  /** A typed handler for class `single` returning `v`; it is defined on instances of
      `single` only. */
  function TypedReturning<T>(single: Kind, v: T): (h: Exn --> Call<T>)
    ensures JavaLike.AcceptsInstancesOf(single, h)
  {
    (x: Exn) requires IsInstance(single, x.kind) => Returned(v)
  }

  /** A handler that ignores the exception and throws `j`. */
  function Throwing<T>(j: Exn): Exn -> Call<T> {
    (_: Exn) => Raised(j)
  }

  /** An IllegalArgumentException passes the clause for IllegalState/IndexOutOfBounds,
      is caught by the one-kind clause, skips the catch-all, and the finally block runs
      once afterwards. The typed one-class `catch` of the source is written as the
      one-kind clause it equals (`JavaLike.CatchSingleIsOneKindCatch`). */
  lemma CatchingSpecificExceptions()
    ensures
      var iae := Exn(IllegalArgumentException, "");
      var cs := [
        Catch([IllegalStateException, IndexOutOfBoundsException], Returning(()), false),
        Catch([IllegalArgumentException], Returning(()), false),
        Catch([], Returning(()), false),
        Finally(Returned(()))];
      RunChain(JavaLike.Trying(Raised(iae)), cs, 0)
        == ChainRun(Returned(Success(())), [Tagged(1, HandlerRan(iae)), Tagged(3, FinallyRan)])
  {
    var iae := Exn(IllegalArgumentException, "");
    var cs := [
      Catch([IllegalStateException, IndexOutOfBoundsException], Returning(()), false),
      Catch([IllegalArgumentException], Returning(()), false),
      Catch([], Returning(()), false),
      Finally(Returned(()))];
    assert !Matches(cs[0].kinds, iae) by {
      assert !IsInstance(IllegalStateException, iae.kind) by {
        assert IllegalStateException.lineage[2] != iae.kind.lineage[2];
      }
      assert !IsInstance(IndexOutOfBoundsException, iae.kind) by {
        assert IndexOutOfBoundsException.lineage[2] != iae.kind.lineage[2];
      }
    }
    SkipUnmatched(iae, cs, 0);
    MatchingClauseFires(iae, cs[1..], 1);
    assert cs[1..][1..] == cs[2..] == [cs[2], cs[3]];
    CatchAllThenFinally();
  }

  /** The tail of `CatchingSpecificExceptions`: a success passes the catch-all, and the
      finally block runs. */
  lemma CatchAllThenFinally()
    ensures RunChain(Success(()), [Catch([], Returning(()), false), Finally(Returned(()))], 2)
      == ChainRun(Returned(Success(())), [Tagged(3, FinallyRan)])
  {
  }

  /** The catchTrying handler for IllegalStateException throws a new exception, which is
      captured and then handled by the trailing catch-all. */
  lemma CatchingAndRetrying()
    ensures
      var ise := Exn(IllegalStateException, "");
      var inner := Exn(Exception, "Thrown inside");
      var cs := [
        Catch([IllegalStateException, IndexOutOfBoundsException], Throwing(inner), true),
        Catch([], Returning(()), false)];
      RunChain(JavaLike.Trying(Raised(ise)), cs, 0)
        == ChainRun(Returned(Success(())), [Tagged(0, HandlerRan(ise)), Tagged(1, HandlerRan(inner))])
  {
    var ise := Exn(IllegalStateException, "");
    var inner := Exn(Exception, "Thrown inside");
    var cs := [
      Catch([IllegalStateException, IndexOutOfBoundsException], Throwing(inner), true),
      Catch([], Returning(()), false)];
    assert Matches(cs[0].kinds, ise) by {
      assert IsInstance(IllegalStateException, ise.kind);
    }
    MatchingClauseFires(ise, cs, 0);
    assert cs[1..] == [cs[1]];
    RecoveredAmongCatches(inner, cs[1..], 1, 0);
  }

  /** A plain Exception skips the specific clause, the catch-all catchTrying yields
      "Totally failed", the finally block runs, and reading the delegated value gives
      that string. */
  lemma ReturningValueByDelegation()
    ensures
      var e := Exn(Exception, "");
      var cs := [
        Catch([IllegalStateException, IndexOutOfBoundsException], Returning("Failed with exception"), false),
        Catch([], Returning("Totally failed"), true),
        Finally(Returned(()))];
      var out := RunChain(JavaLike.Trying(Raised(e)), cs, 0);
      && out == ChainRun(Returned(Success("Totally failed")), [Tagged(1, HandlerRan(e)), Tagged(2, FinallyRan)])
      && JavaLike.GetValue(out.call.value) == Returned("Totally failed")
  {
    var e := Exn(Exception, "");
    var cs := [
      Catch([IllegalStateException, IndexOutOfBoundsException], Returning("Failed with exception"), false),
      Catch([], Returning("Totally failed"), true),
      Finally(Returned(()))];
    assert !Matches(cs[0].kinds, e) by {
      assert !IsInstance(IllegalStateException, e.kind);
      assert !IsInstance(IndexOutOfBoundsException, e.kind);
    }
    FirstMatchWins(e, cs, 0, 1);
    assert cs[2..] == [cs[2]];
    assert Tag([FinallyRan], 2) == [Tagged(2, FinallyRan)];
    assert RunChain(Success("Totally failed"), cs[2..], 2)
      == ChainRun(Returned(Success("Totally failed")), [Tagged(2, FinallyRan)]);
  }

  /** An ArithmeticException is not among the specific kinds; the catch-all catchTrying
      recovers with -2, which getOrThrow returns. */
  lemma ReturningValueByAssignment()
    ensures
      var e := Exn(ArithmeticException, "");
      var cs := [
        Catch([IllegalStateException, IndexOutOfBoundsException], Returning(-1), false),
        Catch([], Returning(-2), true)];
      var out := RunChain(JavaLike.Trying(Raised(e)), cs, 0);
      && out == ChainRun(Returned(Success(-2)), [Tagged(1, HandlerRan(e))])
      && GetOrThrow(out.call.value) == Returned(-2)
  {
    var e := Exn(ArithmeticException, "");
    var cs := [
      Catch([IllegalStateException, IndexOutOfBoundsException], Returning(-1), false),
      Catch([], Returning(-2), true)];
    assert !Matches(cs[0].kinds, e) by {
      assert !IsInstance(IllegalStateException, e.kind) by {
        assert IllegalStateException.lineage[2] != e.kind.lineage[2];
      }
      assert !IsInstance(IndexOutOfBoundsException, e.kind) by {
        assert IndexOutOfBoundsException.lineage[2] != e.kind.lineage[2];
      }
    }
    RecoveredAmongCatches(e, cs, 0, 1);
  }

  /** A plain Exception is not an IllegalStateException: the typed catchTrying does not
      fire and throwIfNotCaught rethrows the original exception. The older package has
      no typed `catchTrying`, so this demonstration is stated with the newer package's
      `JavaLike.CatchTryingSingle`. */
  lemma UncaughtException()
    ensures
      var e := Exn(Exception, "");
      var out := JavaLike.CatchTryingSingle(
        JavaLike.Trying(Raised(e)), IllegalStateException, TypedReturning(IllegalStateException, ()));
      && out == Pure(Failure(e))
      && JavaLike.ThrowIfNotCaught(out.call.value) == Raised(e)
  {
  }

  /** `recover` chain in the multi-catch style, written as the catch clauses it equals
      (`Chains.ClauseIsOperation`): an ArithmeticException passes the clause for
      IllegalArgument/IllegalState, is recovered as "Failure" by the clause for
      ArithmeticException, and the catch-all is not invoked. */
  lemma RecoverMoreThanOnce()
    ensures
      var e := Exn(ArithmeticException, "/ by zero");
      var cs := [
        Catch([IllegalArgumentException, IllegalStateException], Returning("Mistake"), false),
        Catch([ArithmeticException], Returning("Failure"), false),
        Catch([], Returning("Fatal"), false)];
      RunChain(RunCatching(Raised(e)), cs, 0)
        == ChainRun(Returned(Success("Failure")), [Tagged(1, HandlerRan(e))])
  {
    var e := Exn(ArithmeticException, "/ by zero");
    var cs := [
      Catch([IllegalArgumentException, IllegalStateException], Returning("Mistake"), false),
      Catch([ArithmeticException], Returning("Failure"), false),
      Catch([], Returning("Fatal"), false)];
    assert !Matches(cs[0].kinds, e) by {
      assert IllegalArgumentException.lineage[2] != e.kind.lineage[2];
      assert IllegalStateException.lineage[2] != e.kind.lineage[2];
    }
    RecoveredAmongCatches(e, cs, 0, 1);
  }

  /** `recoverCatching` whose handler divides by zero, as a chain: the
      ArithmeticException it throws is captured and then recovered as -1 by the next
      clause. */
  lemma CatchingWhileRecovery()
    ensures
      var ise := Exn(IllegalStateException, "For this function A needs to be greater than B.");
      var div := Exn(ArithmeticException, "/ by zero");
      var cs := [
        Catch([IllegalArgumentException, IllegalStateException], Throwing(div), true),
        Catch([ArithmeticException], Returning(-1), false)];
      RunChain(RunCatching(Raised(ise)), cs, 0)
        == ChainRun(Returned(Success(-1)), [Tagged(0, HandlerRan(ise)), Tagged(1, HandlerRan(div))])
  {
    var ise := Exn(IllegalStateException, "For this function A needs to be greater than B.");
    var div := Exn(ArithmeticException, "/ by zero");
    var cs := [
      Catch([IllegalArgumentException, IllegalStateException], Throwing(div), true),
      Catch([ArithmeticException], Returning(-1), false)];
    assert Matches(cs[0].kinds, ise) by {
      assert IsInstance(IllegalStateException, ise.kind);
    }
    MatchingClauseFires(ise, cs, 0);
    assert cs[1..] == [cs[1]];
    RecoveredAmongCatches(div, cs[1..], 1, 0);
  }

  /** An exception no clause handles survives the chain, and getOrThrow rethrows it. */
  lemma UnhandledIsRethrown()
    ensures
      var e := Exn(ArithmeticException, "/ by zero");
      var cs := [Catch([IllegalArgumentException], Returning(()), false)];
      var out := RunChain(RunCatching(Raised(e)), cs, 0);
      && out == ChainRun(Returned(Failure(e)), [])
      && GetOrThrow(out.call.value) == Raised(e)
  {
    var e := Exn(ArithmeticException, "/ by zero");
    var cs := [Catch([IllegalArgumentException], Returning(()), false)];
    assert !Matches(cs[0].kinds, e) by {
      assert IllegalArgumentException.lineage[2] != e.kind.lineage[2];
    }
    Passthrough(Failure(e), cs, 0);
  }
}
