# Multi-catch combinators over Kotlin's `Result`, modelled in Dafny

This project models the exception-handling combinators of the Kotlin library
`kotlin-stdlib-multicatch`. They sit on Kotlin's `Result<T>`:

- `recover(vararg exceptions, transform)` and `recoverCatching(vararg exceptions, transform)`
  (package `multicatch`) recover a failure only when its exception is an instance of one
  of the listed classes. An empty list catches everything.
- The try/catch/finally DSL (package `multicatch.javalike`) gives the same rule Java-like
  names: `trying`, `catch` (vararg, typed single-class and infix catch-all),
  `catchTrying` (the same three forms), `finally`, `throwIfNotCaught` and the delegated
  `getValue`.
- An older copy of the DSL (package `javalikemulticatch`) is modelled too. It is proved
  equal, operation by operation, to the newer one.

## How the model is built

- `Kinds` (kinds.dfy). An exception class is a `Kind`, named by its superclass chain
  below `Throwable`. `Kind([])` is `Throwable`. `IsInstance` walks up the `Parent` chain,
  the way `KClass.isInstance` does. Its contract says this is the prefix test on the
  chains. `Matches` is the rule every combinator shares: the list is empty, or some listed
  kind is an instance test that succeeds.
- `Outcomes` (outcomes.dfy). It holds `Result<T> = Success | Failure(Exn)` and
  `Call<A> = Returned | Raised`. A `Call` is the outcome of a block that may throw, so it
  stands for the ambient exception mechanism. `RunCatching` and `GetOrThrow` move between
  the two. `StdRecover` and `StdRecoverCatching` model the single-lambda
  `Result.recover` and `Result.recoverCatching` of the Kotlin standard library. The
  multi-catch functions call these at `result-multicatch.kt` lines 14 and 29.
- A combinator returns a `Run`. A `Run` holds the combinator's own outcome and the user
  blocks it invoked, in order: `HandlerRan(e)` or `FinallyRan`. So "the handler was not
  invoked" and "finally ran exactly once" are statements about returned values.
- `Multicatch` (multicatch.dfy), `JavaLike` (javalike.dfy) and `JavaLikeMulticatch`
  (javalike_multicatch.dfy) follow the three source files.
- Typed single-class overloads take a partial handler `Exn --> Call<R>`. The handler only
  has to be defined on instances of the declared class. This models the source's cast,
  which happens only after the instance test.
- `Chains` (chains.dfy) models a fluent chain. The chain is a sequence of clauses
  (`catch`, `catchTrying`, `finally`) folded left to right. An exception that escapes a
  clause ends the chain. Events are tagged with the number of the clause that made them.
  `Chains.Apply` writes one clause out directly. `Chains.ClauseIsOperation` proves it is
  the DSL operation the clause stands for. It also proves that a `catch` clause is
  `Multicatch.Recover` and a `catchTrying` clause is `Multicatch.RecoverCatching`. So a
  chain of multi-catch `recover` and `recoverCatching` calls is a chain of clauses, and
  the chain lemmas hold for it too. The `recover` demonstrations are stated that way.
- `Scenarios` (scenarios.dfy) restates the demo chains of the repository as lemmas.

Where the code and its own comments differ, or leave a point open, the model follows the
code:

- The KDoc of `finally` (`multicatch/javalike/result-javalike-multicatch.kt`, line 93)
  says the block "will be called every time". The code runs it only when the chain
  reaches it. If an earlier `catch` handler throws, the chain unwinds before `finally` is
  reached, and the block never runs. `Chains.Resume` states this (a non-capturing clause
  whose handler throws ends the chain with one event).
- The KDoc of `getValue` (line 109 of the same file) says only that it gets the value
  by delegation. The code does not cache: every read of the delegated property unwraps
  the `Result` again. Since a `Result` never changes, every read has the same outcome.
- Of the three modelled files, only the two DSL files declare typed single-class
  overloads. `result-multicatch.kt` has only the vararg forms of `recover` and
  `recoverCatching`.

## Model

| member | source | states |
|---|---|---|
| Kinds.IsInstance | src/main/kotlin/multicatch/result-multicatch.kt:13 | the instance test (declared class is the exception's class or one of its superclasses, found by walking up parents) holds exactly when the declared superclass chain is a prefix of the exception's |
| Kinds.AnyInstance | src/main/kotlin/multicatch/result-multicatch.kt:13 | `exceptions.any { it.isInstance(e) }`, scanned in order, holds exactly when some listed kind is an ancestor-or-self of the exception's kind |
| Kinds.Matches | src/main/kotlin/multicatch/result-multicatch.kt:5-13 | the matching rule: an empty list catches everything, otherwise some listed kind must be an ancestor-or-self of the exception's kind |
| Kinds.IsInstanceOrder | src/main/kotlin/multicatch/result-multicatch.kt:13 | the instance test is reflexive, transitive and antisymmetric |
| Kinds.ThrowableCatchesAll | src/main/kotlin/multicatch/result-multicatch.kt:6-13 | every exception is an instance of Throwable, so the list [Throwable] matches exactly what the empty list matches |
| Kinds.SubclassIsInstance | src/main/kotlin/multicatch/result-multicatch.kt:13 | a clause naming a class catches its subclasses, and a clause naming a subclass does not catch its superclass |
| Outcomes.RunCatching | src/main/kotlin/multicatch/javalike/result-javalike-multicatch.kt:11 | capturing a block gives Success with its value when it returned and Failure with its exception when it threw |
| Outcomes.GetOrThrow | src/main/kotlin/multicatch/result-multicatch.kt:33 | rethrowing a Result and capturing it again gives the same Result back |
| Outcomes.CaptureRoundTrip | src/main/kotlin/multicatch/result-multicatch.kt:32-34 | capturing a block and rethrowing reproduces the block's outcome |
| Outcomes.Unwrapped | src/main/kotlin/multicatch/result-multicatch.kt:33 | the block `{ x.getOrThrow() }` throws whatever computing `x` threw, and otherwise its capture is `x`'s value |
| Outcomes.Recapture | src/main/kotlin/multicatch/result-multicatch.kt:32-34 | `runCatching { x.getOrThrow() }` never throws, keeps the invoked blocks, returns `x`'s result unchanged, and turns an exception escaping `x` into a Failure |
| Outcomes.StdRecover | src/main/kotlin/multicatch/result-multicatch.kt:14 | standard `recover(transform)`: a success is returned untouched with no block invoked; a failure invokes the transform once with its exception; the call throws what the transform throws and otherwise returns a Success |
| Outcomes.StdRecoverCatching | src/main/kotlin/multicatch/result-multicatch.kt:29 | standard `recoverCatching(transform)`: never throws; a success is untouched; a failure invokes the transform once and returns the capture of its outcome |
| Outcomes.StdRecoverCatchingIsRecapturedRecover | src/main/kotlin/multicatch/result-multicatch.kt:29 | standard `recoverCatching` equals standard `recover` with its outcome re-captured |
| Multicatch.Recover | src/main/kotlin/multicatch/result-multicatch.kt:8-18 | the transform is invoked iff the receiver is a failure matching the kinds (empty list: always); then the result is Success of the transform's value, or the transform's exception propagates; a success or an unmatched failure is returned unchanged |
| Multicatch.RecoverCatching | src/main/kotlin/multicatch/result-multicatch.kt:24-35 | same firing rule as Recover; never throws; a fired transform yields the capture of its outcome, so its exception becomes a Failure; a success or unmatched failure is returned unchanged |
| Multicatch.RecoverCatchingStdlibPathAgrees | src/main/kotlin/multicatch/result-multicatch.kt:28-34 | the empty-list path through the standard library gives the same run as the list path with the catch-all list [Throwable] |
| Multicatch.PropagateVersusCapture | src/main/kotlin/multicatch/result-multicatch.kt:14-34 | for every kind list, RecoverCatching is Recover re-captured: where Recover throws `j`, RecoverCatching returns Failure(j); otherwise both return the same result |
| Multicatch.SuccessShortCircuits | src/main/kotlin/multicatch/result-multicatch.kt:12-17 | on a success both combinators return the receiver and invoke nothing, whatever the kinds and transform |
| JavaLike.Widen | src/main/kotlin/multicatch/javalike/result-javalike-multicatch.kt:40-46 | a typed handler, widened to all exceptions, agrees with the typed handler on every instance of its class |
| JavaLike.Trying | src/main/kotlin/multicatch/javalike/result-javalike-multicatch.kt:10-12 | `trying` never throws: Success(v) when the block returns v, Failure(e) when it throws e; rethrowing gives back the block's outcome |
| JavaLike.Catch | src/main/kotlin/multicatch/javalike/result-javalike-multicatch.kt:19-29 | the block fires iff the receiver is a failure matching the kinds; when it fires it receives the exception, and the call throws what the block throws or returns Success; otherwise it returns the receiver; it equals multi-catch `recover` |
| JavaLike.CatchSingle | src/main/kotlin/multicatch/javalike/result-javalike-multicatch.kt:35-49 | the typed block fires iff the receiver is a failure whose exception is an instance of the class, and it receives that same exception; otherwise the receiver is returned |
| JavaLike.CatchSingleIsOneKindCatch | src/main/kotlin/multicatch/javalike/result-javalike-multicatch.kt:35-49 | the typed `catch` equals the vararg `catch` with that one class and the widened handler |
| JavaLike.CatchAll | src/main/kotlin/multicatch/javalike/result-javalike-multicatch.kt:54-56 | infix `catch` handles every failure and leaves a success alone; it is `catch` with an empty list |
| JavaLike.CatchTrying | src/main/kotlin/multicatch/javalike/result-javalike-multicatch.kt:61-68 | never throws; fires iff the receiver is a failure matching the kinds, then returns the capture of the block's outcome; otherwise returns the receiver; equals multi-catch `recoverCatching`, also on the empty list |
| JavaLike.CatchTryingSingle | src/main/kotlin/multicatch/javalike/result-javalike-multicatch.kt:75-83 | the typed `catchTrying` never throws, fires iff the exception is an instance of the class, captures the block's outcome, and equals the vararg form with one class |
| JavaLike.CatchTryingAll | src/main/kotlin/multicatch/javalike/result-javalike-multicatch.kt:88-90 | infix `catchTrying` handles every failure, capturing what the block throws; it is `catchTrying` with an empty list |
| JavaLike.Finally | src/main/kotlin/multicatch/javalike/result-javalike-multicatch.kt:95-98 | the block runs exactly once for a success or a failure; the receiver is returned unless the block throws, whose exception then propagates |
| JavaLike.ThrowIfNotCaught | src/main/kotlin/multicatch/javalike/result-javalike-multicatch.kt:104-106 | throws exactly on a failure, and then the captured exception itself |
| JavaLike.GetValue | src/main/kotlin/multicatch/javalike/result-javalike-multicatch.kt:111-113 | reading the delegated value gives the success value or throws the captured exception; capturing the read gives the Result back |
| JavaLikeMulticatch.Trying | src/main/kotlin/javalikemulticatch/result-javalike-multicatch.kt:6-8 | equals the newer `trying`, so it captures the block's outcome and never throws |
| JavaLikeMulticatch.Catch | src/main/kotlin/javalikemulticatch/result-javalike-multicatch.kt:10-20 | equals the newer vararg `catch`; fires iff the receiver is a failure matching the kinds |
| JavaLikeMulticatch.CatchSingle | src/main/kotlin/javalikemulticatch/result-javalike-multicatch.kt:22-36 | equals the newer typed `catch`; a success is never touched |
| JavaLikeMulticatch.CatchAll | src/main/kotlin/javalikemulticatch/result-javalike-multicatch.kt:38-40 | equals the newer infix `catch`; every failure fires the block |
| JavaLikeMulticatch.CatchTrying | src/main/kotlin/javalikemulticatch/result-javalike-multicatch.kt:42-49 | equals the newer `catchTrying`; never throws |
| JavaLikeMulticatch.CatchTryingAll | src/main/kotlin/javalikemulticatch/result-javalike-multicatch.kt:51-53 | equals the newer infix `catchTrying`; every failure fires the block |
| JavaLikeMulticatch.Finally | src/main/kotlin/javalikemulticatch/result-javalike-multicatch.kt:55-58 | equals the newer `finally`; the block runs exactly once |
| JavaLikeMulticatch.ThrowIfNotCaught | src/main/kotlin/javalikemulticatch/result-javalike-multicatch.kt:60-62 | equals the newer `throwIfNotCaught`; a residual failure is rethrown as its original exception |
| JavaLikeMulticatch.GetValue | src/main/kotlin/javalikemulticatch/result-javalike-multicatch.kt:64-66 | equals the newer `getValue`; capturing the read gives the Result back |
| Chains.Apply | src/main/kotlin/multicatch/javalike/result-javalike-multicatch.kt:19-98 | one clause of a chain invokes at most one block; a catch clause invokes its handler only on a matching failure, and a finally clause always invokes its block |
| Chains.ClauseIsOperation | src/main/kotlin/multicatch/javalike/result-javalike-multicatch.kt:19-98 | each clause, written out directly, is the DSL operation it stands for (`catch`, `catchTrying`, `finally`); a `catch` clause is also the multi-catch `recover` and a `catchTrying` clause `recoverCatching` |
| Chains.RunChain | src/main/kotlin/javalikemulticatch/JavaLikeMulticatch.kt:6-16 | a chain logs at most one event per clause |
| Chains.RunChainOrdered | src/main/kotlin/javalikemulticatch/JavaLikeMulticatch.kt:6-16 | the events of a chain are tagged with clauses of the chain, in strictly increasing clause order |
| Chains.Passthrough | src/main/kotlin/multicatch/javalike/result-javalike-multicatch.kt:23-28 | when no catch clause can fire, no handler runs, the result reaches the end unchanged unless a finally block throws, and only a finally block can make the chain throw |
| Chains.SuccessShortCircuits | src/main/kotlin/multicatch/javalike/result-javalike-multicatch.kt:23-28 | on a success no handler of any clause runs, and the success reaches the end unless a finally block throws |
| Chains.UnmatchedFailureSurvives | src/main/kotlin/javalikemulticatch/result-javalike-multicatch.kt:14-19 | a failure no clause matches survives the chain with the same exception, and `throwIfNotCaught` or `getValue` at the end rethrows it |
| Chains.FinallyTags | src/main/kotlin/javalikemulticatch/result-javalike-multicatch.kt:55-58 | the clauses a failure passes through log only `FinallyRan` events, at most one per clause and tagged within the clauses; catch clauses alone log nothing |
| Chains.SkipUnmatchedPrefix | src/main/kotlin/javalikemulticatch/result-javalike-multicatch.kt:14-58 | clauses that let the failure through (non-matching catch clauses, finally blocks that return) pass it unchanged to the rest of the chain, logging only one `FinallyRan` per finally clause |
| Chains.SkipPassing | src/main/kotlin/javalikemulticatch/result-javalike-multicatch.kt:14-58 | a chain that starts with clauses letting the failure through runs as its remainder does, after one `FinallyRan` per finally clause among them |
| Chains.SkipPassingFinally | src/main/kotlin/javalikemulticatch/result-javalike-multicatch.kt:55-58 | a finally clause whose block returns logs one `FinallyRan` and hands the failure on unchanged |
| Chains.MatchingClauseFires | src/main/kotlin/javalikemulticatch/result-javalike-multicatch.kt:14-19 | a matching catch clause at the head fires with the failure's exception, then the chain resumes from its handler's outcome |
| Chains.FirstMatchWins | src/main/kotlin/javalikemulticatch/result-javalike-multicatch.kt:14-19 | past non-matching catch clauses and returning finally blocks, the first matching catch clause is the first handler invoked; a returned value continues as a success, a `catch` handler's exception aborts the chain, and a `catchTrying` handler's exception continues as a failure; only finally events precede it |
| Chains.FirstMatchRecovers | src/main/kotlin/javalikemulticatch/result-javalike-multicatch.kt:14-19 | once the first matching handler returns `v`, the chain yields Success(v); that handler is the only one invoked, and every other event is a finally block |
| Scenarios.CatchingSpecificExceptions | src/main/kotlin/javalikemulticatch/JavaLikeMulticatch.kt:5-19 | an IllegalArgumentException is handled by the middle one-class clause, not by the catch-all, and the finally block runs once afterwards |
| Scenarios.CatchingAndRetrying | src/main/kotlin/javalikemulticatch/JavaLikeMulticatch.kt:22-33 | the exception thrown inside a `catchTrying` handler is captured and handled by the trailing catch-all |
| Scenarios.ReturningValueByDelegation | src/main/kotlin/javalikemulticatch/JavaLikeMulticatch.kt:36-53 | a plain Exception reaches the catch-all `catchTrying`, finally runs, and the delegated value is "Totally failed" |
| Scenarios.ReturningValueByAssignment | src/main/kotlin/javalikemulticatch/JavaLikeMulticatch.kt:56-69 | an ArithmeticException is recovered as -2 by the catch-all, which getOrThrow returns |
| Scenarios.UncaughtException | src/main/kotlin/javalikemulticatch/JavaLikeMulticatch.kt:72-79 | a plain Exception passes the typed IllegalStateException `catchTrying` and `throwIfNotCaught` rethrows it; the older package declares no typed `catchTrying`, so the newer package's `JavaLike.CatchTryingSingle` stands for it |
| Scenarios.RecoverMoreThanOnce | src/main/kotlin/multicatch/MulticatchExamples.kt:29-48 | as a chain of `recover` clauses, an ArithmeticException is recovered as "Failure" by its own clause, and neither the first clause nor the catch-all is invoked |
| Scenarios.CatchingWhileRecovery | src/main/kotlin/multicatch/MulticatchExamples.kt:50-62 | as a chain, the ArithmeticException thrown inside `recoverCatching` is captured and recovered as -1 by the next `recover` clause |
| Scenarios.UnhandledIsRethrown | src/main/kotlin/multicatch/MulticatchExamples.kt:64-75 | an exception the one `recover` clause does not handle survives with no handler invoked, and getOrThrow rethrows it |

## Left out

- Console output and `println` inside handlers. Only the invocation of a block is
  recorded, as an event.
- Exception messages, stack traces and chained causes. An exception is its class and its
  message string; the message is only carried, never formatted.
- JVM reflection. `KClass` and `isInstance` become the `Kind` tree. A tree cannot express
  interfaces, so an exception class that is an instance of several unrelated types is not
  modelled.
- Kotlin generic variance (`T : R`) and the unchecked cast in the typed overloads. Each
  operation has one result type parameter. The cast is modelled by a partial handler that
  is only called on instances of its class.
- Inline functions, non-local returns and overload resolution. The inner single-lambda
  `recover`/`recoverCatching` calls are read as the standard library's functions.
- The `thisRef` and `property` parameters of `getValue`. They do not affect the result.
- The demo `main` functions and printing scaffolding. Their expected outputs appear only
  as lemmas in `Scenarios`.
- Exception identity. An exception is a value: its class and its message, with a `null`
  message read as the empty string. "The same exception" in a contract means an equal
  value, not the same JVM object.
- The typed single-class `recover` and `recoverCatching` overloads that the demonstration
  files `multicatch/kotlin/MulticatchExamples.kt` and `multicatch/stdlib/StdlibExamples.kt`
  call. They are not declared in the three modelled files.
