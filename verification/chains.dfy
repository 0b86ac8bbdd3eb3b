/** Fluent chains of DSL clauses, applied left to right to the result of `trying`.

    A chain such as `trying { .. }.catch(A, B) { .. }.catchTrying(C) { .. } finally { .. }`
    is a sequence of clauses. Each clause consumes the current `Result` and produces the
    next; an exception that escapes a clause (from a `catch` handler or a `finally`
    block) unwinds the rest of the chain, so no later clause runs. Events are tagged
    with the position of the clause that invoked the block.
 */
module Chains {
  import opened Kinds
  import opened Outcomes
  import JavaLike
  import Multicatch

  /** One link of a chain: `catch` (or, when `capturing`, `catchTrying`) with its kinds,
      or `finally`. */
  datatype Clause<T> =
    | Catch(kinds: seq<Kind>, handler: Exn -> Call<T>, capturing: bool)
    | Finally(block: Call<()>)

  /** A block invocation and the position of the clause that made it. */
  datatype Tagged = Tagged(clause: nat, event: Event)

  /** The outcome of a whole chain and the blocks it invoked. */
  datatype ChainRun<T> = ChainRun(call: Call<Result<T>>, events: seq<Tagged>)

  /** Applies one clause to the current result, written out directly: a catch clause
      fires on a matching failure and continues from its handler's outcome (a
      `catchTrying` clause captures what the handler throws); a finally clause runs its
      block and keeps the result. A clause invokes at most one block.
      `ClauseIsOperation` ties each clause to the DSL operation it stands for. */
  function Apply<T>(c: Clause<T>, r: Result<T>): (out: Run<Result<T>>)
    ensures |out.events| <= 1
    ensures c.Catch? && |out.events| > 0 ==> r.Failure? && Matches(c.kinds, r.exception)
    ensures c.Finally? ==> out.events == [FinallyRan]
  {
    match c
    case Catch(kinds, h, capturing) =>
      if r.Success? || !Matches(kinds, r.exception) then Pure(r)
      else
        var e := r.exception;
        var next := match h(e)
          case Returned(v) => Returned(Success(v))
          case Raised(j) => if capturing then Returned(Failure(j)) else Raised(j);
        Run(next, [HandlerRan(e)])
    case Finally(b) =>
      var next := match b
        case Returned(_) => Returned(r)
        case Raised(j) => Raised(j);
      Run(next, [FinallyRan])
  }

  /** A clause is the DSL operation it stands for: `catch` and `catchTrying` clauses are
      `JavaLike.Catch` and `JavaLike.CatchTrying`, and also the multi-catch `recover` and
      `recoverCatching`, so a `recover` chain is a chain of clauses too; a `finally`
      clause is `JavaLike.Finally`. */
  lemma ClauseIsOperation<T>(c: Clause<T>, r: Result<T>)
    ensures c.Catch? && !c.capturing ==> Apply(c, r) == JavaLike.Catch(r, c.kinds, c.handler)
    ensures c.Catch? && c.capturing ==> Apply(c, r) == JavaLike.CatchTrying(r, c.kinds, c.handler)
    ensures c.Finally? ==> Apply(c, r) == JavaLike.Finally(r, c.block)
    ensures c.Catch? && !c.capturing ==> Apply(c, r) == Multicatch.Recover(r, c.kinds, c.handler)
    ensures c.Catch? && c.capturing ==> Apply(c, r) == Multicatch.RecoverCatching(r, c.kinds, c.handler)
  {
  }

  function Tag(events: seq<Event>, clause: nat): (t: seq<Tagged>)
    ensures |t| == |events|
    ensures forall k :: 0 <= k < |t| ==> t[k] == Tagged(clause, events[k])
  {
    seq(|events|, k requires 0 <= k < |events| => Tagged(clause, events[k]))
  }

  /** Runs the clauses `cs`, numbered from `base`, on `r`. Each clause logs at most one
      event. */
  function RunChain<T>(r: Result<T>, cs: seq<Clause<T>>, base: nat): (out: ChainRun<T>)
    ensures |out.events| <= |cs|
    decreases |cs|
  {
    if |cs| == 0 then ChainRun(Returned(r), [])
    else
      var step := Apply(cs[0], r);
      var tagged := Tag(step.events, base);
      match step.call
      case Raised(j) => ChainRun(Raised(j), tagged)
      case Returned(next) =>
        var rest := RunChain(next, cs[1..], base + 1);
        ChainRun(rest.call, tagged + rest.events)
  }

  /** Since each clause logs at most one event, the events of a chain carry clause
      numbers of the chain, in strictly increasing order. */
  lemma {:induction false} RunChainOrdered<T>(r: Result<T>, cs: seq<Clause<T>>, base: nat)
    ensures forall k :: 0 <= k < |RunChain(r, cs, base).events| ==>
      base <= RunChain(r, cs, base).events[k].clause < base + |cs|
    ensures forall k, l :: 0 <= k < l < |RunChain(r, cs, base).events| ==>
      RunChain(r, cs, base).events[k].clause < RunChain(r, cs, base).events[l].clause
    decreases |cs|
  {
    if |cs| > 0 {
      var step := Apply(cs[0], r);
      var tagged := Tag(step.events, base);
      if step.call.Returned? {
        RunChainOrdered(step.call.value, cs[1..], base + 1);
        var rest := RunChain(step.call.value, cs[1..], base + 1);
        var events := tagged + rest.events;
        assert RunChain(r, cs, base).events == events;
        assert forall k :: 0 <= k < |events| ==>
          events[k] == if k < |tagged| then tagged[k] else rest.events[k - |tagged|];
      }
    }
  }

  /** `run`, with the events `pre` logged ahead of its own. */
  function After<T>(pre: seq<Tagged>, run: ChainRun<T>): ChainRun<T> {
    ChainRun(run.call, pre + run.events)
  }

  predicate NoFinallyRaises<T>(cs: seq<Clause<T>>) {
    forall k :: 0 <= k < |cs| && cs[k].Finally? ==> cs[k].block.Returned?
  }

  predicate OnlyCatches<T>(cs: seq<Clause<T>>) {
    forall k :: 0 <= k < |cs| ==> cs[k].Catch?
  }

  /** No catch clause of `cs` can fire on `r`: it is a success, or its exception matches
      none of the clauses. */
  predicate Inert<T>(r: Result<T>, cs: seq<Clause<T>>) {
    r.Success? || forall k :: 0 <= k < |cs| && cs[k].Catch? ==> !Matches(cs[k].kinds, r.exception)
  }

  /** When no catch clause can fire, no handler runs; the result reaches the end of the
      chain unchanged unless a finally block throws, and only a finally block can make
      the chain throw. */
  lemma {:induction false} Passthrough<T>(r: Result<T>, cs: seq<Clause<T>>, base: nat)
    requires Inert(r, cs)
    ensures forall k :: 0 <= k < |RunChain(r, cs, base).events| ==>
      RunChain(r, cs, base).events[k].event == FinallyRan
    ensures OnlyCatches(cs) ==> RunChain(r, cs, base).events == []
    ensures NoFinallyRaises(cs) ==> RunChain(r, cs, base).call == Returned(r)
    ensures RunChain(r, cs, base).call.Raised? ==>
      exists k :: 0 <= k < |cs| && cs[k].Finally? && cs[k].block == Raised(RunChain(r, cs, base).call.exception)
    decreases |cs|
  {
    if |cs| > 0 {
      var tail := cs[1..];
      assert forall k :: 0 <= k < |tail| ==> tail[k] == cs[k + 1];
      assert Inert(r, tail);
      var step := Apply(cs[0], r);
      match cs[0]
      case Catch(_, _, _) =>
        assert step == Pure(r);
        Passthrough(r, tail, base + 1);
        var rest := RunChain(r, tail, base + 1);
        assert RunChain(r, cs, base) == ChainRun(rest.call, [] + rest.events);
        if rest.call.Raised? {
          var k :| 0 <= k < |tail| && tail[k].Finally? && tail[k].block == Raised(rest.call.exception);
          assert cs[k + 1] == tail[k];
        }
      case Finally(b) =>
        if b.Returned? {
          Passthrough(r, tail, base + 1);
          var rest := RunChain(r, tail, base + 1);
          if rest.call.Raised? {
            var k :| 0 <= k < |tail| && tail[k].Finally? && tail[k].block == Raised(rest.call.exception);
            assert cs[k + 1] == tail[k];
          }
        }
    }
  }

  /** Short-circuit: on a success no handler of any clause runs, and the success reaches
      the end of the chain unless a finally block throws. */
  lemma {:induction false} SuccessShortCircuits<T>(v: T, cs: seq<Clause<T>>, base: nat)
    ensures forall k :: 0 <= k < |RunChain(Success(v), cs, base).events| ==>
      RunChain(Success(v), cs, base).events[k].event == FinallyRan
    ensures NoFinallyRaises(cs) ==> RunChain(Success(v), cs, base).call == Returned(Success(v))
  {
    Passthrough(Success(v), cs, base);
  }

  /** No-match passthrough: a failure that no catch clause matches survives the chain
      with the same exception, and unwrapping it at the end rethrows that exception. */
  lemma {:induction false} UnmatchedFailureSurvives<T>(e: Exn, cs: seq<Clause<T>>, base: nat)
    requires forall k :: 0 <= k < |cs| && cs[k].Catch? ==> !Matches(cs[k].kinds, e)
    requires NoFinallyRaises(cs)
    ensures RunChain(Failure(e), cs, base).call == Returned(Failure(e))
    ensures JavaLike.ThrowIfNotCaught(RunChain(Failure(e), cs, base).call.value) == Raised(e)
    ensures JavaLike.GetValue(RunChain(Failure(e), cs, base).call.value) == Raised(e)
  {
    Passthrough(Failure(e), cs, base);
  }

  /** What follows once catch clause `c`, at position `clause`, fires on `e`: its
      handler runs with `e`. If the handler returns `v`, the clauses `rest` continue from
      `Success(v)`; if it throws `j`, a `catch` clause aborts the chain with `j` (no later
      clause runs, finally clauses included), while a `catchTrying` clause lets `rest`
      continue from `Failure(j)`. */
  function Resume<T>(c: Clause<T>, e: Exn, rest: seq<Clause<T>>, clause: nat): ChainRun<T>
    requires c.Catch?
  {
    var fired := Tagged(clause, HandlerRan(e));
    match c.handler(e)
    case Returned(v) => After([fired], RunChain(Success(v), rest, clause + 1))
    case Raised(j) =>
      if c.capturing then After([fired], RunChain(Failure(j), rest, clause + 1))
      else ChainRun(Raised(j), [fired])
  }

  /** Clause `c` lets failure `e` through without changing it: a catch clause that does
      not match `e`, or a finally clause whose block returns normally. */
  predicate PassesOn<T>(c: Clause<T>, e: Exn) {
    (c.Catch? && !Matches(c.kinds, e)) || (c.Finally? && c.block.Returned?)
  }

  /** The events that the clauses `cs`, numbered from `base`, log while a failure passes
      through them: one `FinallyRan` per finally clause, none per catch clause. */
  function FinallyTags<T>(cs: seq<Clause<T>>, base: nat): (t: seq<Tagged>)
    ensures |t| <= |cs|
    ensures forall k :: 0 <= k < |t| ==> t[k].event == FinallyRan && base <= t[k].clause < base + |cs|
    ensures (forall k :: 0 <= k < |cs| ==> cs[k].Catch?) ==> t == []
    decreases |cs|
  {
    if |cs| == 0 then []
    else
      assert forall k :: 0 <= k < |cs| - 1 ==> cs[1..][k] == cs[k + 1];
      (if cs[0].Finally? then [Tagged(base, FinallyRan)] else []) + FinallyTags(cs[1..], base + 1)
  }

  /** First match wins: when clause `i` is the first catch clause matching `e`, the
      clauses before it invoke nothing but their finally blocks, and the chain then
      resumes as clause `i` dictates. With only catch clauses before it, the chain is
      exactly that resumption. */
  lemma {:induction false} FirstMatchWins<T>(e: Exn, cs: seq<Clause<T>>, base: nat, i: nat)
    requires i < |cs|
    requires forall k :: 0 <= k < i ==> PassesOn(cs[k], e)
    requires cs[i].Catch? && Matches(cs[i].kinds, e)
    ensures RunChain(Failure(e), cs, base)
      == After(FinallyTags(cs[..i], base), Resume(cs[i], e, cs[i + 1..], base + i))
    ensures (forall k :: 0 <= k < i ==> cs[k].Catch?) ==>
      RunChain(Failure(e), cs, base) == Resume(cs[i], e, cs[i + 1..], base + i)
  {
    SkipUnmatchedPrefix(e, cs, base, i);
    MatchingSuffixFires(e, cs, base, i);
    if forall k :: 0 <= k < i ==> cs[k].Catch? {
      NoFinallyTags(cs, base, i);
    }
  }

  /** Clause `i` seen as the head of the suffix it starts. */
  lemma MatchingSuffixFires<T>(e: Exn, cs: seq<Clause<T>>, base: nat, i: nat)
    requires i < |cs| && cs[i].Catch? && Matches(cs[i].kinds, e)
    ensures RunChain(Failure(e), cs[i..], base + i) == Resume(cs[i], e, cs[i + 1..], base + i)
  {
  }

  /** A prefix of catch clauses logs no finally event. */
  lemma NoFinallyTags<T>(cs: seq<Clause<T>>, base: nat, i: nat)
    requires i <= |cs|
    requires forall k :: 0 <= k < i ==> cs[k].Catch?
    ensures FinallyTags(cs[..i], base) == []
  {
  }

  /** Clauses that let the failure through hand it on untouched to the rest of the
      chain, having logged only their finally blocks. */
  lemma SkipUnmatchedPrefix<T>(e: Exn, cs: seq<Clause<T>>, base: nat, i: nat)
    requires i <= |cs|
    requires forall k :: 0 <= k < i ==> PassesOn(cs[k], e)
    ensures RunChain(Failure(e), cs, base)
      == After(FinallyTags(cs[..i], base), RunChain(Failure(e), cs[i..], base + i))
  {
    assert cs[..i] + cs[i..] == cs;
    assert forall k :: 0 <= k < i ==> cs[..i][k] == cs[k];
    SkipPassing(e, cs[..i], cs[i..], base);
  }

  /** `SkipUnmatchedPrefix` for a chain split into the passing clauses and the rest. */
  lemma {:induction false} SkipPassing<T>(e: Exn, pre: seq<Clause<T>>, post: seq<Clause<T>>, base: nat)
    requires forall k :: 0 <= k < |pre| ==> PassesOn(pre[k], e)
    ensures RunChain(Failure(e), pre + post, base)
      == After(FinallyTags(pre, base), RunChain(Failure(e), post, base + |pre|))
    decreases |pre|
  {
    if |pre| == 0 {
      assert pre + post == post;
    } else {
      assert forall k :: 0 <= k < |pre| - 1 ==> pre[1..][k] == pre[k + 1];
      SkipPassing(e, pre[1..], post, base + 1);
      SkipHead(e, pre, post, base);
    }
  }

  /** The inductive step of `SkipPassing`: one more passing clause in front. */
  lemma SkipHead<T>(e: Exn, pre: seq<Clause<T>>, post: seq<Clause<T>>, base: nat)
    requires |pre| > 0 && PassesOn(pre[0], e)
    requires RunChain(Failure(e), pre[1..] + post, base + 1)
      == After(FinallyTags(pre[1..], base + 1), RunChain(Failure(e), post, base + 1 + |pre[1..]|))
    ensures RunChain(Failure(e), pre + post, base)
      == After(FinallyTags(pre, base), RunChain(Failure(e), post, base + |pre|))
  {
    if pre[0].Catch? {
      SkipUnmatched(e, pre + post, base);
      SkipHeadCatch(e, pre, post, base);
    } else {
      SkipPassingFinally(e, pre + post, base);
      SkipHeadFinally(e, pre, post, base);
    }
  }

  lemma SkipHeadCatch<T>(e: Exn, pre: seq<Clause<T>>, post: seq<Clause<T>>, base: nat)
    requires |pre| > 0 && pre[0].Catch?
    requires RunChain(Failure(e), pre + post, base) == RunChain(Failure(e), (pre + post)[1..], base + 1)
    requires RunChain(Failure(e), pre[1..] + post, base + 1)
      == After(FinallyTags(pre[1..], base + 1), RunChain(Failure(e), post, base + 1 + |pre[1..]|))
    ensures RunChain(Failure(e), pre + post, base)
      == After(FinallyTags(pre, base), RunChain(Failure(e), post, base + |pre|))
  {
    ConsTail(pre, post);
    assert FinallyTags(pre, base) == [] + FinallyTags(pre[1..], base + 1);
    assert [] + FinallyTags(pre[1..], base + 1) == FinallyTags(pre[1..], base + 1);
    assert base + 1 + |pre[1..]| == base + |pre|;
  }

  lemma SkipHeadFinally<T>(e: Exn, pre: seq<Clause<T>>, post: seq<Clause<T>>, base: nat)
    requires |pre| > 0 && pre[0].Finally?
    requires RunChain(Failure(e), pre + post, base)
      == After([Tagged(base, FinallyRan)], RunChain(Failure(e), (pre + post)[1..], base + 1))
    requires RunChain(Failure(e), pre[1..] + post, base + 1)
      == After(FinallyTags(pre[1..], base + 1), RunChain(Failure(e), post, base + 1 + |pre[1..]|))
    ensures RunChain(Failure(e), pre + post, base)
      == After(FinallyTags(pre, base), RunChain(Failure(e), post, base + |pre|))
  {
    ConsTail(pre, post);
    assert FinallyTags(pre, base) == [Tagged(base, FinallyRan)] + FinallyTags(pre[1..], base + 1);
    assert base + 1 + |pre[1..]| == base + |pre|;
    AfterAfter([Tagged(base, FinallyRan)], FinallyTags(pre[1..], base + 1), RunChain(Failure(e), post, base + |pre|));
  }

  lemma ConsTail<T>(pre: seq<T>, post: seq<T>)
    requires |pre| > 0
    ensures (pre + post)[0] == pre[0] && (pre + post)[1..] == pre[1..] + post
  {
  }

  /** Events logged ahead of events logged ahead of a run come first of all. */
  lemma AfterAfter<T>(head: seq<Tagged>, later: seq<Tagged>, run: ChainRun<T>)
    ensures After(head, After(later, run)) == After(head + later, run)
  {
  }

  /** A finally clause whose block returns logs its event and hands the failure on. */
  lemma SkipPassingFinally<T>(e: Exn, cs: seq<Clause<T>>, base: nat)
    requires |cs| > 0 && cs[0].Finally? && cs[0].block.Returned?
    ensures RunChain(Failure(e), cs, base)
      == After([Tagged(base, FinallyRan)], RunChain(Failure(e), cs[1..], base + 1))
  {
  }

  /** A catch clause that does not match leaves the failure to the rest of the chain. */
  lemma SkipUnmatched<T>(e: Exn, cs: seq<Clause<T>>, base: nat)
    requires |cs| > 0 && cs[0].Catch? && !Matches(cs[0].kinds, e)
    ensures RunChain(Failure(e), cs, base) == RunChain(Failure(e), cs[1..], base + 1)
    ensures RunChain(Failure(e), cs, base) == After([], RunChain(Failure(e), cs[1..], base + 1))
  {
    assert Apply(cs[0], Failure(e)) == Pure(Failure(e));
    var rest := RunChain(Failure(e), cs[1..], base + 1);
    assert RunChain(Failure(e), cs, base) == ChainRun(rest.call, [] + rest.events);
  }

  /** A matching catch clause at the head of the chain fires. */
  lemma MatchingClauseFires<T>(e: Exn, cs: seq<Clause<T>>, base: nat)
    requires |cs| > 0 && cs[0].Catch? && Matches(cs[0].kinds, e)
    ensures RunChain(Failure(e), cs, base) == Resume(cs[0], e, cs[1..], base)
  {
    var step := Apply(cs[0], Failure(e));
    assert step.events == [HandlerRan(e)];
    assert Tag(step.events, base) == [Tagged(base, HandlerRan(e))];
  }

  /** Once the first matching handler returns `v`, every later clause is a no-op: the
      chain yields `Success(v)`, that handler is the only one invoked, and every other
      event is a finally block (those before it come first). */
  lemma {:induction false} FirstMatchRecovers<T>(e: Exn, cs: seq<Clause<T>>, base: nat, i: nat)
    requires i < |cs|
    requires forall k :: 0 <= k < i ==> PassesOn(cs[k], e)
    requires cs[i].Catch? && Matches(cs[i].kinds, e)
    requires cs[i].handler(e).Returned?
    requires NoFinallyRaises(cs[i + 1..])
    ensures RunChain(Failure(e), cs, base).call == Returned(Success(cs[i].handler(e).value))
    ensures |FinallyTags(cs[..i], base)| < |RunChain(Failure(e), cs, base).events|
    ensures RunChain(Failure(e), cs, base).events[|FinallyTags(cs[..i], base)|]
      == Tagged(base + i, HandlerRan(e))
    ensures forall k :: 0 <= k < |RunChain(Failure(e), cs, base).events| && k != |FinallyTags(cs[..i], base)| ==>
      RunChain(Failure(e), cs, base).events[k].event == FinallyRan
    ensures (forall k :: 0 <= k < i ==> cs[k].Catch?) ==>
      RunChain(Failure(e), cs, base).events[0] == Tagged(base + i, HandlerRan(e))
  {
    var v := cs[i].handler(e).value;
    RecoveredRun(e, cs, base, i);
    SuccessShortCircuits(v, cs[i + 1..], base + i + 1);
    HandlerAmidFinally(RunChain(Failure(e), cs, base).events, FinallyTags(cs[..i], base),
      Tagged(base + i, HandlerRan(e)), RunChain(Success(v), cs[i + 1..], base + i + 1).events);
    if forall k :: 0 <= k < i ==> cs[k].Catch? {
      NoFinallyTags(cs, base, i);
    }
  }

  /** The run of a chain whose first matching handler returns: the prefix's finally
      events, the handler, then the rest of the chain run from the recovered success. */
  lemma RecoveredRun<T>(e: Exn, cs: seq<Clause<T>>, base: nat, i: nat)
    requires i < |cs|
    requires forall k :: 0 <= k < i ==> PassesOn(cs[k], e)
    requires cs[i].Catch? && Matches(cs[i].kinds, e)
    requires cs[i].handler(e).Returned?
    ensures RunChain(Failure(e), cs, base)
      == After(FinallyTags(cs[..i], base) + [Tagged(base + i, HandlerRan(e))],
           RunChain(Success(cs[i].handler(e).value), cs[i + 1..], base + i + 1))
  {
    FirstMatchWins(e, cs, base, i);
    AfterAfter(FinallyTags(cs[..i], base), [Tagged(base + i, HandlerRan(e))],
      RunChain(Success(cs[i].handler(e).value), cs[i + 1..], base + i + 1));
  }

  /** An event between two runs of finally events is the only event that is not one. */
  lemma HandlerAmidFinally(events: seq<Tagged>, pre: seq<Tagged>, fired: Tagged, post: seq<Tagged>)
    requires events == pre + [fired] + post
    requires forall k :: 0 <= k < |pre| ==> pre[k].event == FinallyRan
    requires forall k :: 0 <= k < |post| ==> post[k].event == FinallyRan
    ensures |pre| < |events| && events[|pre|] == fired
    ensures forall k :: 0 <= k < |events| && k != |pre| ==> events[k].event == FinallyRan
  {
    assert forall k :: |pre| < k < |events| ==> events[k] == post[k - |pre| - 1];
  }

  /** In a chain of catch clauses only, the first matching handler that returns `v` is
      the only block invoked, and the chain yields `Success(v)`. */
  lemma RecoveredAmongCatches<T>(e: Exn, cs: seq<Clause<T>>, base: nat, i: nat)
    requires i < |cs| && OnlyCatches(cs)
    requires forall k :: 0 <= k < i ==> !Matches(cs[k].kinds, e)
    requires Matches(cs[i].kinds, e) && cs[i].handler(e).Returned?
    ensures RunChain(Failure(e), cs, base)
      == ChainRun(Returned(Success(cs[i].handler(e).value)), [Tagged(base + i, HandlerRan(e))])
  {
    var v := cs[i].handler(e).value;
    RecoveredRun(e, cs, base, i);
    OnlyCatchesSuffix(cs, i + 1);
    Passthrough(Success(v), cs[i + 1..], base + i + 1);
    NoFinallyTags(cs, base, i);
  }

  lemma OnlyCatchesSuffix<T>(cs: seq<Clause<T>>, j: nat)
    requires j <= |cs| && OnlyCatches(cs)
    ensures OnlyCatches(cs[j..])
  {
  }
}
