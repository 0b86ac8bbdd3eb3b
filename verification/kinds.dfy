/** Failure kinds and captured exceptions.

    The JVM class hierarchy below Throwable is modelled as a tree of kinds: a kind is
    named by its chain of superclasses strictly below Throwable, outermost first, ending
    with the class itself. Kind([]) is Throwable, the root every exception is an
    instance of. The instance test of KClass.isInstance becomes a walk up the parent
    chain, which is the same as a prefix test on lineages.
 */
module Kinds {

  /** A Throwable subclass, named by its superclass chain below Throwable. */
  datatype Kind = Kind(lineage: seq<string>)

  /** Throwable itself. */
  const Throwable: Kind := Kind([])

  function Depth(k: Kind): nat {
    |k.lineage|
  }

  predicate IsRoot(k: Kind) {
    k.lineage == []
  }

  /** The direct superclass; only Throwable has none. */
  function Parent(k: Kind): (p: Kind)
    requires !IsRoot(k)
    ensures Depth(p) + 1 == Depth(k)
    ensures p.lineage <= k.lineage
  {
    Kind(k.lineage[..|k.lineage| - 1])
  }

  /** A subclass one level below `k`, named `name`. */
  function Sub(k: Kind, name: string): (c: Kind)
    ensures !IsRoot(c) && Parent(c) == k
  {
    Kind(k.lineage + [name])
  }

  /** `declared.isInstance(e)` for an exception whose runtime class is `k`: `declared` is
      `k` itself or one of its ancestors. */
  function IsInstance(declared: Kind, k: Kind): (b: bool)
    ensures b <==> declared.lineage <= k.lineage
    decreases Depth(k)
  {
    declared == k || (!IsRoot(k) && IsInstance(declared, Parent(k)))
  }

  /** A captured exception: its runtime class and its message. */
  datatype Exn = Exn(kind: Kind, message: string)

  /** `exceptions.any { it.isInstance(e) }`, scanning the kinds in order. */
  function AnyInstance(kinds: seq<Kind>, e: Exn): (b: bool)
    ensures b <==> exists i :: 0 <= i < |kinds| && kinds[i].lineage <= e.kind.lineage
  {
    if |kinds| == 0 then false
    else if IsInstance(kinds[0], e.kind) then true
    else
      assert forall i :: 1 <= i < |kinds| ==> kinds[i] == kinds[1..][i - 1];
      AnyInstance(kinds[1..], e)
  }

  /** The matching rule shared by every combinator: an empty kind list catches
      everything, otherwise some listed kind must be the exception's class or a
      superclass of it. */
  function Matches(kinds: seq<Kind>, e: Exn): (b: bool)
    ensures b <==> (|kinds| == 0 || exists i :: 0 <= i < |kinds| && kinds[i].lineage <= e.kind.lineage)
  {
    |kinds| == 0 || AnyInstance(kinds, e)
  }

  /** The instance test is a partial order on kinds. */
  lemma IsInstanceOrder(a: Kind, b: Kind, c: Kind)
    ensures IsInstance(a, a)
    ensures IsInstance(a, b) && IsInstance(b, c) ==> IsInstance(a, c)
    ensures IsInstance(a, b) && IsInstance(b, a) ==> a == b
  {
  }

  /** Every exception is an instance of Throwable, so listing Throwable catches
      everything, exactly like an empty list. */
  lemma ThrowableCatchesAll(e: Exn)
    ensures IsInstance(Throwable, e.kind)
    ensures Matches([Throwable], e) == Matches([], e)
  {
  }

  /** An exception of a subclass is caught by a clause naming its superclass. */
  lemma SubclassIsInstance(k: Kind, name: string)
    ensures IsInstance(k, Sub(k, name))
    ensures !IsInstance(Sub(k, name), k)
  {
  }
}
