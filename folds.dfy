/**
 * The boolean folds `_.contains`, `_.every` and `_.some` (src/underbar.js):
 * each is a seeded `_.reduce` with a side-effect-free iteratee, so each is
 * the fold of its step function over the collection.
 */
module Folds {
  import opened Collections

  /** The folding step of `_.contains`. */
  function ContainsStep<V(==)>(target: V): (bool, V, Key) -> bool
  {
    (wasFound: bool, item: V, k: Key) => if wasFound then true else item == target
  }

  lemma {:induction false} FoldContains<V>(es: seq<(Key, V)>, target: V, found: bool)
    ensures Fold(es, ContainsStep(target), found) <==> found || target in ValuesOf(es)
    decreases |es|
  {
    if es != [] {
      ValuesOfTail(es);
      FoldContains(es[1..], target, ContainsStep(target)(found, es[0].1, es[0].0));
    }
  }

  /** `_.contains`: whether some element equals `target`. */
  function Contains<V(==)>(c: Collection<V>, target: V): (r: bool)
    ensures r <==> target in Values(c)
  {
    FoldContains(Entries(c), target, false);
    Fold(Entries(c), ContainsStep(target), false)
  }

  /** The folding step of `_.every`. */
  function EveryStep<V>(test: V -> bool): (bool, V, Key) -> bool
  {
    (isTrue: bool, item: V, k: Key) => if !test(item) then false else isTrue
  }

  lemma {:induction false} FoldEvery<V>(es: seq<(Key, V)>, test: V -> bool, isTrue: bool)
    ensures Fold(es, EveryStep(test), isTrue) <==> isTrue && forall i :: 0 <= i < |es| ==> test(es[i].1)
    decreases |es|
  {
    if es != [] {
      FoldEvery(es[1..], test, EveryStep(test)(isTrue, es[0].1, es[0].0));
      assert forall i :: 1 <= i < |es| ==> es[i] == es[1..][i - 1];
    }
  }

  /** `_.every`: whether all elements pass; true of an empty collection. */
  function Every<V>(c: Collection<V>, test: V -> bool): (r: bool)
    ensures r <==> forall i :: 0 <= i < |Values(c)| ==> test(Values(c)[i])
  {
    FoldEvery(Entries(c), test, true);
    assert forall i :: 0 <= i < |Values(c)| ==> Values(c)[i] == Entries(c)[i].1;
    Fold(Entries(c), EveryStep(test), true)
  }

  /** The predicate `_.some` hands to `_.every`: true of the elements that fail `test`. */
  function Fails<V>(test: V -> bool): V -> bool
  {
    (item: V) => !test(item)
  }

  /** `_.some`: whether at least one element passes; false of an empty collection. */
  function Some<V>(c: Collection<V>, test: V -> bool): (r: bool)
    ensures r <==> exists i :: 0 <= i < |Values(c)| && test(Values(c)[i])
  {
    !Every(c, Fails(test))
  }
}
