/** Transformation (src/underbar.js): `_.map` and `_.pluck`. */
module Transformation {
  import opened Wrappers
  import opened Collections

  /** The visitor of `_.map`: it pushes the transformed item onto `mappedArr`. */
  function MapStep<V, U>(f: (V, Key) -> U): (seq<U>, V, Key) -> seq<U>
  {
    (acc: seq<U>, item: V, k: Key) => acc + [f(item, k)]
  }

  lemma {:induction false} FoldMap<V, U>(es: seq<(Key, V)>, f: (V, Key) -> U, acc: seq<U>)
    ensures var r := Fold(es, MapStep(f), acc);
      |r| == |acc| + |es| && r[..|acc|] == acc &&
      forall i :: 0 <= i < |es| ==> r[|acc| + i] == f(es[i].1, es[i].0)
    decreases |es|
  {
    if es != [] {
      var acc' := acc + [f(es[0].1, es[0].0)];
      FoldMap(es[1..], f, acc');
      var r := Fold(es, MapStep(f), acc);
      assert r[..|acc|] == r[..|acc'|][..|acc|];
      assert forall i :: 1 <= i < |es| ==> es[i] == es[1..][i - 1] && r[|acc| + i] == r[|acc'| + (i - 1)];
    }
  }

  /** Mapping from an empty array: one image per entry, in order. */
  lemma FoldMapFresh<V, U>(es: seq<(Key, V)>, f: (V, Key) -> U)
    ensures |Fold(es, MapStep(f), [])| == |es|
    ensures forall i :: 0 <= i < |es| ==> Fold(es, MapStep(f), [])[i] == f(es[i].1, es[i].0)
  {
    var acc: seq<U> := [];
    FoldMap(es, f, acc);
    var r := Fold(es, MapStep(f), acc);
    forall i | 0 <= i < |es|
      ensures r[i] == f(es[i].1, es[i].0)
    {
      assert r[|acc| + i] == f(es[i].1, es[i].0);
    }
  }

  /**
   * `_.map`: a new array as long as the collection, whose i-th element is
   * the transform of the i-th visited value and its index or key.
   */
  method Map<V, U>(c: Collection<V>, f: (V, Key) -> U) returns (r: seq<U>)
    ensures |r| == |Entries(c)|
    ensures forall i :: 0 <= i < |r| ==> r[i] == f(Entries(c)[i].1, Entries(c)[i].0)
  {
    r := Each(c, MapStep(f), []);
    FoldMapFresh(Entries(c), f);
  }

  /** A property read `item[key]`: `undefined` when the object has no such property. */
  function Get<V>(item: map<string, V>, key: string): Option<V>
  {
    if key in item then Some(item[key]) else None
  }

  /** `_.pluck`: the `key` property of every visited object, `undefined` where it is missing. */
  method Pluck<V>(c: Collection<map<string, V>>, key: string) returns (r: seq<Option<V>>)
    ensures |r| == |Values(c)|
    ensures forall i :: 0 <= i < |r| ==> (r[i].Some? <==> key in Values(c)[i])
    ensures forall i :: 0 <= i < |r| && key in Values(c)[i] ==> r[i] == Some(Values(c)[i][key])
  {
    r := Map(c, (item: map<string, V>, k: Key) => Get(item, key));
  }
}
