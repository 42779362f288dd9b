/** The reduction primitive `_.reduce` (src/underbar.js). */
module Reduction {
  import opened Wrappers
  import opened Collections

  /**
   * What `_.reduce(collection, iteratee, accumulator)` returns, as the code
   * is written. A seed that is absent (or `undefined`) is `None`.
   *  - With a seed, every element is folded, in visiting order.
   *  - Without one on an array, `a[0]` seeds and the rest is folded as an
   *    array of its own (`collection.slice(1)`), so the iteratee sees the
   *    indices 0, 1, ... for the elements `a[1]`, `a[2]`, ...
   *  - Without one on an object, the first property's value seeds, and then
   *    the WHOLE object is folded, the first property included: the object
   *    holding the other properties is declared with `const` inside a block,
   *    so the test for it always finds it undeclared.
   *  - An empty collection without a seed gives `undefined`.
   */
  function ReduceSpec<V>(c: Collection<V>, iteratee: (V, V, Key) -> V, seed: Option<V>): Option<V>
  {
    match seed
    case Some(s) => Some(Fold(Entries(c), iteratee, s))
    case None =>
      match c
      case Array(a) => if a == [] then None else Some(Fold(Entries(Array(a[1..])), iteratee, a[0]))
      case Object(props) => if props == [] then None else Some(Fold(Entries(c), iteratee, props[0].1))
  }

  /** `_.reduce` with a seed of any type: the seed starts the fold and every element takes part. */
  method ReduceWithSeed<V, A>(c: Collection<V>, iteratee: (A, V, Key) -> A, seed: A) returns (acc: A)
    ensures acc == Fold(Entries(c), iteratee, seed)
  {
    acc := Each(c, iteratee, seed);
  }

  /** `_.reduce` with an optional seed of the elements' own type. */
  method Reduce<V>(c: Collection<V>, iteratee: (V, V, Key) -> V, seed: Option<V>) returns (acc: Option<V>)
    ensures acc == ReduceSpec(c, iteratee, seed)
  {
    if seed.Some? {
      var r := ReduceWithSeed(c, iteratee, seed.value);
      return Some(r);
    }
    match c
    case Array(a) =>
      if a == [] {
        return None;
      }
      var r := Each(Array(a[1..]), iteratee, a[0]);
      acc := Some(r);
    case Object(props) =>
      if props == [] {
        return None;
      }
      var r := Each(c, iteratee, props[0].1);
      acc := Some(r);
  }

  /**
   * Without a seed, an array's first element seeds the fold and the iteratee
   * is handed the rest as an array of its own; a one-element array comes
   * back untouched whatever the iteratee, and an empty one gives `undefined`.
   */
  lemma ReduceArrayWithoutSeed<V>(a: seq<V>, iteratee: (V, V, Key) -> V)
    ensures a == [] ==> ReduceSpec(Array(a), iteratee, None) == None
    ensures a != [] ==> ReduceSpec(Array(a), iteratee, None) == ReduceSpec(Array(a[1..]), iteratee, Some(a[0]))
    ensures |a| == 1 ==> ReduceSpec(Array(a), iteratee, None) == Some(a[0])
  {
  }

  /**
   * As written, `_.reduce` on an object without a seed hands the first
   * property to the iteratee although its value already seeded the fold:
   * `_.reduce({a: 5}, (total, n) => total + n * n)` gives 30, not 5.
   */
  lemma SeedlessObjectRevisitsFirst()
    ensures ReduceSpec(Object([("a", 5)]), (total: int, n: int, k: Key) => total + n * n, None) == Some(30)
  {
    var es := Entries(Object([("a", 5)]));
    assert es == [(Name("a"), 5)];
    assert es[1..] == [];
  }

  /** As written: without a seed, an object is folded whole after its first value has seeded the fold. */
  lemma ReduceObjectWithoutSeed<V>(props: seq<(string, V)>, iteratee: (V, V, Key) -> V)
    requires props != []
    ensures ReduceSpec(Object(props), iteratee, None) == ReduceSpec(Object(props), iteratee, Some(props[0].1))
  {
  }

  /**
   * `_.reduce` as its comments describe it: without a seed, the first
   * element (of an array or an object) seeds the fold and is never passed
   * to the iteratee.
   */
  function ReduceIntended<V>(c: Collection<V>, iteratee: (V, V, Key) -> V, seed: Option<V>): Option<V>
  {
    match seed
    case Some(s) => Some(Fold(Entries(c), iteratee, s))
    case None =>
      match c
      case Array(a) => ReduceSpec(c, iteratee, seed)
      case Object(props) => if props == [] then None else Some(Fold(Entries(c)[1..], iteratee, props[0].1))
  }

  /**
   * Corrected: without a seed, an object's first value seeds the fold and
   * only the remaining properties are folded; on arrays nothing changes.
   */
  lemma ReduceIntendedWithoutSeed<V>(c: Collection<V>, iteratee: (V, V, Key) -> V)
    ensures c.Object? && c.props != [] ==>
      ReduceIntended(c, iteratee, None) == ReduceIntended(Object(c.props[1..]), iteratee, Some(c.props[0].1))
    ensures c.Array? ==> ReduceIntended(c, iteratee, None) == ReduceSpec(c, iteratee, None)
  {
    if c.Object? && c.props != [] {
      assert Entries(c)[1..] == Entries(Object(c.props[1..]));
    }
  }

  /** Corrected: a one-property object without a seed comes back untouched, whatever the iteratee. */
  lemma ReduceIntendedSingleton<V>(name: string, v: V, iteratee: (V, V, Key) -> V)
    ensures ReduceIntended(Object([(name, v)]), iteratee, None) == Some(v)
  {
    assert Entries(Object([(name, v)]))[1..] == [];
  }
}
