/**
 * Collections and the traversal primitive `_.each` (src/underbar.js).
 *
 * A collection is an array or an object. An object is given as the sequence
 * of its own properties in `for...in` order, so that the visiting order is
 * explicit. `each` hands every value, with its index or key, to a visitor;
 * the state a JavaScript visitor keeps in its closure (the arrays it pushes
 * into, the accumulator it reassigns) is threaded through the visitor here.
 */
module Collections {

  /** The second argument `each` passes to its visitor: an array index or a property name. */
  datatype Key = Index(i: nat) | Name(name: string)

  /** An array, or an object given by its (name, value) properties in visiting order. */
  datatype Collection<V> = Array(items: seq<V>) | Object(props: seq<(string, V)>)

  /** The (key, value) pairs of a collection, in the order `each` visits them. */
  function Entries<V>(c: Collection<V>): (es: seq<(Key, V)>)
  {
    match c
    case Array(items) => seq(|items|, i requires 0 <= i < |items| => (Index(i), items[i]))
    case Object(props) => seq(|props|, i requires 0 <= i < |props| => (Name(props[i].0), props[i].1))
  }

  /** The values of a sequence of entries, in order. */
  function ValuesOf<V>(es: seq<(Key, V)>): (vs: seq<V>)
  {
    seq(|es|, i requires 0 <= i < |es| => es[i].1)
  }

  /** The values of a collection, in visiting order. */
  function Values<V>(c: Collection<V>): (vs: seq<V>)
  {
    ValuesOf(Entries(c))
  }

  /**
   * The result of visiting `es` in order, starting from visitor state `s`:
   * the specification of `each` and of a seeded `reduce`.
   */
  function Fold<S, V>(es: seq<(Key, V)>, visit: (S, V, Key) -> S, s: S): S
    decreases |es|
  {
    if es == [] then s else Fold(es[1..], visit, visit(s, es[0].1, es[0].0))
  }

  /** `_.each`: calls the visitor on every element, in index order for an array and in property order for an object. */
  method Each<S, V>(c: Collection<V>, visit: (S, V, Key) -> S, s0: S) returns (s: S)
    ensures s == Fold(Entries(c), visit, s0)
  {
    s := s0;
    var es := Entries(c);
    match c
    case Array(items) =>
      for i := 0 to |items|
        invariant Fold(es[i..], visit, s) == Fold(es, visit, s0)
      {
        assert es[i..][1..] == es[i + 1..];
        s := visit(s, items[i], Index(i));
      }
    case Object(props) =>
      for i := 0 to |props|
        invariant Fold(es[i..], visit, s) == Fold(es, visit, s0)
      {
        assert es[i..][1..] == es[i + 1..];
        var (key, value) := props[i];
        s := visit(s, value, Name(key));
      }
    assert es[|es|..] == [];
  }

  /** Visiting `xs + ys` is visiting `xs` and then `ys`. */
  lemma {:induction false} FoldAppend<S, V>(xs: seq<(Key, V)>, ys: seq<(Key, V)>, visit: (S, V, Key) -> S, s: S)
    ensures Fold(xs + ys, visit, s) == Fold(ys, visit, Fold(xs, visit, s))
    decreases |xs|
  {
    if xs != [] {
      assert (xs + ys)[0] == xs[0] && (xs + ys)[1..] == xs[1..] + ys;
      FoldAppend(xs[1..], ys, visit, visit(s, xs[0].1, xs[0].0));
    } else {
      assert xs + ys == ys;
    }
  }

  /** Visiting from entry `i` on is visiting entry `i` and then the rest. */
  lemma FoldSkip<S, V>(es: seq<(Key, V)>, i: nat, visit: (S, V, Key) -> S, s: S)
    requires i < |es|
    ensures Fold(es[i..], visit, s) == Fold(es[i + 1..], visit, visit(s, es[i].1, es[i].0))
  {
    assert es[i..][0] == es[i] && es[i..][1..] == es[i + 1..];
  }

  /** A visitor that records what it is handed. */
  function Recorder<V>(): (seq<(Key, V)>, V, Key) -> seq<(Key, V)>
  {
    (log: seq<(Key, V)>, v: V, k: Key) => log + [(k, v)]
  }

  /** Each entry reaches the visitor exactly once, in visiting order. */
  lemma {:induction false} FoldVisitsInOrder<V>(es: seq<(Key, V)>, log: seq<(Key, V)>)
    ensures Fold(es, Recorder(), log) == log + es
    decreases |es|
  {
    if es != [] {
      FoldVisitsInOrder(es[1..], log + [(es[0].0, es[0].1)]);
      assert log + [(es[0].0, es[0].1)] + es[1..] == log + es;
    }
  }

  /** `each` hands an array's elements over with the indices 0, 1, ... in order. */
  lemma ArrayEntries<V>(a: seq<V>)
    ensures |Entries(Array(a))| == |a|
    ensures forall i :: 0 <= i < |a| ==> Entries(Array(a))[i] == (Index(i), a[i])
    ensures Values(Array(a)) == a
  {
  }

  /** The values of an array are its elements. */
  lemma ArrayValues<V>()
    ensures forall a: seq<V> :: Values(Array(a)) == a
  {
  }

  /** The values of the entries after the first. */
  lemma ValuesOfTail<V>(es: seq<(Key, V)>)
    requires es != []
    ensures ValuesOf(es[1..]) == ValuesOf(es)[1..]
    ensures ValuesOf(es) == [es[0].1] + ValuesOf(es[1..])
  {
  }
}
