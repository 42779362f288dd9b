/**
 * `_.flatten` (src/underbar.js): a seeded `reduce` whose callback
 * concatenates each element onto the accumulator (one level of nesting
 * removed) and then, while the accumulator's last element is an array,
 * pops it and concatenates its elements back on.
 *
 * The loop only ever looks at the last element, so an array that ends up
 * behind a non-array element stays nested: `_.flatten([[[1], 2]])` is
 * `[[1], 2]`. `FlattenDeep` is the intended one-dimensional result.
 */
module Flattening {
  import opened Collections

  /** A value in a nested array: a non-array value, or an array of nested values. */
  datatype Nested<T> = Leaf(value: T) | List(children: seq<Nested<T>>)

  /** The number of nodes of a nested value. */
  function Size<T>(x: Nested<T>): nat
    decreases x, 1
  {
    match x
    case Leaf(_) => 1
    case List(ys) => 1 + SizeSeq(ys)
  }

  /** The number of nodes of a sequence of nested values. */
  function SizeSeq<T>(xs: seq<Nested<T>>): nat
    decreases xs, 0
  {
    if xs == [] then 0 else Size(xs[0]) + SizeSeq(xs[1..])
  }

  /** The non-array values of a nested value, left to right. */
  function Leaves<T>(x: Nested<T>): seq<T>
    decreases x, 1
  {
    match x
    case Leaf(v) => [v]
    case List(ys) => LeavesSeq(ys)
  }

  /** The non-array values of a sequence of nested values, left to right. */
  function LeavesSeq<T>(xs: seq<Nested<T>>): seq<T>
    decreases xs, 0
  {
    if xs == [] then [] else Leaves(xs[0]) + LeavesSeq(xs[1..])
  }

  lemma {:induction false} SizeSeqAppend<T>(xs: seq<Nested<T>>, ys: seq<Nested<T>>)
    ensures SizeSeq(xs + ys) == SizeSeq(xs) + SizeSeq(ys)
    decreases |xs|
  {
    if xs == [] {
      assert xs + ys == ys;
    } else {
      assert (xs + ys)[0] == xs[0] && (xs + ys)[1..] == xs[1..] + ys;
      SizeSeqAppend(xs[1..], ys);
    }
  }

  lemma {:induction false} LeavesSeqAppend<T>(xs: seq<Nested<T>>, ys: seq<Nested<T>>)
    ensures LeavesSeq(xs + ys) == LeavesSeq(xs) + LeavesSeq(ys)
    decreases |xs|
  {
    if xs == [] {
      assert xs + ys == ys;
    } else {
      assert (xs + ys)[0] == xs[0] && (xs + ys)[1..] == xs[1..] + ys;
      LeavesSeqAppend(xs[1..], ys);
    }
  }

  /** `acc.concat(cv)`: an array's elements are appended, any other value is appended itself. */
  function Concat<T>(acc: seq<Nested<T>>, cv: Nested<T>): (r: seq<Nested<T>>)
    ensures LeavesSeq(r) == LeavesSeq(acc) + Leaves(cv)
    ensures SizeSeq(r) == SizeSeq(acc) + Size(cv) - if cv.List? then 1 else 0
  {
    match cv
    case List(ys) =>
      SizeSeqAppend(acc, ys);
      LeavesSeqAppend(acc, ys);
      acc + ys
    case Leaf(_) =>
      SizeSeqAppend(acc, [cv]);
      LeavesSeqAppend(acc, [cv]);
      acc + [cv]
  }

  /** The `while` loop of the callback: unnest the last element for as long as it is an array. */
  function Unnest<T>(acc: seq<Nested<T>>): (r: seq<Nested<T>>)
    decreases SizeSeq(acc)
  {
    if acc != [] && acc[|acc| - 1].List? then
      var init := acc[..|acc| - 1];
      var lastItem := acc[|acc| - 1];
      assert acc == init + [lastItem];
      SizeSeqAppend(init, [lastItem]);
      Unnest(Concat(init, lastItem))
    else
      acc
  }

  /** Unnesting keeps the leaves and their order, and leaves no array at the end. */
  lemma {:induction false} UnnestKeepsLeaves<T>(acc: seq<Nested<T>>)
    ensures LeavesSeq(Unnest(acc)) == LeavesSeq(acc)
    ensures Unnest(acc) == [] || Unnest(acc)[|Unnest(acc)| - 1].Leaf?
    decreases SizeSeq(acc)
  {
    if acc != [] && acc[|acc| - 1].List? {
      var init := acc[..|acc| - 1];
      var lastItem := acc[|acc| - 1];
      assert acc == init + [lastItem];
      SizeSeqAppend(init, [lastItem]);
      LeavesSeqAppend(init, [lastItem]);
      UnnestKeepsLeaves(Concat(init, lastItem));
    }
  }

  /** The reduce callback of `_.flatten`. */
  function FlattenStep<T>(): (seq<Nested<T>>, Nested<T>, Key) -> seq<Nested<T>>
  {
    (acc: seq<Nested<T>>, cv: Nested<T>, k: Key) => Unnest(Concat(acc, cv))
  }

  /** `_.flatten` as written: the callback folded over the array from the seed `[]`. */
  function FlattenSpec<T>(nested: seq<Nested<T>>): seq<Nested<T>>
  {
    Fold(Entries(Array(nested)), FlattenStep(), [])
  }

  /** One round of the `while` loop leaves the outcome of the loop unchanged and shrinks the accumulator. */
  lemma UnnestStep<T>(acc: seq<Nested<T>>)
    requires acc != [] && acc[|acc| - 1].List?
    ensures Unnest(acc) == Unnest(Concat(acc[..|acc| - 1], acc[|acc| - 1]))
    ensures SizeSeq(Concat(acc[..|acc| - 1], acc[|acc| - 1])) < SizeSeq(acc)
  {
    assert acc == acc[..|acc| - 1] + [acc[|acc| - 1]];
    SizeSeqAppend(acc[..|acc| - 1], [acc[|acc| - 1]]);
  }

  /** `_.flatten`: the reduce over the array, with the callback's `while` loop inline. */
  method Flatten<T>(nested: seq<Nested<T>>) returns (acc: seq<Nested<T>>)
    ensures acc == FlattenSpec(nested)
  {
    var es := Entries(Array(nested));
    ArrayEntries(nested);
    acc := [];
    for i := 0 to |nested|
      invariant Fold(es[i..], FlattenStep(), acc) == FlattenSpec(nested)
    {
      FoldSkip(es, i, FlattenStep(), acc);
      ghost var target := Unnest(Concat(acc, nested[i]));
      acc := Concat(acc, nested[i]);
      while acc != [] && acc[|acc| - 1].List?
        invariant Unnest(acc) == target
        decreases SizeSeq(acc)
      {
        UnnestStep(acc);
        var lastItem := acc[|acc| - 1];
        acc := acc[..|acc| - 1];
        acc := Concat(acc, lastItem);
      }
    }
    assert es[|es|..] == [];
  }

  lemma {:induction false} FoldFlattenKeepsLeaves<T>(es: seq<(Key, Nested<T>)>, acc: seq<Nested<T>>)
    ensures LeavesSeq(Fold(es, FlattenStep(), acc)) == LeavesSeq(acc) + LeavesSeq(ValuesOf(es))
    ensures acc == [] || acc[|acc| - 1].Leaf? ==>
              var r := Fold(es, FlattenStep(), acc); r == [] || r[|r| - 1].Leaf?
    decreases |es|
  {
    if es != [] {
      ValuesOfTail(es);
      var next := FlattenStep()(acc, es[0].1, es[0].0);
      UnnestKeepsLeaves(Concat(acc, es[0].1));
      FoldFlattenKeepsLeaves(es[1..], next);
      LeavesSeqAppend([es[0].1], ValuesOf(es[1..]));
    }
  }

  /**
   * What `_.flatten` does promise: every non-array value, in order, and the
   * result does not end in an array.
   */
  lemma FlattenKeepsLeaves<T>(nested: seq<Nested<T>>)
    ensures LeavesSeq(FlattenSpec(nested)) == LeavesSeq(nested)
    ensures FlattenSpec(nested) == [] || FlattenSpec(nested)[|FlattenSpec(nested)| - 1].Leaf?
  {
    FoldFlattenKeepsLeaves(Entries(Array(nested)), []);
    ArrayEntries(nested);
  }

  /** An array that ends up behind a non-array value is left nested: `[[[1], 2]]` flattens to `[[1], 2]`. */
  lemma FlattenLeavesInnerArray()
    ensures FlattenSpec([List([List([Leaf(1)]), Leaf(2)])]) == [List([Leaf(1)]), Leaf(2)]
  {
    var nested: seq<Nested<int>> := [List([List([Leaf(1)]), Leaf(2)])];
    var es := Entries(Array(nested));
    assert es == [(Index(0), nested[0])];
    assert Concat([], nested[0]) == [List([Leaf(1)]), Leaf(2)];
    assert es[1..] == [];
  }

  /** One round of the `while` loop: a trailing array is replaced by its elements. */
  lemma UnnestPop<T>(init: seq<Nested<T>>, ys: seq<Nested<T>>)
    ensures Unnest(init + [List(ys)]) == Unnest(init + ys)
  {
    var acc := init + [List(ys)];
    assert acc[..|acc| - 1] == init;
  }

  /** The loop undoes a deep nesting at the end: `[..., [[[x]]]]` becomes `[..., x]`. */
  lemma UnnestDeepTail<T>(init: seq<Nested<T>>, x: Nested<T>)
    requires x.Leaf?
    ensures Unnest(init + [List([List([List([x])])])]) == init + [x]
  {
    UnnestPop(init, [List([List([x])])]);
    UnnestPop(init, [List([x])]);
    UnnestPop(init, [x]);
    assert (init + [x])[|init + [x]| - 1] == x;
  }

  /** Flattening a three-element array runs the callback three times, from `[]`. */
  lemma FlattenThree<T>(x: Nested<T>, y: Nested<T>, z: Nested<T>)
    ensures FlattenSpec([x, y, z]) == Unnest(Concat(Unnest(Concat(Unnest(Concat([], x)), y)), z))
  {
    var es: seq<(Key, Nested<T>)> := Entries(Array([x, y, z]));
    var f := FlattenStep<T>();
    var s1 := f([], x, Index(0));
    var s2 := f(s1, y, Index(1));
    assert es[0] == (Index(0), x) && es[1..][0] == (Index(1), y) && es[1..][1..][0] == (Index(2), z);
    assert |es[1..][1..][1..]| == 0;
    assert Fold(es, f, []) == Fold(es[1..], f, s1);
    assert Fold(es[1..], f, s1) == Fold(es[1..][1..], f, s2);
    assert Fold(es[1..][1..], f, s2) == Fold(es[1..][1..][1..], f, f(s2, z, Index(2)));
  }

  /** A nesting the loop does undo: `[1, [2], [3, [[[4]]]]]` flattens to `[1, 2, 3, 4]`. */
  lemma FlattenExample()
    ensures FlattenSpec([Leaf(1), List([Leaf(2)]), List([Leaf(3), List([List([List([Leaf(4)])])])])])
         == [Leaf(1), Leaf(2), Leaf(3), Leaf(4)]
  {
    var a1 := [Leaf(1)];
    var a2 := [Leaf(1), Leaf(2)];
    var init := a2 + [Leaf(3)];
    FlattenThree(Leaf(1), List([Leaf(2)]), List([Leaf(3), List([List([List([Leaf(4)])])])]));
    assert Unnest(Concat([], Leaf(1))) == a1 by {
      assert Concat([], Leaf(1)) == a1;
    }
    assert Unnest(Concat(a1, List([Leaf(2)]))) == a2 by {
      assert Concat(a1, List([Leaf(2)])) == a2;
    }
    assert Concat(a2, List([Leaf(3), List([List([List([Leaf(4)])])])])) == init + [List([List([List([Leaf(4)])])])];
    UnnestDeepTail(init, Leaf(4));
    assert init + [Leaf(4)] == [Leaf(1), Leaf(2), Leaf(3), Leaf(4)];
  }

  /**
   * The intended `_.flatten`: every element that is an array is flattened
   * before it is concatenated. The result holds only non-array values, the
   * same ones in the same order.
   */
  function FlattenDeep<T>(nested: seq<Nested<T>>): (r: seq<Nested<T>>)
    ensures forall i :: 0 <= i < |r| ==> r[i].Leaf?
    ensures LeavesSeq(r) == LeavesSeq(nested)
    decreases nested, 0
  {
    if nested == [] then []
    else
      var head := match nested[0] case Leaf(_) => [nested[0]] case List(ys) => FlattenDeepList(nested[0]);
      LeavesSeqAppend(head, FlattenDeep(nested[1..]));
      head + FlattenDeep(nested[1..])
  }

  /** The intended flattening of one array element. */
  function FlattenDeepList<T>(x: Nested<T>): (r: seq<Nested<T>>)
    requires x.List?
    ensures forall i :: 0 <= i < |r| ==> r[i].Leaf?
    ensures LeavesSeq(r) == Leaves(x)
    decreases x, 1
  {
    FlattenDeep(x.children)
  }

  /** The intended flattening of the input `_.flatten` leaves nested: `[[[1], 2]]` becomes `[1, 2]`. */
  lemma FlattenDeepExample()
    ensures FlattenDeep([List([List([Leaf(1)]), Leaf(2)])]) == [Leaf(1), Leaf(2)]
  {
    assert FlattenDeep([List([Leaf(1)]), Leaf(2)]) == [Leaf(1), Leaf(2)] by {
      assert [List([Leaf(1)]), Leaf(2)][1..] == [Leaf(2)];
    }
  }
}
