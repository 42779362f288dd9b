/**
 * `_.sortBy` (src/underbar.js): a selection sort that repeatedly finds the
 * earliest element with the smallest criterion by a seedless `reduce`,
 * appends it to the output and splices it out of the working array.
 *
 * A criterion is an integer or `undefined` (`None`); elements whose
 * criterion is undefined end up after all the others.
 */
module Sorting {
  import opened Wrappers
  import opened Collections
  import opened Selection
  import opened Transformation

  /** An element of the working array: the item and its criterion. */
  datatype Rated<V> = Rated(value: V, criteria: Option<int>)

  /** JavaScript's `<` on criteria that may be undefined: false when either side is. */
  predicate LessThan(x: Option<int>, y: Option<int>)
  {
    x.Some? && y.Some? && x.value < y.value
  }

  /** The order `sortBy` sorts by: `x` strictly before `y`, undefined last. */
  predicate Before(x: Option<int>, y: Option<int>)
  {
    x.Some? && (y.None? || x.value < y.value)
  }

  /** `x` may stand before `y` in the output. */
  predicate NotAfter(x: Option<int>, y: Option<int>)
  {
    !Before(y, x)
  }

  /** The test of the reduce callback: whether `cv` takes over as the smallest element so far. */
  function Replaces<V>(smallest: Rated<V>, cv: Rated<V>): (b: bool)
    ensures b <==> Before(cv.criteria, smallest.criteria)
  {
    if cv.criteria.None? && smallest.criteria.None? then false
    else LessThan(cv.criteria, smallest.criteria) || smallest.criteria.None?
  }

  /**
   * The seedless `reduce` of one pass: `smallest` starts as the first element,
   * the callback sees the rest with indices restarting at 0, and records
   * `idx + 1` whenever it takes a new smallest element.
   */
  method SmallestIndex<V>(rated: seq<Rated<V>>) returns (idx: nat)
    requires rated != []
    ensures idx < |rated|
    ensures forall j :: 0 <= j < |rated| ==> NotAfter(rated[idx].criteria, rated[j].criteria)
    ensures forall j :: 0 <= j < idx ==> Before(rated[idx].criteria, rated[j].criteria)
  {
    idx := 0;
    var smallest := rated[0];
    for j := 0 to |rated| - 1
      invariant idx <= j && smallest == rated[idx]
      invariant forall l :: 0 <= l <= j ==> NotAfter(smallest.criteria, rated[l].criteria)
      invariant forall l :: 0 <= l < idx ==> Before(smallest.criteria, rated[l].criteria)
    {
      var cv := rated[j + 1];
      if Replaces(smallest, cv) {
        idx := j + 1;
        smallest := cv;
      }
    }
  }

  /** The items of a working array, in order. */
  function RatedValues<V>(rs: seq<Rated<V>>): (vs: seq<V>)
  {
    seq(|rs|, i requires 0 <= i < |rs| => rs[i].value)
  }

  /** The items whose criterion is `key`. */
  function WithCriterion<V>(criterion: V -> Option<int>, key: Option<int>): V -> bool
  {
    (v: V) => criterion(v) == key
  }

  /** Splicing element `m` out of a working array removes its item from the item sequence. */
  lemma RatedValuesSplice<V>(rated: seq<Rated<V>>, m: nat)
    requires m < |rated|
    ensures RatedValues(rated) == RatedValues(rated[..m]) + [rated[m].value] + RatedValues(rated[m + 1..])
    ensures RatedValues(rated[..m] + rated[m + 1..]) == RatedValues(rated[..m]) + RatedValues(rated[m + 1..])
  {
  }

  /** Moving `x` in front of `pre` does not reorder the elements that pass, when none in `pre` passes together with `x`. */
  lemma FilterMoveToFront<V>(pre: seq<V>, x: V, post: seq<V>, p: V -> bool)
    requires p(x) ==> FilterSeq(pre, p) == []
    ensures (if p(x) then [x] else []) + FilterSeq(pre + post, p) == FilterSeq(pre + [x] + post, p)
  {
    FilterAppend(pre, post, p);
    FilterSnoc(pre, x, p);
    FilterAppend(pre + [x], post, p);
  }

  /**
   * Moving the earliest smallest element to the output keeps, for every
   * criterion, the order of the items with that criterion.
   */
  lemma TakeSmallestKeepsOrder<V>(sorted: seq<V>, rated: seq<Rated<V>>, m: nat, criterion: V -> Option<int>, key: Option<int>)
    requires m < |rated|
    requires forall l :: 0 <= l < |rated| ==> rated[l].criteria == criterion(rated[l].value)
    requires forall j :: 0 <= j < m ==> Before(rated[m].criteria, rated[j].criteria)
    ensures FilterSeq(sorted + [rated[m].value], WithCriterion(criterion, key))
              + FilterSeq(RatedValues(rated[..m] + rated[m + 1..]), WithCriterion(criterion, key))
         == FilterSeq(sorted, WithCriterion(criterion, key)) + FilterSeq(RatedValues(rated), WithCriterion(criterion, key))
  {
    var p := WithCriterion(criterion, key);
    var x := rated[m].value;
    var pre := RatedValues(rated[..m]);
    var post := RatedValues(rated[m + 1..]);
    RatedValuesSplice(rated, m);
    if p(x) {
      assert forall j :: 0 <= j < |pre| ==> pre[j] == rated[j].value;
      FilterSeqNonePass(pre, p);
    }
    FilterMoveToFront(pre, x, post, p);
    FilterSnoc(sorted, x, p);
    var front := if p(x) then [x] else [];
    assert (FilterSeq(sorted, p) + front) + FilterSeq(pre + post, p) == FilterSeq(sorted, p) + (front + FilterSeq(pre + post, p));
  }

  /** The criteria stored in a working array are those of its items. */
  ghost predicate Rates<V>(rated: seq<Rated<V>>, criterion: V -> Option<int>)
  {
    forall l :: 0 <= l < |rated| ==> rated[l].criteria == criterion(rated[l].value)
  }

  /** The output so far is ordered, and nothing in it comes after anything still to be placed. */
  ghost predicate SortedPrefix<V>(sorted: seq<V>, rated: seq<Rated<V>>, criterion: V -> Option<int>)
  {
    (forall a, b :: 0 <= a < b < |sorted| ==> NotAfter(criterion(sorted[a]), criterion(sorted[b])))
    && (forall a, l :: 0 <= a < |sorted| && 0 <= l < |rated| ==> NotAfter(criterion(sorted[a]), rated[l].criteria))
  }

  /** For every criterion, output and working array together hold the items of `vs` with that criterion, in order. */
  ghost predicate StablePrefix<V>(sorted: seq<V>, rated: seq<Rated<V>>, criterion: V -> Option<int>, vs: seq<V>)
  {
    forall key :: FilterSeq(sorted, WithCriterion(criterion, key)) + FilterSeq(RatedValues(rated), WithCriterion(criterion, key))
               == FilterSeq(vs, WithCriterion(criterion, key))
  }

  /** One pass of the sorting loop keeps the loop's invariants. */
  lemma TakeSmallest<V>(sorted: seq<V>, rated: seq<Rated<V>>, m: nat, criterion: V -> Option<int>, vs: seq<V>)
    requires m < |rated| && Rates(rated, criterion)
    requires forall j :: 0 <= j < |rated| ==> NotAfter(rated[m].criteria, rated[j].criteria)
    requires forall j :: 0 <= j < m ==> Before(rated[m].criteria, rated[j].criteria)
    requires SortedPrefix(sorted, rated, criterion) && StablePrefix(sorted, rated, criterion, vs)
    ensures Rates(rated[..m] + rated[m + 1..], criterion)
    ensures SortedPrefix(sorted + [rated[m].value], rated[..m] + rated[m + 1..], criterion)
    ensures StablePrefix(sorted + [rated[m].value], rated[..m] + rated[m + 1..], criterion, vs)
    ensures multiset(sorted + [rated[m].value]) + multiset(RatedValues(rated[..m] + rated[m + 1..]))
         == multiset(sorted) + multiset(RatedValues(rated))
  {
    var rest := rated[..m] + rated[m + 1..];
    assert forall l :: 0 <= l < |rest| ==> rest[l] == if l < m then rated[l] else rated[l + 1];
    forall key
      ensures FilterSeq(sorted + [rated[m].value], WithCriterion(criterion, key)) + FilterSeq(RatedValues(rest), WithCriterion(criterion, key))
           == FilterSeq(vs, WithCriterion(criterion, key))
    {
      TakeSmallestKeepsOrder(sorted, rated, m, criterion, key);
    }
    RatedValuesSplice(rated, m);
  }

  /**
   * `_.sortBy`: the output is a permutation of the values, ordered by
   * criterion with undefined criteria last, and stable: items with equal
   * criteria keep their input order.
   */
  method SortBy<V>(c: Collection<V>, criterion: V -> Option<int>) returns (sorted: seq<V>)
    ensures multiset(sorted) == multiset(Values(c))
    ensures forall i, j :: 0 <= i < j < |sorted| ==> NotAfter(criterion(sorted[i]), criterion(sorted[j]))
    ensures forall key :: FilterSeq(sorted, WithCriterion(criterion, key)) == FilterSeq(Values(c), WithCriterion(criterion, key))
  {
    var rated := Map(c, (item: V, k: Key) => Rated(item, criterion(item)));
    assert RatedValues(rated) == Values(c);
    sorted := [];
    var n := |rated|;
    for i := 0 to n
      invariant |rated| == n - i
      invariant Rates(rated, criterion)
      invariant multiset(sorted) + multiset(RatedValues(rated)) == multiset(Values(c))
      invariant SortedPrefix(sorted, rated, criterion)
      invariant StablePrefix(sorted, rated, criterion, Values(c))
    {
      var m := SmallestIndex(rated);
      TakeSmallest(sorted, rated, m, criterion, Values(c));
      sorted := sorted + [rated[m].value];
      rated := rated[..m] + rated[m + 1..];
    }
    assert RatedValues(rated) == [];
  }
}
