/**
 * The array combinators of src/underbar.js: `_.zip`, `_.intersection` and
 * `_.difference`. Each takes a first array and the rest of its arguments
 * as `others`; `undefined` (an index past the end of a shorter array) is
 * `None`.
 */
module Arrays {
  import opened Wrappers
  import opened Collections
  import Folds
  import opened Selection

  /** `arr[i]` in JavaScript: `undefined` past the end. */
  function At<V>(arr: seq<V>, i: nat): (r: Option<V>)
    ensures r.Some? <==> i < |arr|
    ensures i < |arr| ==> r == Some(arr[i])
  {
    if i < |arr| then Some(arr[i]) else None
  }

  /**
   * `_.zip`: one tuple per element of the first array; tuple `i` starts with
   * `first[i]` and then holds element `i` of every other array, or
   * `undefined` where that array is shorter.
   */
  method Zip<V>(first: seq<V>, others: seq<seq<V>>) returns (zipped: seq<seq<Option<V>>>)
    ensures |zipped| == |first|
    ensures forall i :: 0 <= i < |first| ==> |zipped[i]| == |others| + 1 && zipped[i][0] == Some(first[i])
    ensures forall i, j :: 0 <= i < |first| && 0 <= j < |others| ==>
              zipped[i][j + 1] == if i < |others[j]| then Some(others[j][i]) else None
  {
    zipped := [];
    for i := 0 to |first|
      invariant |zipped| == i
      invariant forall l :: 0 <= l < i ==> |zipped[l]| == |others| + 1 && zipped[l][0] == Some(first[l])
      invariant forall l, j :: 0 <= l < i && 0 <= j < |others| ==> zipped[l][j + 1] == At(others[j], l)
    {
      var elem := [Some(first[i])];
      for j := 0 to |others|
        invariant |elem| == j + 1 && elem[0] == Some(first[i])
        invariant forall l :: 0 <= l < j ==> elem[l + 1] == At(others[l], i)
      {
        elem := elem + [At(others[j], i)];
      }
      zipped := zipped + [elem];
    }
  }

  /** The callback `_.intersection` hands to `_.every`: whether `currArr` contains `item`. */
  function Holds<V(==,!new)>(item: V): (holds: seq<V> -> bool)
    ensures forall currArr :: holds(currArr) <==> item in currArr
  {
    ArrayValues<V>();
    (currArr: seq<V>) => Folds.Contains(Array(currArr), item)
  }

  /** The test `_.intersection` applies to an item of the first array: it is in every other array. */
  function InAll<V(==,!new)>(others: seq<seq<V>>): (inAll: V -> bool)
    ensures forall item :: inAll(item) <==> forall j :: 0 <= j < |others| ==> item in others[j]
  {
    ArrayEntries(others);
    (item: V) => Folds.Every(Array(others), Holds(item))
  }

  /**
   * `_.intersection`: the items of the first array that every other array
   * contains, in order and with the first array's repetitions; with no
   * other arrays, the first array itself.
   */
  method Intersection<V(==,!new)>(first: seq<V>, others: seq<seq<V>>) returns (universal: seq<V>)
    ensures universal == FilterSeq(first, InAll(others))
    ensures others == [] ==> universal == first
  {
    universal := Each(Array(first), FilterStep(InAll(others)), []);
    FoldFilter(Entries(Array(first)), InAll(others), []);
    ArrayEntries(first);
    if others == [] {
      FilterSeqAllPass(first, InAll(others));
    }
  }

  /** The test `_.difference` keeps an item by: no other array contains it. */
  function InNone<V(==,!new)>(others: seq<seq<V>>): (inNone: V -> bool)
    ensures forall item :: inNone(item) <==> forall j :: 0 <= j < |others| ==> item !in others[j]
  {
    ArrayEntries(others);
    (item: V) => !Folds.Some(Array(others), Holds(item))
  }

  /** The callback run by `_.difference` decides the test `InNone`. */
  lemma InNoneRejectsFound<V(!new)>(others: seq<seq<V>>, item: V)
    ensures InNone(others)(item) == !Folds.Some(Array(others), Holds(item))
  {
  }

  /**
   * `_.difference`: the items of the first array that no other array
   * contains, in order and with the first array's repetitions.
   */
  method Difference<V(==,!new)>(arr: seq<V>, others: seq<seq<V>>) returns (diff: seq<V>)
    ensures diff == FilterSeq(arr, InNone(others))
  {
    diff := [];
    for i := 0 to |arr|
      invariant diff == FilterSeq(arr[..i], InNone(others))
    {
      var inAnotherArr := Folds.Some(Array(others), Holds(arr[i]));
      InNoneRejectsFound(others, arr[i]);
      FilterPrefixStep(arr, i, InNone(others));
      if !inAnotherArr {
        diff := diff + [arr[i]];
      }
    }
    assert arr[..|arr|] == arr;
  }

  /** Against a single other array, `_.intersection` and `_.difference` split the first array between them. */
  lemma IntersectionDifferencePartition<V(!new)>(first: seq<V>, other: seq<V>)
    ensures |FilterSeq(first, InAll([other]))| + |FilterSeq(first, InNone([other]))| == |first|
    ensures multiset(FilterSeq(first, InAll([other]))) + multiset(FilterSeq(first, InNone([other]))) == multiset(first)
  {
    FilterSameTest(first, InNone([other]), Folds.Fails(InAll([other])));
    FilterRejectPartition(first, InAll([other]));
  }
}
