/**
 * Selection over arrays and collections (src/underbar.js): `_.identity`,
 * `_.first`, `_.last`, `_.indexOf`, `_.filter`, `_.reject` and `_.uniq`.
 * The searching and filtering operations run `_.each` with a visitor that
 * updates the local state of the JavaScript closure (`result`,
 * `filteredColl`, the arrays of `_.uniq`); here that state is the visitor
 * state of `Each`, and each visitor's effect is a named step function.
 */
module Selection {
  import opened Wrappers
  import opened Collections
  import opened Folds

  /** `_.identity`: the default projection of `_.uniq`. */
  function Identity<T>(v: T): T
  {
    v
  }

  function Min(x: int, y: int): int { if x <= y then x else y }

  function Max(x: int, y: int): int { if x <= y then y else x }

  /**
   * Where `Array.prototype.slice` puts an index argument: a negative index
   * counts from the end, and the result is clamped to `0..len`.
   */
  function SliceBound(i: int, len: nat): (b: nat)
    ensures b <= len
    ensures 0 <= i <= len ==> b == i
    ensures i > len ==> b == len
    ensures i < 0 && -i <= len ==> b == len + i
    ensures i < 0 && -i > len ==> b == 0
  {
    if i < 0 then Max(0, len + i) else Min(i, len)
  }

  /** `a.slice(start, end)`. */
  function Slice<T>(a: seq<T>, start: int, end: int): seq<T>
  {
    var s := SliceBound(start, |a|);
    var e := SliceBound(end, |a|);
    if s < e then a[s..e] else []
  }

  /** What `_.first` and `_.last` return: one element (maybe `undefined`), or an array. */
  datatype Taken<T> = One(item: Option<T>) | Many(items: seq<T>)

  /** `_.first(array, n)`. */
  function First<T>(a: seq<T>, n: Option<int>): (r: Taken<T>)
    ensures n.None? && a == [] ==> r == One(None)
    ensures n.None? && a != [] ==> r == One(Some(a[0]))
    ensures n.Some? && n.value >= 0 ==> r == Many(a[..Min(n.value, |a|)])
    ensures n.Some? && n.value < 0 ==> r == Many(a[..Max(0, |a| + n.value)])
  {
    match n
    case None => One(if a == [] then None else Some(a[0]))
    case Some(k) => Many(Slice(a, 0, k))
  }

  /** `_.last(array, n)`. */
  function Last<T>(a: seq<T>, n: Option<int>): (r: Taken<T>)
    ensures n.None? && a == [] ==> r == One(None)
    ensures n.None? && a != [] ==> r == One(Some(a[|a| - 1]))
    ensures n.Some? && n.value >= 0 ==> r == Many(a[|a| - Min(n.value, |a|)..])
    ensures n.Some? && n.value > |a| ==> r == Many(a)
    ensures n.Some? && n.value < 0 ==> r == Many([])
  {
    match n
    case None => One(if a == [] then None else Some(a[|a| - 1]))
    case Some(k) =>
      var initialIdx := if k > |a| then 0 else |a| - k;
      assert 0 <= k <= |a| ==> Slice(a, initialIdx, |a|) == a[|a| - k..];
      assert k > |a| ==> Slice(a, initialIdx, |a|) == a;
      Many(Slice(a, initialIdx, |a|))
  }

  /** The visitor of `_.indexOf`: it records the first index holding `target`. */
  function IndexOfStep<V(==)>(target: V): (int, V, Key) -> int
  {
    (result: int, item: V, k: Key) => if item == target && result == -1 && k.Index? then k.i else result
  }

  /** `r` is the least index below `n` holding `target`, or -1 if there is none. */
  ghost predicate FirstIndexBelow<V>(a: seq<V>, n: nat, target: V, r: int)
    requires n <= |a|
  {
    || (r == -1 && forall j :: 0 <= j < n ==> a[j] != target)
    || (0 <= r < n && a[r] == target && forall j :: 0 <= j < r ==> a[j] != target)
  }

  lemma {:induction false} FoldIndexOf<V>(a: seq<V>, target: V, n: nat, result: int)
    requires n <= |a| && FirstIndexBelow(a, n, target, result)
    ensures FirstIndexBelow(a, |a|, target, Fold(Entries(Array(a))[n..], IndexOfStep(target), result))
    decreases |a| - n
  {
    var es := Entries(Array(a));
    if n < |a| {
      assert es[n..][1..] == es[n + 1..];
      assert es[n..][0] == (Index(n), a[n]);
      FoldIndexOf(a, target, n + 1, IndexOfStep(target)(result, a[n], Index(n)));
    } else {
      assert es[n..] == [];
    }
  }

  /** `_.indexOf`: the first index holding `target`, or -1 exactly when it is absent. */
  method IndexOf<V(==)>(a: seq<V>, target: V) returns (r: int)
    ensures r == -1 <==> target !in a
    ensures r != -1 ==> 0 <= r < |a| && a[r] == target && forall j :: 0 <= j < r ==> a[j] != target
  {
    r := Each(Array(a), IndexOfStep(target), -1);
    assert Entries(Array(a))[0..] == Entries(Array(a));
    FoldIndexOf(a, target, 0, -1);
  }

  /** The elements of `s` that pass `test`, in order. */
  function FilterSeq<V>(s: seq<V>, test: V -> bool): seq<V>
  {
    if s == [] then [] else (if test(s[0]) then [s[0]] else []) + FilterSeq(s[1..], test)
  }

  /** The visitor of `_.filter`: it pushes the items that pass. */
  function FilterStep<V>(test: V -> bool): (seq<V>, V, Key) -> seq<V>
  {
    (acc: seq<V>, item: V, k: Key) => if test(item) then acc + [item] else acc
  }

  lemma {:induction false} FoldFilter<V>(es: seq<(Key, V)>, test: V -> bool, acc: seq<V>)
    ensures Fold(es, FilterStep(test), acc) == acc + FilterSeq(ValuesOf(es), test)
    decreases |es|
  {
    if es != [] {
      ValuesOfTail(es);
      FoldFilter(es[1..], test, FilterStep(test)(acc, es[0].1, es[0].0));
    }
  }

  /** `_.filter`: the values that pass, in visiting order. */
  method Filter<V>(c: Collection<V>, test: V -> bool) returns (r: seq<V>)
    ensures r == FilterSeq(Values(c), test)
  {
    r := Each(c, FilterStep(test), []);
    FoldFilter(Entries(c), test, []);
  }

  /** `_.reject`: the values that fail, in visiting order. */
  method Reject<V>(c: Collection<V>, test: V -> bool) returns (r: seq<V>)
    ensures r == FilterSeq(Values(c), Fails(test))
  {
    r := Each(c, FilterStep(Fails(test)), []);
    FoldFilter(Entries(c), Fails(test), []);
  }

  /** `r` is obtained from `s` by deleting elements: its elements appear in `s` in the same order. */
  ghost predicate Subsequence<V>(r: seq<V>, s: seq<V>)
    decreases |s|
  {
    r == [] || (s != [] && ((r[0] == s[0] && Subsequence(r[1..], s[1..])) || Subsequence(r, s[1..])))
  }

  /** Every element of a subsequence occurs in the sequence it was taken from. */
  lemma {:induction false} SubsequenceElements<V>(r: seq<V>, s: seq<V>)
    requires Subsequence(r, s)
    ensures forall v :: v in r ==> v in s
    decreases |s|
  {
    if r != [] {
      if r[0] == s[0] && Subsequence(r[1..], s[1..]) {
        SubsequenceElements(r[1..], s[1..]);
        assert forall v :: v in r ==> v == r[0] || v in r[1..];
      } else {
        SubsequenceElements(r, s[1..]);
      }
      assert forall v :: v in s[1..] ==> v in s;
    }
  }

  /** A filtered array is an in-order subsequence of its input. */
  lemma {:induction false} FilterSeqIsSubsequence<V>(s: seq<V>, test: V -> bool)
    ensures Subsequence(FilterSeq(s, test), s)
  {
    if s != [] {
      FilterSeqIsSubsequence(s[1..], test);
      var r := FilterSeq(s, test);
      if test(s[0]) {
        assert r[0] == s[0] && r[1..] == FilterSeq(s[1..], test);
      } else {
        assert r == FilterSeq(s[1..], test);
      }
    }
  }

  /** A filtered array holds exactly the passing elements, with their multiplicities. */
  lemma {:induction false} FilterSeqCounts<V>(s: seq<V>, test: V -> bool)
    ensures forall i :: 0 <= i < |FilterSeq(s, test)| ==> test(FilterSeq(s, test)[i])
    ensures forall x :: multiset(FilterSeq(s, test))[x] == if test(x) then multiset(s)[x] else 0
  {
    if s != [] {
      FilterSeqCounts(s[1..], test);
      assert s == [s[0]] + s[1..];
      var r := FilterSeq(s, test);
      var r' := FilterSeq(s[1..], test);
      if test(s[0]) {
        assert r == [s[0]] + r';
        assert forall i :: 1 <= i < |r| ==> r[i] == r'[i - 1];
      } else {
        assert r == r';
      }
    }
  }

  /** `_.filter` and `_.reject` split a collection: their lengths and contents add up to the input. */
  lemma {:induction false} FilterRejectPartition<V>(s: seq<V>, test: V -> bool)
    ensures |FilterSeq(s, test)| + |FilterSeq(s, Fails(test))| == |s|
    ensures multiset(FilterSeq(s, test)) + multiset(FilterSeq(s, Fails(test))) == multiset(s)
  {
    if s != [] {
      FilterRejectPartition(s[1..], test);
      assert s == [s[0]] + s[1..];
    }
  }

  /** Filtering keeps a sequence whole when every element passes. */
  lemma {:induction false} FilterSeqAllPass<V>(s: seq<V>, test: V -> bool)
    requires forall i :: 0 <= i < |s| ==> test(s[i])
    ensures FilterSeq(s, test) == s
  {
    if s != [] {
      FilterSeqAllPass(s[1..], test);
      assert s == [s[0]] + s[1..];
    }
  }

  /** Filtering empties a sequence when no element passes. */
  lemma {:induction false} FilterSeqNonePass<V>(s: seq<V>, test: V -> bool)
    requires forall i :: 0 <= i < |s| ==> !test(s[i])
    ensures FilterSeq(s, test) == []
  {
    if s != [] {
      FilterSeqNonePass(s[1..], test);
    }
  }

  /** Filtering a sequence extended by one element. */
  lemma FilterSnoc<V>(s: seq<V>, x: V, test: V -> bool)
    ensures FilterSeq(s + [x], test) == FilterSeq(s, test) + if test(x) then [x] else []
  {
    FilterAppend(s, [x], test);
    assert [x][1..] == [];
  }

  /** Filtering one more element of a prefix. */
  lemma FilterPrefixStep<V>(s: seq<V>, i: nat, test: V -> bool)
    requires i < |s|
    ensures FilterSeq(s[..i + 1], test) == FilterSeq(s[..i], test) + if test(s[i]) then [s[i]] else []
  {
    assert s[..i + 1] == s[..i] + [s[i]];
    FilterSnoc(s[..i], s[i], test);
  }

  /** Filtering by two tests that agree on every element gives the same result. */
  lemma {:induction false} FilterSameTest<V>(s: seq<V>, test: V -> bool, other: V -> bool)
    requires forall i :: 0 <= i < |s| ==> test(s[i]) == other(s[i])
    ensures FilterSeq(s, test) == FilterSeq(s, other)
  {
    if s != [] {
      FilterSameTest(s[1..], test, other);
    }
  }

  /** Filtering distributes over concatenation. */
  lemma {:induction false} FilterAppend<V>(s: seq<V>, t: seq<V>, test: V -> bool)
    ensures FilterSeq(s + t, test) == FilterSeq(s, test) + FilterSeq(t, test)
    decreases |s|
  {
    if s == [] {
      assert s + t == t;
    } else {
      assert (s + t)[0] == s[0] && (s + t)[1..] == s[1..] + t;
      FilterAppend(s[1..], t, test);
      var h := if test(s[0]) then [s[0]] else [];
      assert FilterSeq(s + t, test) == h + (FilterSeq(s[1..], test) + FilterSeq(t, test));
      assert h + (FilterSeq(s[1..], test) + FilterSeq(t, test)) == (h + FilterSeq(s[1..], test)) + FilterSeq(t, test);
    }
  }

  /** The projections of `s`, in order. */
  function Project<V, P>(s: seq<V>, proj: V -> P): (ps: seq<P>)
  {
    seq(|s|, i requires 0 <= i < |s| => proj(s[i]))
  }

  /**
   * The elements `_.uniq` keeps from `s` when the projections in `seen` are
   * already taken: each element whose projection is new, in order.
   */
  function UniqFrom<V, P(==)>(s: seq<V>, proj: V -> P, seen: seq<P>): seq<V>
  {
    if s == [] then []
    else if proj(s[0]) in seen then UniqFrom(s[1..], proj, seen)
    else [s[0]] + UniqFrom(s[1..], proj, seen + [proj(s[0])])
  }

  /** Projecting a sequence with a new first element. */
  lemma ProjectCons<V, P>(x: V, s: seq<V>, proj: V -> P)
    ensures Project([x] + s, proj) == [proj(x)] + Project(s, proj)
  {
  }

  /** The visitor of `_.uniq`: its state is the pair (`dupFreeArr`, `iteratedArr`). */
  function UniqStep<V, P(==)>(proj: V -> P): ((seq<V>, seq<P>), V, Key) -> (seq<V>, seq<P>)
  {
    (st: (seq<V>, seq<P>), item: V, k: Key) =>
      if Contains(Array(st.1), proj(item)) then st else (st.0 + [item], st.1 + [proj(item)])
  }

  lemma {:induction false} FoldUniq<V, P>(es: seq<(Key, V)>, proj: V -> P, kept: seq<V>, seen: seq<P>)
    ensures var u := UniqFrom(ValuesOf(es), proj, seen);
      Fold(es, UniqStep(proj), (kept, seen)) == (kept + u, seen + Project(u, proj))
    decreases |es|
  {
    if es != [] {
      ValuesOfTail(es);
      ArrayEntries(seen);
      var item := es[0].1;
      var u := UniqFrom(ValuesOf(es), proj, seen);
      if proj(item) in seen {
        FoldUniq(es[1..], proj, kept, seen);
      } else {
        FoldUniq(es[1..], proj, kept + [item], seen + [proj(item)]);
        var u' := UniqFrom(ValuesOf(es[1..]), proj, seen + [proj(item)]);
        assert u == [item] + u';
        ProjectCons(item, u', proj);
        assert kept + [item] + u' == kept + u;
        assert seen + [proj(item)] + Project(u', proj) == seen + Project(u, proj);
      }
    } else {
      assert kept + [] == kept && seen + Project([], proj) == seen;
    }
  }

  /**
   * `_.uniq(array, isSorted, iterator)`: the elements whose projection no
   * earlier element has, in order. `isSorted` is accepted and ignored.
   */
  method Uniq<V, P(==)>(a: seq<V>, isSorted: bool, proj: V -> P) returns (r: seq<V>)
    ensures r == UniqFrom(a, proj, [])
  {
    var st := Each(Array(a), UniqStep(proj), ([], []));
    ArrayEntries(a);
    FoldUniq(Entries(Array(a)), proj, [], []);
    r := st.0;
  }

  /** What `_.uniq` keeps, when the projections in `seen` are already taken. */
  lemma {:induction false} UniqFromSelects<V, P>(s: seq<V>, proj: V -> P, seen: seq<P>)
    ensures Subsequence(UniqFrom(s, proj, seen), s)
    ensures forall j :: 0 <= j < |UniqFrom(s, proj, seen)| ==> proj(UniqFrom(s, proj, seen)[j]) !in seen
    ensures forall j, l :: 0 <= j < l < |UniqFrom(s, proj, seen)| ==>
      proj(UniqFrom(s, proj, seen)[j]) != proj(UniqFrom(s, proj, seen)[l])
    ensures forall i :: 0 <= i < |s| && proj(s[i]) !in seen && (forall k :: 0 <= k < i ==> proj(s[k]) != proj(s[i])) ==>
      s[i] in UniqFrom(s, proj, seen)
    ensures forall i :: 0 <= i < |s| ==> proj(s[i]) in seen || proj(s[i]) in Project(UniqFrom(s, proj, seen), proj)
    decreases |s|
  {
    if s != [] {
      var r := UniqFrom(s, proj, seen);
      if proj(s[0]) in seen {
        UniqFromSelects(s[1..], proj, seen);
        assert forall i :: 1 <= i < |s| ==> s[i] == s[1..][i - 1];
      } else {
        var seen' := seen + [proj(s[0])];
        UniqFromSelects(s[1..], proj, seen');
        var r' := UniqFrom(s[1..], proj, seen');
        assert r == [s[0]] + r' && r[1..] == r';
        assert forall j :: 1 <= j < |r| ==> r[j] == r'[j - 1];
        assert forall i :: 1 <= i < |s| ==> s[i] == s[1..][i - 1];
        assert Project(r, proj) == [proj(s[0])] + Project(r', proj);
      }
    }
  }

  /**
   * Extending the input by one element extends what `_.uniq` keeps by that
   * element exactly when its projection is neither taken nor carried by an
   * earlier element.
   */
  lemma {:induction false} UniqFromSnoc<V, P>(s: seq<V>, x: V, proj: V -> P, seen: seq<P>)
    ensures UniqFrom(s + [x], proj, seen)
         == UniqFrom(s, proj, seen) + if proj(x) in seen || proj(x) in Project(s, proj) then [] else [x]
    decreases |s|
  {
    if s == [] {
      assert [] + [x] == [x];
    } else {
      assert (s + [x])[0] == s[0] && (s + [x])[1..] == s[1..] + [x];
      ProjectCons(s[0], s[1..], proj);
      assert [s[0]] + s[1..] == s;
      if proj(s[0]) in seen {
        UniqFromSnoc(s[1..], x, proj, seen);
      } else {
        UniqFromSnoc(s[1..], x, proj, seen + [proj(s[0])]);
      }
    }
  }

  /**
   * `_.uniq` keeps an in-order subsequence with pairwise distinct
   * projections; every projection of the input is represented, and the
   * first element carrying a projection is kept. The result is built
   * prefix by prefix: each element is appended exactly when no earlier
   * element carries its projection, which fixes the order of the output.
   */
  lemma UniqSelects<V, P>(a: seq<V>, proj: V -> P)
    ensures Subsequence(UniqFrom(a, proj, []), a)
    ensures forall j, l :: 0 <= j < l < |UniqFrom(a, proj, [])| ==>
      proj(UniqFrom(a, proj, [])[j]) != proj(UniqFrom(a, proj, [])[l])
    ensures forall i :: 0 <= i < |a| ==> proj(a[i]) in Project(UniqFrom(a, proj, []), proj)
    ensures forall i :: 0 <= i < |a| && (forall k :: 0 <= k < i ==> proj(a[k]) != proj(a[i])) ==>
      a[i] in UniqFrom(a, proj, [])
    ensures UniqFrom([], proj, []) == []
    ensures forall n :: 0 <= n < |a| ==>
      UniqFrom(a[..n + 1], proj, []) == UniqFrom(a[..n], proj, []) + if proj(a[n]) in Project(a[..n], proj) then [] else [a[n]]
  {
    UniqFromSelects(a, proj, []);
    forall n | 0 <= n < |a|
      ensures UniqFrom(a[..n + 1], proj, []) == UniqFrom(a[..n], proj, []) + if proj(a[n]) in Project(a[..n], proj) then [] else [a[n]]
    {
      assert a[..n + 1] == a[..n] + [a[n]];
      UniqFromSnoc(a[..n], a[n], proj, []);
    }
  }

  /**
   * With the iterator omitted, `_.uniq` falls back to `_.identity`: the
   * output holds each distinct element of the input once, at its first
   * occurrence.
   */
  lemma UniqByIdentity<V(!new)>(a: seq<V>)
    ensures Subsequence(UniqFrom(a, Identity, []), a)
    ensures forall j, l :: 0 <= j < l < |UniqFrom(a, Identity, [])| ==> UniqFrom(a, Identity, [])[j] != UniqFrom(a, Identity, [])[l]
    ensures forall v :: v in a <==> v in UniqFrom(a, Identity, [])
  {
    var r := UniqFrom(a, Identity, []);
    UniqSelects(a, Identity);
    SubsequenceElements(r, a);
    forall v | v in a
      ensures v in r
    {
      var i :| 0 <= i < |a| && a[i] == v;
      var j :| 0 <= j < |r| && Project(r, Identity)[j] == Identity(a[i]);
    }
  }

  /** `_.uniq([1, 2, 1, 3, 2])` with the default iterator is `[1, 2, 3]`. */
  lemma UniqExample()
    ensures UniqFrom([1, 2, 1, 3, 2], Identity, []) == [1, 2, 3]
  {
    var id := Identity<int>;
    assert UniqFrom([2], id, [1, 2, 3]) == [];
    assert [3, 2][1..] == [2] && [1, 2] + [3] == [1, 2, 3];
    assert UniqFrom([3, 2], id, [1, 2]) == [3];
    assert UniqFrom([1, 3, 2], id, [1, 2]) == [3];
    assert [2, 1, 3, 2][1..] == [1, 3, 2] && [1] + [2] == [1, 2];
    assert UniqFrom([2, 1, 3, 2], id, [1]) == [2, 3];
    assert [1, 2, 1, 3, 2][1..] == [2, 1, 3, 2] && [] + [1] == [1];
  }
}
