/**
 * The object merges `_.extend` and `_.defaults` (src/underbar.js). The
 * target object is updated in place and returned; each source is given as
 * its properties in `for...in` order.
 */
module Objects {

  /** A JavaScript object whose own properties are updated in place. */
  class JsObject<V> {
    var props: map<string, V>

    constructor (props: map<string, V>)
      ensures this.props == props
    {
      this.props := props;
    }
  }

  /** Whether some property of `src` is named `k`. */
  ghost predicate Supplies<V>(src: seq<(string, V)>, k: string)
  {
    exists q :: 0 <= q < |src| && src[q].0 == k
  }

  /** `obj[key] = source[key]` for every property of `source`, in order. */
  function Assign<V>(m: map<string, V>, src: seq<(string, V)>): map<string, V>
    decreases |src|
  {
    if src == [] then m else Assign(m[src[0].0 := src[0].1], src[1..])
  }

  /** The effect of `_.extend(obj, ...sources)` on the properties of `obj`. */
  function ExtendAll<V>(m: map<string, V>, sources: seq<seq<(string, V)>>): map<string, V>
    decreases |sources|
  {
    if sources == [] then m else ExtendAll(Assign(m, sources[0]), sources[1..])
  }

  /** `_.extend`: copies every property of every source into `obj`, in order, and returns `obj`. */
  method Extend<V>(obj: JsObject<V>, sources: seq<seq<(string, V)>>) returns (r: JsObject<V>)
    modifies obj
    ensures r == obj
    ensures obj.props == ExtendAll(old(obj.props), sources)
  {
    ghost var m0 := obj.props;
    for i := 0 to |sources|
      invariant ExtendAll(obj.props, sources[i..]) == ExtendAll(m0, sources)
    {
      assert sources[i..][1..] == sources[i + 1..];
      var src := sources[i];
      ghost var start := obj.props;
      for j := 0 to |src|
        invariant Assign(obj.props, src[j..]) == Assign(start, src)
      {
        assert src[j..][1..] == src[j + 1..];
        var (key, value) := src[j];
        obj.props := obj.props[key := value];
      }
      assert src[|src|..] == [];
    }
    assert sources[|sources|..] == [];
    return obj;
  }

  lemma {:induction false} AssignUntouched<V>(m: map<string, V>, src: seq<(string, V)>, k: string)
    requires !Supplies(src, k)
    ensures (k in Assign(m, src) <==> k in m) && (k in m ==> Assign(m, src)[k] == m[k])
    decreases |src|
  {
    if src != [] {
      assert forall q :: 0 <= q < |src[1..]| ==> src[1..][q] == src[q + 1];
      assert src[0].0 != k;
      AssignUntouched(m[src[0].0 := src[0].1], src[1..], k);
    }
  }

  lemma {:induction false} AssignLastWins<V>(m: map<string, V>, src: seq<(string, V)>, k: string, p: nat)
    requires p < |src| && src[p].0 == k
    requires forall q :: p < q < |src| ==> src[q].0 != k
    ensures k in Assign(m, src) && Assign(m, src)[k] == src[p].1
    decreases |src|
  {
    var m' := m[src[0].0 := src[0].1];
    if p == 0 {
      assert !Supplies(src[1..], k) by {
        assert forall q :: 0 <= q < |src[1..]| ==> src[1..][q] == src[q + 1];
      }
      AssignUntouched(m', src[1..], k);
    } else {
      AssignLastWins(m', src[1..], k, p - 1);
    }
  }

  /** No source names `k`. */
  ghost predicate NoneSupplies<V>(sources: seq<seq<(string, V)>>, k: string)
  {
    forall j :: 0 <= j < |sources| ==> !Supplies(sources[j], k)
  }

  lemma {:induction false} ExtendUntouched<V>(m: map<string, V>, sources: seq<seq<(string, V)>>, k: string)
    requires NoneSupplies(sources, k)
    ensures (k in ExtendAll(m, sources) <==> k in m) && (k in m ==> ExtendAll(m, sources)[k] == m[k])
    decreases |sources|
  {
    if sources != [] {
      AssignUntouched(m, sources[0], k);
      assert forall j :: 0 <= j < |sources[1..]| ==> sources[1..][j] == sources[j + 1];
      ExtendUntouched(Assign(m, sources[0]), sources[1..], k);
    }
  }

  /**
   * After `_.extend`, a property holds the value of the last source that
   * supplies it (within that source, its last pair named so).
   */
  lemma {:induction false} ExtendLastSourceWins<V>(m: map<string, V>, sources: seq<seq<(string, V)>>, k: string, i: nat, p: nat)
    requires i < |sources| && p < |sources[i]| && sources[i][p].0 == k
    requires forall q :: p < q < |sources[i]| ==> sources[i][q].0 != k
    requires NoneSupplies(sources[i + 1..], k)
    ensures k in ExtendAll(m, sources) && ExtendAll(m, sources)[k] == sources[i][p].1
    decreases |sources|
  {
    if i == 0 {
      AssignLastWins(m, sources[0], k, p);
      ExtendUntouched(Assign(m, sources[0]), sources[1..], k);
    } else {
      assert sources[1..][i - 1] == sources[i] && sources[1..][i..] == sources[i + 1..];
      ExtendLastSourceWins(Assign(m, sources[0]), sources[1..], k, i - 1, p);
    }
  }

  /** `obj[key] = source[key]` for every property of `source` that `obj` does not own yet. */
  function AssignMissing<V>(m: map<string, V>, src: seq<(string, V)>): map<string, V>
    decreases |src|
  {
    if src == [] then m
    else AssignMissing(if src[0].0 in m then m else m[src[0].0 := src[0].1], src[1..])
  }

  /** The effect of `_.defaults(obj, ...sources)` on the properties of `obj`. */
  function DefaultsAll<V>(m: map<string, V>, sources: seq<seq<(string, V)>>): map<string, V>
    decreases |sources|
  {
    if sources == [] then m else DefaultsAll(AssignMissing(m, sources[0]), sources[1..])
  }

  /** `_.defaults`: like `_.extend`, but never overwrites a property `obj` already owns; returns `obj`. */
  method Defaults<V>(obj: JsObject<V>, sources: seq<seq<(string, V)>>) returns (r: JsObject<V>)
    modifies obj
    ensures r == obj
    ensures obj.props == DefaultsAll(old(obj.props), sources)
  {
    ghost var m0 := obj.props;
    for i := 0 to |sources|
      invariant DefaultsAll(obj.props, sources[i..]) == DefaultsAll(m0, sources)
    {
      assert sources[i..][1..] == sources[i + 1..];
      var src := sources[i];
      ghost var start := obj.props;
      for j := 0 to |src|
        invariant AssignMissing(obj.props, src[j..]) == AssignMissing(start, src)
      {
        assert src[j..][1..] == src[j + 1..];
        var (key, value) := src[j];
        if key !in obj.props {
          obj.props := obj.props[key := value];
        }
      }
      assert src[|src|..] == [];
    }
    assert sources[|sources|..] == [];
    return obj;
  }

  lemma {:induction false} AssignMissingKeeps<V>(m: map<string, V>, src: seq<(string, V)>, k: string)
    requires k in m
    ensures k in AssignMissing(m, src) && AssignMissing(m, src)[k] == m[k]
    decreases |src|
  {
    if src != [] {
      AssignMissingKeeps(if src[0].0 in m then m else m[src[0].0 := src[0].1], src[1..], k);
    }
  }

  lemma {:induction false} AssignMissingUntouched<V>(m: map<string, V>, src: seq<(string, V)>, k: string)
    requires !Supplies(src, k) && k !in m
    ensures k !in AssignMissing(m, src)
    decreases |src|
  {
    if src != [] {
      assert forall q :: 0 <= q < |src[1..]| ==> src[1..][q] == src[q + 1];
      assert src[0].0 != k;
      AssignMissingUntouched(if src[0].0 in m then m else m[src[0].0 := src[0].1], src[1..], k);
    }
  }

  lemma {:induction false} AssignMissingFirstWins<V>(m: map<string, V>, src: seq<(string, V)>, k: string, p: nat)
    requires k !in m && p < |src| && src[p].0 == k
    requires forall q :: 0 <= q < p ==> src[q].0 != k
    ensures k in AssignMissing(m, src) && AssignMissing(m, src)[k] == src[p].1
    decreases |src|
  {
    var m' := if src[0].0 in m then m else m[src[0].0 := src[0].1];
    if p == 0 {
      AssignMissingKeeps(m', src[1..], k);
    } else {
      AssignMissingFirstWins(m', src[1..], k, p - 1);
    }
  }

  /** After `_.defaults`, every property `obj` owned keeps its value. */
  lemma {:induction false} DefaultsKeepsOwn<V>(m: map<string, V>, sources: seq<seq<(string, V)>>, k: string)
    requires k in m
    ensures k in DefaultsAll(m, sources) && DefaultsAll(m, sources)[k] == m[k]
    decreases |sources|
  {
    if sources != [] {
      AssignMissingKeeps(m, sources[0], k);
      DefaultsKeepsOwn(AssignMissing(m, sources[0]), sources[1..], k);
    }
  }

  /** After `_.defaults`, a property no source supplies and `obj` did not own is still absent. */
  lemma {:induction false} DefaultsAddsOnlySupplied<V>(m: map<string, V>, sources: seq<seq<(string, V)>>, k: string)
    requires NoneSupplies(sources, k) && k !in m
    ensures k !in DefaultsAll(m, sources)
    decreases |sources|
  {
    if sources != [] {
      AssignMissingUntouched(m, sources[0], k);
      assert forall j :: 0 <= j < |sources[1..]| ==> sources[1..][j] == sources[j + 1];
      DefaultsAddsOnlySupplied(AssignMissing(m, sources[0]), sources[1..], k);
    }
  }

  /**
   * After `_.defaults`, a property `obj` did not own holds the value of the
   * first source that supplies it (within that source, its first pair named so).
   */
  lemma {:induction false} DefaultsFirstSourceWins<V>(m: map<string, V>, sources: seq<seq<(string, V)>>, k: string, i: nat, p: nat)
    requires k !in m
    requires i < |sources| && p < |sources[i]| && sources[i][p].0 == k
    requires forall q :: 0 <= q < p ==> sources[i][q].0 != k
    requires NoneSupplies(sources[..i], k)
    ensures k in DefaultsAll(m, sources) && DefaultsAll(m, sources)[k] == sources[i][p].1
    decreases |sources|
  {
    if i == 0 {
      AssignMissingFirstWins(m, sources[0], k, p);
      DefaultsKeepsOwn(AssignMissing(m, sources[0]), sources[1..], k);
    } else {
      assert sources[..i][0] == sources[0];
      AssignMissingUntouched(m, sources[0], k);
      assert sources[1..][i - 1] == sources[i];
      assert sources[1..][..i - 1] == sources[..i][1..];
      DefaultsFirstSourceWins(AssignMissing(m, sources[0]), sources[1..], k, i - 1, p);
    }
  }

  /** `_.extend({a: 1}, {a: 2, b: 3})` is `{a: 2, b: 3}`; `_.defaults({a: 1}, {a: 2, b: 3})` is `{a: 1, b: 3}`. */
  lemma MergeExamples()
    ensures ExtendAll(map["a" := 1], [[("a", 2), ("b", 3)]]) == map["a" := 2, "b" := 3]
    ensures DefaultsAll(map["a" := 1], [[("a", 2), ("b", 3)]]) == map["a" := 1, "b" := 3]
  {
    var src: seq<(string, int)> := [("a", 2), ("b", 3)];
    assert src[1..][1..] == [];
    assert [src][1..] == [];
  }
}
