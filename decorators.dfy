/**
 * The function decorators `_.once` and `_.memoize` (src/underbar.js).
 * The closure a decorator returns is an object whose fields are the
 * closure's variables; calling the decorated function is `Call`. The
 * wrapped function may throw: it returns a `Result`, and a `Failure` is an
 * exception that propagates to the caller before anything is recorded.
 */
module Decorators {
  import opened Wrappers

  /** The closure of `_.once(func)`: `alreadyCalled` and `result`. */
  class Once<A, R, E> {
    const func: A -> Result<R, E>
    var alreadyCalled: bool
    var result: Option<R>
    /** The arguments `func` has been invoked with, in order. */
    ghost var invoked: seq<A>

    /**
     * `func` has been invoked until its first return and never after; the
     * cached result is what that first return produced.
     */
    ghost predicate Valid()
      reads this
    {
      && (alreadyCalled <==> result.Some?)
      && (forall i :: 0 <= i < |invoked| ==> (func(invoked[i]).Success? <==> alreadyCalled && i == |invoked| - 1))
      && (alreadyCalled ==> |invoked| > 0 && func(invoked[|invoked| - 1]) == Success(result.value))
    }

    /** `_.once(func)`. */
    constructor (func: A -> Result<R, E>)
      ensures Valid() && this.func == func
      ensures !alreadyCalled && invoked == []
    {
      this.func := func;
      alreadyCalled := false;
      result := None;
      invoked := [];
    }

    /**
     * A call of the decorated function. The first call that returns caches
     * its result; a call that throws leaves the closure as it was, so the
     * next call tries again.
     */
    method Call(args: A) returns (r: Result<R, E>)
      requires Valid()
      modifies this
      ensures Valid()
      ensures old(alreadyCalled) ==>
        r == Success(old(result).value) && alreadyCalled == old(alreadyCalled) && result == old(result) && invoked == old(invoked)
      ensures !old(alreadyCalled) ==>
        && r == func(args) && invoked == old(invoked) + [args]
        && (alreadyCalled <==> r.Success?)
        && result == (if r.Success? then Some(r.value) else old(result))
    {
      if !alreadyCalled {
        var outcome := func(args);
        invoked := invoked + [args];
        if outcome.Failure? {
          return outcome;
        }
        result := Some(outcome.value);
        alreadyCalled := true;
      }
      return Success(result.value);
    }
  }

  /** What successive calls of `_.once(func)` return, given the result cached so far. */
  function OnceReplies<A, R, E>(func: A -> Result<R, E>, calls: seq<A>, cached: Option<R>): (replies: seq<Result<R, E>>)
    ensures |replies| == |calls|
    decreases |calls|
  {
    if calls == [] then []
    else match cached
      case Some(v) => [Success(v)] + OnceReplies(func, calls[1..], cached)
      case None =>
        var out := func(calls[0]);
        [out] + OnceReplies(func, calls[1..], if out.Success? then Some(out.value) else None)
  }

  lemma {:induction false} OnceRepliesCached<A, R, E>(func: A -> Result<R, E>, calls: seq<A>, v: R)
    ensures forall j :: 0 <= j < |calls| ==> OnceReplies(func, calls, Some(v))[j] == Success(v)
    decreases |calls|
  {
    if calls != [] {
      OnceRepliesCached(func, calls[1..], v);
    }
  }

  /**
   * Every call of `_.once(func)` after the first one that returns gives
   * back that same result, whatever its arguments.
   */
  lemma {:induction false} OnceRepliesRepeat<A, R, E>(func: A -> Result<R, E>, calls: seq<A>, i: nat, j: nat)
    requires i < j < |calls| && OnceReplies(func, calls, None)[i].Success?
    ensures OnceReplies(func, calls, None)[j] == OnceReplies(func, calls, None)[i]
    decreases i
  {
    var out := func(calls[0]);
    if out.Success? {
      OnceRepliesCached(func, calls[1..], out.value);
    } else {
      OnceRepliesRepeat(func, calls[1..], i - 1, j - 1);
    }
  }

  /** Until the first call that returns, every call of `_.once(func)` invokes `func` with its own arguments. */
  lemma {:induction false} OnceRepliesInvoke<A, R, E>(func: A -> Result<R, E>, calls: seq<A>, i: nat)
    requires i < |calls|
    requires forall k :: 0 <= k < i ==> OnceReplies(func, calls, None)[k].Failure?
    ensures OnceReplies(func, calls, None)[i] == func(calls[i])
    decreases i
  {
    if i > 0 {
      assert OnceReplies(func, calls, None)[0].Failure?;
      var rest := OnceReplies(func, calls[1..], None);
      assert forall k :: 0 <= k < i - 1 ==> rest[k] == OnceReplies(func, calls, None)[k + 1];
      OnceRepliesInvoke(func, calls[1..], i - 1);
    }
  }

  /**
   * Calls `_.once(func)` with each argument list of `calls`, in order, and
   * collects the replies; `invoked` is what reached `func`.
   */
  method OnceCalls<A, R, E>(func: A -> Result<R, E>, calls: seq<A>) returns (replies: seq<Result<R, E>>, ghost invoked: seq<A>)
    ensures replies == OnceReplies(func, calls, None)
    ensures |invoked| <= |calls| && invoked == calls[..|invoked|]
    ensures forall i :: 0 <= i < |invoked| - 1 ==> func(invoked[i]).Failure?
    ensures |invoked| < |calls| ==> invoked != [] && func(invoked[|invoked| - 1]).Success?
  {
    var once := new Once(func);
    replies := [];
    for i := 0 to |calls|
      invariant once.Valid() && once.func == func
      invariant replies + OnceReplies(func, calls[i..], once.result) == OnceReplies(func, calls, None)
      invariant |once.invoked| <= i && once.invoked == calls[..|once.invoked|]
      invariant !once.alreadyCalled ==> |once.invoked| == i
    {
      ghost var cached := once.result;
      ghost var before := once.invoked;
      assert calls[i..][0] == calls[i] && calls[i..][1..] == calls[i + 1..];
      var r := once.Call(calls[i]);
      assert OnceReplies(func, calls[i..], cached) == [r] + OnceReplies(func, calls[i + 1..], once.result);
      if cached.None? {
        assert calls[..i + 1] == before + [calls[i]];
      }
      replies := replies + [r];
    }
    assert calls[|calls|..] == [];
    invoked := once.invoked;
  }

  /**
   * The closure of `_.memoize(func)`: the table `results`, keyed by the
   * serialisation of the argument list.
   */
  class Memoize<A, K(==), R, E> {
    const func: A -> Result<R, E>
    const serialize: A -> K
    var results: map<K, R>
    /** The arguments `func` has been invoked with, in order. */
    ghost var invoked: seq<A>

    /**
     * `func` is invoked again for a key only after every earlier invocation
     * for it threw; the table holds, for each key, the result of its one
     * invocation that returned.
     */
    ghost predicate Valid()
      reads this
    {
      && (forall i, j :: 0 <= i < j < |invoked| && serialize(invoked[i]) == serialize(invoked[j]) ==> func(invoked[i]).Failure?)
      && (forall i :: 0 <= i < |invoked| && func(invoked[i]).Success? ==>
            serialize(invoked[i]) in results && results[serialize(invoked[i])] == func(invoked[i]).value)
      && (forall k :: k in results ==> exists i :: 0 <= i < |invoked| && serialize(invoked[i]) == k && func(invoked[i]).Success?)
    }

    /** `_.memoize(func)`, with `serialize` standing for the stringification of the arguments. */
    constructor (func: A -> Result<R, E>, serialize: A -> K)
      ensures Valid() && this.func == func && this.serialize == serialize
      ensures results == map[] && invoked == []
    {
      this.func := func;
      this.serialize := serialize;
      results := map[];
      invoked := [];
    }

    /**
     * A call of the memoized function: a cached key is answered from the
     * table; otherwise `func` runs and, if it returns, its result is stored.
     */
    method Call(args: A) returns (r: Result<R, E>)
      requires Valid()
      modifies this
      ensures Valid()
      ensures serialize(args) in old(results) ==>
        r == Success(old(results)[serialize(args)]) && results == old(results) && invoked == old(invoked)
      ensures serialize(args) !in old(results) ==>
        && r == func(args) && invoked == old(invoked) + [args]
        && results == (if r.Success? then old(results)[serialize(args) := r.value] else old(results))
    {
      var key := serialize(args);
      if key !in results {
        var outcome := func(args);
        ghost var before := invoked;
        invoked := invoked + [args];
        assert forall i :: 0 <= i < |before| ==> invoked[i] == before[i];
        if outcome.Failure? {
          return outcome;
        }
        results := results[key := outcome.value];
        assert serialize(invoked[|before|]) == key && func(invoked[|before|]).Success?;
      }
      return Success(results[key]);
    }
  }

  /** What successive calls of `_.memoize(func)` return, given the table so far. */
  function MemoReplies<A, K(==), R, E>(func: A -> Result<R, E>, serialize: A -> K, calls: seq<A>, table: map<K, R>): (replies: seq<Result<R, E>>)
    ensures |replies| == |calls|
    decreases |calls|
  {
    if calls == [] then []
    else
      var key := serialize(calls[0]);
      if key in table then [Success(table[key])] + MemoReplies(func, serialize, calls[1..], table)
      else
        var out := func(calls[0]);
        [out] + MemoReplies(func, serialize, calls[1..], if out.Success? then table[key := out.value] else table)
  }

  /** A key already in the table is answered from it on every later call. */
  lemma {:induction false} MemoRepliesCached<A, K, R, E>(func: A -> Result<R, E>, serialize: A -> K, calls: seq<A>, table: map<K, R>, j: nat)
    requires j < |calls| && serialize(calls[j]) in table
    ensures MemoReplies(func, serialize, calls, table)[j] == Success(table[serialize(calls[j])])
    decreases j
  {
    if j > 0 {
      var key := serialize(calls[0]);
      var out := func(calls[0]);
      var table' := if key in table || out.Failure? then table else table[key := out.value];
      assert MemoReplies(func, serialize, calls, table)[j] == MemoReplies(func, serialize, calls[1..], table')[j - 1];
      MemoRepliesCached(func, serialize, calls[1..], table', j - 1);
    }
  }

  /**
   * Once a call of `_.memoize(func)` has returned for a key, every later
   * call with an argument list of the same key gets the same result back.
   */
  lemma {:induction false} MemoRepliesRepeat<A, K, R, E>(func: A -> Result<R, E>, serialize: A -> K, calls: seq<A>, table: map<K, R>, i: nat, j: nat)
    requires i < j < |calls| && serialize(calls[i]) == serialize(calls[j])
    requires MemoReplies(func, serialize, calls, table)[i].Success?
    ensures MemoReplies(func, serialize, calls, table)[j] == MemoReplies(func, serialize, calls, table)[i]
    decreases i
  {
    var key := serialize(calls[0]);
    var out := func(calls[0]);
    var table' := if key in table || out.Failure? then table else table[key := out.value];
    var replies := MemoReplies(func, serialize, calls, table);
    assert replies[j] == MemoReplies(func, serialize, calls[1..], table')[j - 1];
    if i == 0 {
      assert key in table';
      assert calls[1..][j - 1] == calls[j];
      MemoRepliesCached(func, serialize, calls[1..], table', j - 1);
    } else {
      assert replies[i] == MemoReplies(func, serialize, calls[1..], table')[i - 1];
      MemoRepliesRepeat(func, serialize, calls[1..], table', i - 1, j - 1);
    }
  }

  /** A call answered as `Memoize.Call` answers it extends the replies of a run of calls by the next specified reply. */
  lemma MemoCallStep<A, K, R, E>(func: A -> Result<R, E>, serialize: A -> K, calls: seq<A>, i: nat, replies: seq<Result<R, E>>,
                                 table: map<K, R>, r: Result<R, E>, table': map<K, R>)
    requires i < |calls|
    requires replies + MemoReplies(func, serialize, calls[i..], table) == MemoReplies(func, serialize, calls, map[])
    requires serialize(calls[i]) in table ==> r == Success(table[serialize(calls[i])]) && table' == table
    requires serialize(calls[i]) !in table ==>
      r == func(calls[i]) && table' == if r.Success? then table[serialize(calls[i]) := r.value] else table
    ensures (replies + [r]) + MemoReplies(func, serialize, calls[i + 1..], table') == MemoReplies(func, serialize, calls, map[])
  {
    assert calls[i..][0] == calls[i] && calls[i..][1..] == calls[i + 1..];
    var rest := MemoReplies(func, serialize, calls[i + 1..], table');
    assert MemoReplies(func, serialize, calls[i..], table) == [r] + rest;
    assert (replies + [r]) + rest == replies + ([r] + rest);
  }

  /** Calls `_.memoize(func)` with each argument list of `calls`, in order, and collects the replies. */
  method MemoCalls<A, K(==), R, E>(func: A -> Result<R, E>, serialize: A -> K, calls: seq<A>) returns (replies: seq<Result<R, E>>)
    ensures replies == MemoReplies(func, serialize, calls, map[])
  {
    var memo := new Memoize(func, serialize);
    replies := [];
    for i := 0 to |calls|
      invariant memo.Valid() && memo.func == func && memo.serialize == serialize
      invariant replies + MemoReplies(func, serialize, calls[i..], memo.results) == MemoReplies(func, serialize, calls, map[])
    {
      ghost var table := memo.results;
      var r := memo.Call(calls[i]);
      MemoCallStep(func, serialize, calls, i, replies, table, r, memo.results);
      replies := replies + [r];
    }
    assert calls[|calls|..] == [];
  }
}
