# Underbar in Dafny

A model of Underbar (`src/underbar.js`), a small JavaScript library of
collection helpers in the style of Underscore. Everything in it is built
on two primitives. `_.each` walks an array by index or an object by
property. `_.reduce` folds a collection with or without a seed. On top of
them sit:

- the selection helpers `identity`, `first`, `last`, `indexOf`, `filter`, `reject` and `uniq`;
- the transformations `map` and `pluck`;
- the boolean folds `contains`, `every` and `some`;
- the in-place merges `extend` and `defaults`;
- the function decorators `once` and `memoize`;
- the array operations `sortBy`, `zip`, `flatten`, `intersection` and `difference`.

How the model represents JavaScript:

- An array is a `seq`.
- A traversed object is the sequence of its own `(name, value)` properties in
  `for...in` order, so the visiting order is explicit (`Collections.Collection`).
- `undefined` is `None`.
- Callbacks are total function parameters.
- The state a JavaScript callback keeps in its closure is threaded through the visitor.
  This covers the array it pushes into and the accumulator it reassigns.
- `Collections.Fold` is the specification of `each` and of a seeded `reduce`.
- Each loop of the source is a `method` proved against such a function.
- `extend` and `defaults` update an object in place. They are module-level
  methods that take a `JsObject` and modify its `props` map.
- `once` and `memoize` keep closure state. They are classes whose fields are
  the closure's variables.
- A call to the wrapped function returns a `Result`. A `Failure` stands for a
  thrown exception, which the decorators do not cache.

Modules, one file each:

| module | file | covers |
|---|---|---|
| `Wrappers` | wrappers.dfy | `Option`, `Result` |
| `Collections` | collections.dfy | keys, collections, `Fold`, `each` |
| `Reduction` | reduction.dfy | `reduce` |
| `Folds` | folds.dfy | `contains`, `every`, `some` |
| `Selection` | selection.dfy | `identity`, `first`, `last`, `indexOf`, `filter`, `reject`, `uniq` |
| `Transformation` | transformation.dfy | `map`, `pluck` |
| `Objects` | objects.dfy | `extend`, `defaults` |
| `Decorators` | decorators.dfy | `once`, `memoize` |
| `Sorting` | sorting.dfy | `sortBy` |
| `Arrays` | arrays.dfy | `zip`, `intersection`, `difference` |
| `Flattening` | flattening.dfy | `flatten` |

## Model

| member | source | states |
|---|---|---|
| Collections.Each | src/underbar.js:50-60 | the visitor state after visiting an array in index order or an object in property order is the fold of the visitor over the entries |
| Collections.FoldVisitsInOrder | src/underbar.js:50-60 | every entry reaches the visitor exactly once, in visiting order |
| Collections.FoldAppend | src/underbar.js:50-60 | visiting a concatenation means visiting the first part and then the second |
| Collections.ArrayEntries | src/underbar.js:51-54 | an array is visited with the indices 0, 1, ... paired with its elements, and its values are its elements |
| Reduction.ReduceWithSeed | src/underbar.js:168-195 | with a seed, the iterator runs over every entry left to right, starting from the seed |
| Reduction.Reduce | src/underbar.js:168-195 | the result is the seeded fold; without a seed, an array's first element seeds the fold of the rest and an object's first value seeds the fold of the whole object |
| Reduction.ReduceArrayWithoutSeed | src/underbar.js:169-172 | a seedless reduce of `[]` is undefined, of `[x]` is `x` whatever the iterator, and otherwise equals the reduce of the tail seeded with the head |
| Reduction.ReduceObjectWithoutSeed | src/underbar.js:173-187 | a seedless reduce of an object equals the reduce of the whole object seeded with its first value |
| Reduction.SeedlessObjectRevisitsFirst | src/underbar.js:173-187 | `reduce({a: 5}, (t, n) => t + n * n)` is 30, not 5 |
| Reduction.ReduceIntendedSingleton | src/underbar.js:148-156 | under the corrected reduce, a seedless reduce of a one-property object is that property's value |
| Reduction.ReduceIntendedWithoutSeed | src/underbar.js:173-191 | the corrected seedless reduce of an object folds the properties after the first, and it agrees with the code on arrays |
| Folds.FoldContains | src/underbar.js:198-207 | the contains fold is true iff it started true or the target is among the visited values |
| Folds.Contains | src/underbar.js:198-207 | true iff the target is one of the collection's values |
| Folds.FoldEvery | src/underbar.js:211-223 | the every fold is true iff it started true and every visited value passes |
| Folds.Every | src/underbar.js:211-223 | true iff every value passes the test, so true on an empty collection |
| Folds.Some | src/underbar.js:227-248 | true iff at least one value passes the test, so false on an empty collection |
| Selection.SliceBound | src/underbar.js:35 | a slice bound in `0..length` is itself; a larger one is the length; a negative one counts back from the end, and is 0 when it reaches past the start |
| Selection.First | src/underbar.js:34-36 | with `n` omitted, the first element or undefined; otherwise the prefix of length `min(n, length)`, and for negative `n` everything but the last `-n` |
| Selection.Last | src/underbar.js:40-43 | with `n` omitted, the last element or undefined; otherwise the suffix of length `min(n, length)`, the whole array when `n` exceeds the length, and nothing for negative `n` |
| Selection.FoldIndexOf | src/underbar.js:64-77 | the index visitor keeps the first index holding the target |
| Selection.IndexOf | src/underbar.js:64-77 | -1 exactly when the target is absent; otherwise the least index holding it |
| Selection.FoldFilter | src/underbar.js:80-90 | the filter visitor appends the passing values, in order, to what it already holds |
| Selection.Filter | src/underbar.js:80-90 | the values that pass, in visiting order |
| Selection.Reject | src/underbar.js:93-103 | the values that fail, in visiting order |
| Selection.FilterSeqIsSubsequence | src/underbar.js:80-90 | a filtered array is an in-order subsequence of its input |
| Selection.FilterSeqCounts | src/underbar.js:80-90 | every kept element passes, and each passing value is kept exactly as often as it occurs |
| Selection.FilterRejectPartition | src/underbar.js:93-103 | filter and reject split the input: their lengths and their multisets add up to the input's |
| Selection.FilterAppend | src/underbar.js:80-90 | filtering a concatenation concatenates the filtered parts |
| Selection.FilterSeqAllPass | src/underbar.js:80-90 | filtering keeps a sequence whole when every element passes |
| Selection.FilterSeqNonePass | src/underbar.js:80-90 | filtering empties a sequence when no element passes |
| Selection.FilterSameTest | src/underbar.js:80-90 | tests that agree on the elements filter alike |
| Selection.FoldUniq | src/underbar.js:106-119 | the uniq visitor appends the first element for each new projection and records the projection |
| Selection.Uniq | src/underbar.js:106-119 | the elements whose projection has not occurred before, in order, whatever `isSorted` says |
| Selection.UniqFromSelects | src/underbar.js:106-119 | the kept elements form an in-order subsequence whose projections are new and pairwise distinct, each first carrier of a new projection is kept, and every projection is covered |
| Selection.UniqSelects | src/underbar.js:106-119 | uniq's output is a subsequence with pairwise distinct projections, it covers every input projection, and each projection is carried by its first occurrence; prefix by prefix, an element is appended exactly when no earlier element carries its projection, which fixes the output order |
| Selection.UniqFromSnoc | src/underbar.js:111-116 | one more input element is appended to the output exactly when its projection is neither already taken nor carried by an earlier element |
| Selection.UniqByIdentity | src/underbar.js:106-119 | with the iterator omitted, the projection is `_.identity`, and the output holds each distinct input element once, as an in-order subsequence |
| Selection.UniqExample | src/underbar.js:106-119 | `_.uniq([1, 2, 1, 3, 2])` is `[1, 2, 3]` |
| Transformation.FoldMap | src/underbar.js:123-134 | the map visitor appends the image of each visited entry to what it already holds |
| Transformation.FoldMapFresh | src/underbar.js:123-134 | mapping from a fresh array yields one image per entry, each at the entry's position |
| Transformation.Map | src/underbar.js:123-134 | one result per entry, in visiting order, each the iterator applied to that entry's value and key |
| Transformation.Pluck | src/underbar.js:139-146 | one result per value, that value's property under the key, undefined where it has none |
| Objects.Extend | src/underbar.js:269-276 | `obj` is updated in place with every source's properties in order and returned |
| Objects.AssignUntouched | src/underbar.js:271-273 | copying one source leaves every key it does not supply as it was |
| Objects.AssignLastWins | src/underbar.js:271-273 | within one source, a key gets the value of its last occurrence |
| Objects.ExtendUntouched | src/underbar.js:269-276 | keys no source supplies keep their presence and value |
| Objects.ExtendLastSourceWins | src/underbar.js:269-276 | a supplied key ends up with the value from the last source that supplies it |
| Objects.Defaults | src/underbar.js:280-289 | `obj` is updated in place with the missing keys of every source in order and returned |
| Objects.AssignMissingKeeps | src/underbar.js:282-286 | a key `obj` holds is never overwritten by a source |
| Objects.AssignMissingUntouched | src/underbar.js:282-286 | a key that is neither in `obj` nor in the source stays absent |
| Objects.AssignMissingFirstWins | src/underbar.js:282-286 | a missing key gets the value of its first occurrence in the source |
| Objects.DefaultsKeepsOwn | src/underbar.js:280-289 | keys `obj` already owns keep their values |
| Objects.DefaultsAddsOnlySupplied | src/underbar.js:280-289 | a key neither owned nor supplied stays absent |
| Objects.DefaultsFirstSourceWins | src/underbar.js:280-289 | a missing key gets the value from the first source that supplies it |
| Objects.MergeExamples | src/underbar.js:269-289 | `extend({a: 1}, {a: 2, b: 3})` is `{a: 2, b: 3}` and `defaults` on the same arguments is `{a: 1, b: 3}` |
| Decorators.Once.Call | src/underbar.js:302-321 | before the first successful call the wrapped function is invoked and its success cached; after it the cached result is returned without invoking |
| Decorators.OnceReplies | src/underbar.js:302-321 | one reply for each call |
| Decorators.OnceRepliesCached | src/underbar.js:312-319 | once a result is cached, every call returns it |
| Decorators.OnceRepliesRepeat | src/underbar.js:302-321 | every call after the first successful one returns that call's result |
| Decorators.OnceRepliesInvoke | src/underbar.js:312-316 | until a call succeeds, each call returns what the wrapped function returns, so a throw is retried |
| Decorators.OnceCalls | src/underbar.js:302-321 | a run of calls on a fresh decorator returns the specified replies, and the wrapped function is invoked on a prefix of the calls in which only the last invocation may succeed |
| Decorators.Memoize.Call | src/underbar.js:331-348 | a key in the table is answered from it without invoking; otherwise the function is invoked and a success is stored under the key |
| Decorators.MemoReplies | src/underbar.js:331-348 | one reply for each call |
| Decorators.MemoRepliesCached | src/underbar.js:342-346 | a call whose key is in the table is answered from the table |
| Decorators.MemoRepliesRepeat | src/underbar.js:331-348 | a later call with the key of an earlier successful call returns the same result |
| Decorators.MemoCallStep | src/underbar.js:334-347 | a call answered as the memoized closure answers it extends a run's replies by the next specified reply |
| Decorators.MemoCalls | src/underbar.js:331-348 | a run of calls on a fresh memoizer returns the specified replies |
| Sorting.Replaces | src/underbar.js:437-445 | the callback's test, `undefined` both sides or JavaScript `<`, takes the new element exactly when it strictly precedes, with undefined criteria last |
| Sorting.SmallestIndex | src/underbar.js:435-446 | the seedless reduce of a pass finds the earliest element with the smallest criterion |
| Sorting.TakeSmallestKeepsOrder | src/underbar.js:447-448 | moving the earliest smallest element to the output keeps the order of the items that share a criterion |
| Sorting.TakeSmallest | src/underbar.js:434-449 | one pass keeps the loop's invariants: the output is ordered and precedes the rest, nothing is lost, and equal criteria keep their order |
| Sorting.SortBy | src/underbar.js:425-452 | the output is a permutation of the values, ordered by criterion with undefined last, and stable among equal criteria |
| Arrays.At | src/underbar.js:465 | array access is defined exactly below the length |
| Arrays.Zip | src/underbar.js:459-471 | one tuple per element of the first array; tuple `i` is `first[i]` followed by element `i` of each other array, undefined where it is too short |
| Arrays.Holds | src/underbar.js:497-499 | the callback is true iff the array contains the item |
| Arrays.InAll | src/underbar.js:496-499 | an item passes iff every other array contains it |
| Arrays.Intersection | src/underbar.js:491-506 | the items of the first array in every other array, in order with repetitions; the first array itself when there are no others |
| Arrays.InNone | src/underbar.js:515-517 | an item passes iff no other array contains it |
| Arrays.Difference | src/underbar.js:510-524 | the items of the first array in no other array, in order with repetitions |
| Arrays.IntersectionDifferencePartition | src/underbar.js:491-524 | against one other array, intersection and difference split the first array by length and by multiset |
| Flattening.Concat | src/underbar.js:479 | `acc.concat(cv)` keeps the leaves, in order, and removes one array node when `cv` is an array |
| Flattening.UnnestKeepsLeaves | src/underbar.js:480-483 | the `while` loop keeps the leaves in order and leaves no array at the end |
| Flattening.UnnestPop | src/underbar.js:480-483 | one round of the loop replaces a trailing array by its elements |
| Flattening.UnnestStep | src/underbar.js:480-483 | one round of the loop keeps the loop's outcome and shrinks the accumulator, so the loop ends |
| Flattening.Flatten | src/underbar.js:477-487 | the reduce with its inner loop computes the fold of the callback from `[]` |
| Flattening.FoldFlattenKeepsLeaves | src/underbar.js:478-486 | the fold of the callback keeps all leaves in order and never ends in an array |
| Flattening.FlattenKeepsLeaves | src/underbar.js:477-487 | the result of `flatten` holds the input's leaves in order and does not end in an array |
| Flattening.FlattenExample | src/underbar.js:477-487 | `flatten([1, [2], [3, [[[4]]]]])` is `[1, 2, 3, 4]` |
| Flattening.FlattenLeavesInnerArray | src/underbar.js:480-483 | `flatten([[[1], 2]])` is `[[1], 2]`, which is not one-dimensional |
| Flattening.FlattenDeep | src/underbar.js:473-476 | the intended flattening holds only non-array values, the input's leaves in order |
| Flattening.FlattenDeepExample | src/underbar.js:473-476 | the intended flattening of `[[[1], 2]]` is `[1, 2]` |

## Left out

- `delay` and `throttle` (src/underbar.js:356-365, 531-590) are not modelled. Their behaviour is `setTimeout` scheduling, and time is outside the model.
- `shuffle` (src/underbar.js:378-395) is not modelled. It depends on `Math.random`, and its `itemToAdd !== undefined` guard never ends on an array that contains `undefined`.
- `invoke` (src/underbar.js:408-419) is not modelled. It looks up and applies methods on arbitrary objects dynamically.
- Decorators.Memoize.Call uses an abstract `serialize: A -> K` for the cache key. The source's exact stringification of the arguments (`arr${...}` and `toString`) is not modelled, so distinct arguments with equal strings are not shown to collide.
- `this` forwarding through `apply` in `once` and `memoize` is not modelled, and neither is the `window._` bootstrap.
- Inherited enumerable properties, which `for...in` also visits, are not modelled: an object is its own properties in a given order.
- JavaScript `===` and `<` on values of mixed types are not modelled. Elements are of a Dafny type with equality, and `sortBy` criteria are `Option<int>`.
- The third argument `each` passes to its callback, the collection itself, is not modelled. No callback in the library uses it.
- Sorting.SortBy takes only criterion functions. The string shorthand, which sorts by a property of that name, is not modelled.
- Folds.Every and Folds.Some take a test that returns a boolean. The omitted iterator, which falls back to `identity` and the truthiness of the elements, is not modelled.
- Exceptions thrown by `each`, `map`, `filter` and the other traversal callbacks are not modelled: those callbacks are total. Only the functions wrapped by `once` and `memoize` may throw, as a `Failure`.
- Selection.Uniq takes its projection as a parameter. The fallback `iterator || _.identity` is modelled by passing `Selection.Identity`, as in Selection.UniqByIdentity and Selection.UniqExample. A supplied iterator that is falsy but not `undefined` is not modelled.
- Arrays.Zip and Arrays.Intersection take the first array and the other arguments as two parameters. JavaScript's variadic `arguments` object is not modelled.
- Objects.Extend and Objects.Defaults take the sources as sequences of `(name, value)` pairs. An object passed as its own source, which aliases source and target, is not modelled.

## Findings

| source | as written | input that shows it | evidently intended | confidence | as-written member | corrected member |
|---|---|---|---|---|---|---|
| src/underbar.js:173-191 | `collWithNoFirstKey` is declared with `const` inside the `else` block. The test at line 184 therefore always sees it undefined, and a seedless reduce folds the whole object after its first value already seeded the accumulator. | `reduce({a: 5}, (t, n) => t + n * n)` gives 30 | the properties after the first are folded, giving 5, as the comment at lines 148-156 says: without a seed, the first element is never passed to the iterator | not executed | Reduction.SeedlessObjectRevisitsFirst | Reduction.ReduceIntendedSingleton |
| src/underbar.js:477-487 | the `while` loop only unnests an array that ends up at the end of the accumulator | `flatten([[[1], 2]])` gives `[[1], 2]` | a one-dimensional array of all the leaves, `[1, 2]`, as the comment at lines 473-476 says | not executed | Flattening.FlattenLeavesInnerArray | Flattening.FlattenDeep |
