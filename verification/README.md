# Range-sum caching and splay-tree memoisation, in Dafny

This project models two small caching engines and the code that uses them.

- **An LRU cache with predicate invalidation**, and a range-sum service built
  on it (`task_1.py`).
  - The cache stores `(L, R) -> sum(array[L..R])` in an ordered dictionary.
    Dictionary order is recency order: the front entry is the least recently
    used and the back entry the most recently used.
  - `get` refreshes recency. `put` inserts or overwrites, then evicts the front
    entry when the cache is over capacity. `invalidate` drops every key that
    satisfies a predicate.
  - The service answers inclusive range sums through the cache. A point write
    invalidates every cached range that covers the written index.
- **A splay tree** used as the memo table of a recursive Fibonacci function,
  next to the plain iterative Fibonacci loop (`task_2.py`).

Everything is functional. The ordered dictionary is a duplicate-free sequence
of `Entry(key, value)` values (module `LruCache`). Arrays are `seq<int>`
(module `RangeSum`). The tree is an immutable
`datatype Tree = Leaf | Node(left, key, value, right)` (module `SplayTree`).
Each operation that mutates the cache, the array or the tree's root becomes a
function that returns the new value. The memoised Fibonacci function threads
its tree through the calls (module `Fibonacci`). `None` results become
`Option` values (module `Wrappers`).

The contracts are stated against these reference definitions:

- `Sum` (a recursive sum from the front) for the range queries;
- the in-order pair sequence `InOrder` and key set `Keys` for the tree;
- the recursive `Fib` for both Fibonacci functions;
- the `Consistent` predicate for the cache: every cached `(L, R)` is a valid
  range of the current array and holds its sum.

The splay step is modelled as written, case for case:

- zig-zig splays the grandchild, then rotates at the root;
- zig-zag splays the grandchild and lifts it over the child only when it is
  non-empty;
- a final rotation happens only when the child on the search side exists.

On a miss, the proved statement about the node left at the root is that it is
an in-order neighbour of the key: no stored key lies strictly between the two.
This is what makes the split in `insert` produce a binary search tree.

Two kinds of input are never validated by the code.

- **Capacity.** The cache constructor stores any capacity it is given, and so
  does the model. With capacity 0, a `put` evicts the entry it has just
  stored. The capacity invariant is therefore proved for `1 <= capacity`
  (`Valid`).
- **Bounds.** Range bounds and array indices are never checked.
  - A range query slices the array, and Python slicing truncates out-of-range
    bounds and wraps negative ones.
  - A point write at an index at or beyond the array's length raises an
    index error. It does so before the cache is touched, so the cache stays
    as it was. An index in `[-len, 0)` wraps to the end of the array; any
    index below `-len` raises the same index error.
  - The model states `0 <= L <= R < |a|` and `0 <= index < |a|` as
    preconditions. It therefore covers neither the truncation, the
    wrap-around nor the index error.

## Model

| member | source | states |
|---|---|---|
| LruCache.New | task_1.py:32-34 | The constructor gives an empty cache of the given capacity, 1000 by default. The capacity is not checked: the new cache is valid (positive capacity, count within it, distinct keys) exactly when the capacity is at least 1. |
| LruCache.Get | task_1.py:36-46 | A miss returns None and leaves the cache exactly as it was. A hit on the entry at position i returns its stored value and moves it to the back: the entries become `es[..i] + es[i+1..] + [es[i]]`, so the others keep their values and relative order. Capacity, entry count, entry set and distinct keys are kept. |
| LruCache.Put | task_1.py:48-56 | The put entry `Entry(k, v)` ends up most recently used (given capacity >= 1). Every other entry was already in the cache. Keys stay distinct. A cache within capacity stays within capacity. |
| LruCache.MoveToEnd | task_1.py:53-54 | Deleting k and appending `Entry(k, v)` yields a duplicate-free sequence ending in `Entry(k, v)`. For a fresh key it is the old sequence plus the new entry. For a key at position i it is the old sequence without position i, plus the new entry. |
| LruCache.PutOverwrites | task_1.py:53-56 | Putting a key already at position i of a cache within capacity gives `es[..i] + es[i+1..] + [Entry(k, v)]`: the value is overwritten, the key moves to the end, and nothing is evicted. |
| LruCache.PutFreshAppends | task_1.py:53-56 | Putting a fresh key into a cache with room appends it and evicts nothing. |
| LruCache.EvictFront | task_1.py:53-56 | Putting a fresh key into a full cache evicts exactly the front (least recently used) entry: the result is `es[1..] + [e]`. |
| LruCache.GetAfterPut | task_1.py:42-56 | Right after `put(k, v)`, `get(k)` returns `v`. |
| LruCache.PutAllStaysValid | task_1.py:48-56 | Capacity invariant: after any run of puts, a valid cache (capacity >= 1, count <= capacity, distinct keys) is still valid. |
| LruCache.FillEmpty | task_1.py:53-56 | Up to capacity distinct puts into an empty cache leave exactly those entries, in put order. |
| LruCache.EvictsLeastRecentFirst | task_1.py:53-56 | Eviction order: with capacity C, putting C + 1 distinct keys into an empty cache leaves exactly the last C, so the first key put is the one evicted. |
| LruCache.GetHitIsMostRecent | task_1.py:44-46 | After a hit on k, k is the most recently used key and the key set is unchanged. |
| LruCache.MostRecentSurvivesFreshPut | task_1.py:53-56 | With capacity at least 2, the most recently used entry survives the put of a fresh key, whether the put appends or evicts. |
| LruCache.GetProtectsFromEviction | task_1.py:44-56 | With capacity at least 2, a key just read survives the next put of a fresh key. This holds even in a full cache and even if the key was least recently used before the read. |
| LruCache.PutProtectsFromEviction | task_1.py:53-56 | With capacity at least 2, a key just put survives the next put of a different fresh key. |
| LruCache.Retain | task_1.py:63-65 | Filtering keeps exactly the entries whose key passes the test, and is never longer than its input. |
| LruCache.RetainIsSubsequence | task_1.py:63-65 | The surviving entries keep their relative order. |
| LruCache.RetainIsDistinct | task_1.py:63-65 | Filtering never creates a duplicate key. |
| LruCache.RetainDropsOne | task_1.py:63-65 | Filtering out exactly position i yields the sequence without position i. |
| LruCache.Invalidate | task_1.py:58-65 | After `invalidate(p)`, an entry survives exactly when it was cached and its key fails p, so exactly the keys satisfying p are gone. Survivors keep their values and relative order. Distinct keys and capacity are kept, and the cache never grows. |
| RangeSum.RangeSumNoCache | task_1.py:7-11 | The left-to-right scan returns `Sum(a[L..R+1])`, the inclusive range sum. |
| RangeSum.UpdateNoCache | task_1.py:14-18 | The write sets position index to value. Every other position and the length are unchanged. |
| RangeSum.RangeSumWithCache | task_1.py:69-83 | Under the consistency invariant, the cached query returns exactly what the uncached one does (`Sum(a[L..R+1])`), whether it hits or misses. Consistency, distinct keys, capacity and the capacity bound are kept. The cache changes exactly as a `get` of `(L, R)` changes it on a hit, and exactly as a `put` of the computed sum on a miss. So `(L, R)` ends up most recently used, and every other entry stays unless the put evicts the front. |
| RangeSum.CachedSumIsExact | task_1.py:74-78 | A hit in a consistent cache returns the exact range sum. |
| RangeSum.StoreKeepsConsistent | task_1.py:80-83 | Storing a freshly computed sum keeps the cache consistent. |
| RangeSum.UpdateWithCache | task_1.py:86-99 | The array changes exactly as in `UpdateNoCache`. The new cache is a subsequence of the old one: entries are only removed, never added or reordered. No surviving cached range contains index, and every range that does not contain it survives. A cache consistent with the old array is consistent with the new one. |
| SplayTree.RightRotate | task_2.py:45-50 | Right rotation keeps the in-order pair sequence and key set. The old left child becomes the root, with the old root as its right child. |
| SplayTree.LeftRotate | task_2.py:52-57 | Left rotation keeps the in-order pair sequence and key set. The old right child becomes the root, with the old root as its left child. |
| SplayTree.RotationsAreInverse | task_2.py:45-57 | Each rotation undoes the other. |
| SplayTree.Splay | task_2.py:59-98 | Splaying keeps the in-order pair sequence and key set. It returns an empty tree exactly when given one. |
| SplayTree.SplayPreservesBst | task_2.py:59-98 | Splaying a binary search tree gives a binary search tree. |
| SplayTree.SplayRoot | task_2.py:59-98 | On a non-empty binary search tree, splay brings a present key to the root. For an absent key, the new root is an in-order neighbour of it: no stored key lies strictly between the two. |
| SplayTree.ZigLeft | task_2.py:69-82 | Search key below the root with no left child, or equal to the left child's key: the same root facts hold. |
| SplayTree.ZigZigLeft | task_2.py:69-82 | The same root facts for the left zig-zig case. |
| SplayTree.ZigZagLeft | task_2.py:69-82 | The same root facts for the left zig-zag case. |
| SplayTree.ZigRight | task_2.py:84-98 | The mirror of ZigLeft. |
| SplayTree.ZigZigRight | task_2.py:84-98 | The same root facts for the right zig-zig case. |
| SplayTree.ZigZagRight | task_2.py:84-98 | The same root facts for the right zig-zag case. |
| SplayTree.SplayFacts | task_2.py:59-98 | Splaying a non-empty binary search tree gives a non-empty binary search tree with the facts above about its root. |
| SplayTree.BstIffAscending | task_2.py:36-40 | The recursive binary-search-tree ordering holds exactly when the in-order keys strictly increase. |
| SplayTree.Search | task_2.py:100-105 | Search keeps the pair sequence and the tree's ordering. It returns a value exactly when the key is stored, and then the key is at the root and the pair `(key, value)` is stored. |
| SplayTree.OverwriteRoot | task_2.py:116-119 | Setting the root's value changes the value of that key only. |
| SplayTree.SplitAt | task_2.py:121-133 | Splitting at a missing in-order neighbour gives a binary search tree rooted at `(key, value)` with one more pair. It holds exactly the old pairs plus the new one. |
| SplayTree.Insert | task_2.py:107-133 | Insert gives a binary search tree rooted at `(key, value)`, whose key set is the old one plus key. For a present key, only that key's value changes: same length, same key sequence. For an absent key, exactly one pair is added. |
| SplayTree.InsertTwice | task_2.py:107-119 | Inserting the same pair again leaves the pair sequence unchanged. |
| Fibonacci.FibIterative | task_2.py:9-16 | The iterative loop returns `Fib(n)`, using the invariant that (a, b) hold consecutive Fibonacci numbers. |
| Fibonacci.ResetSplayTree | task_2.py:158-160 | A fresh tree is an empty binary search tree that satisfies the memo invariant. |
| Fibonacci.FibSplay | task_2.py:137-155 | Given a tree in which every stored `(k, v)` has `v = Fib(k)`, the memoised function returns `Fib(n)`. It keeps the ordering and the memo invariant, loses no stored key, and leaves n stored. |

## Left out

- Both `main` functions: random workloads, wall-clock timing, `timeit`, console output, plotting and the recursion-limit setting. They are benchmarking code, not logic.
- `functools.lru_cache` around the iterative Fibonacci function, and `reset_lru_cache`. This is library memoisation whose code is not part of this model; only the loop body is modelled (`FibIterative`).
- `OrderedDict` internals and constant-time costs, and amortised splay-tree bounds. These are performance claims, not behaviour.
- Validation of capacity, indices and range bounds. The code performs none (see above). Out-of-range and negative Python indices are excluded by preconditions rather than modelled.
- The Python ambiguity where a stored None looks like a miss. Results are `Option` values, and every stored value is an int.
- The benchmark's use of one shared cache and array across a whole workload. This is covered by the per-call invariants that `RangeSumWithCache` and `UpdateWithCache` keep; the query loop itself is not modelled.
- SplayTree.SplayRoot: does not state which node a splay on a missing key leaves at the root. It states only that this node is an in-order neighbour of the key, because that is what insertion relies on.
- Object identity and aliasing of tree nodes. The Python rotations mutate nodes in place, and here they build new values.
