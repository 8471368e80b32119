/** Inclusive range sums over an integer array, with and without an LRU
    cache keyed by the range (L, R). Arrays are values here: an update returns
    the new array instead of writing into the caller's list. */
module RangeSum {
  import opened Wrappers
  import opened LruCache

  /** The sum of a sequence, defined from the front. */
  function Sum(s: seq<int>): int
  {
    if |s| == 0 then 0 else s[0] + Sum(s[1..])
  }

  /** The cache holds range sums keyed by (L, R). */
  type SumCache = Cache<(int, int), int>

  /** Consistency invariant tying a cache to the array it summarises: every
      cached (L, R) is a valid inclusive range of `a` and holds its sum. */
  predicate Consistent(a: seq<int>, c: SumCache)
  {
    forall e | e in c.entries :: HoldsSum(a, e)
  }

  /** A single entry names a valid inclusive range of `a` and holds its sum. */
  predicate HoldsSum(a: seq<int>, e: Entry<(int, int), int>)
  {
    0 <= e.key.0 <= e.key.1 < |a| && e.value == Sum(a[e.key.0..e.key.1 + 1])
  }

  /** Covers(index) is the invalidation predicate for a write at `index`:
      it holds of exactly the ranges that contain `index`. */
  function Covers(index: int): ((int, int)) -> bool
  {
    (key: (int, int)) => key.0 <= index <= key.1
  }

  /** Summing can be done by extending a prefix one element at a time. */
  lemma {:induction false} SumSnoc(s: seq<int>, x: int)
    ensures Sum(s + [x]) == Sum(s) + x
  {
    if |s| == 0 {
      assert [x][1..] == [];
    } else {
      assert (s + [x])[1..] == s[1..] + [x];
      SumSnoc(s[1..], x);
    }
  }

  /** The sum of a[L..R] inclusive, by a left-to-right scan. */
  method RangeSumNoCache(a: seq<int>, L: int, R: int) returns (s: int)
    requires 0 <= L <= R < |a|
    ensures s == Sum(a[L..R + 1])
  {
    s := 0;
    var i := L;
    while i <= R
      invariant L <= i <= R + 1
      invariant s == Sum(a[L..i])
    {
      assert a[L..i + 1] == a[L..i] + [a[i]];
      SumSnoc(a[L..i], a[i]);
      s := s + a[i];
      i := i + 1;
    }
  }

  /** Point write: position `index` gets `value`, every other position keeps
      its element, and the length is unchanged. */
  function UpdateNoCache(a: seq<int>, index: int, value: int): (r: seq<int>)
    requires 0 <= index < |a|
    ensures |r| == |a| && r[index] == value
    ensures forall j | 0 <= j < |a| && j != index :: r[j] == a[j]
  {
    a[index := value]
  }

  /** A range query that consults the cache first and stores the freshly
      computed sum on a miss. Under the consistency invariant it answers
      exactly as the uncached query does, keeps the invariant, and leaves
      (L, R) as the most recently used entry. */
  method RangeSumWithCache(a: seq<int>, L: int, R: int, c: SumCache) returns (s: int, c': SumCache)
    requires 0 <= L <= R < |a|
    requires DistinctKeys(c.entries) && Consistent(a, c)
    ensures s == Sum(a[L..R + 1])
    ensures DistinctKeys(c'.entries) && Consistent(a, c')
    ensures c'.capacity == c.capacity
    ensures |c.entries| <= c.capacity ==> |c'.entries| <= c.capacity
    ensures 1 <= c.capacity ==> |c'.entries| > 0 && c'.entries[|c'.entries| - 1] == Entry((L, R), s)
    ensures (L, R) in KeySet(c.entries) ==> c' == Get(c, (L, R)).0
    ensures (L, R) !in KeySet(c.entries) ==> c' == Put(c, (L, R), s)
  {
    var looked := Get(c, (L, R));
    if looked.1.Some? {
      s, c' := looked.1.value, looked.0;
      CachedSumIsExact(a, c, L, R, s);
      SubsetConsistent(a, c, c');
    } else {
      s := RangeSumNoCache(a, L, R);
      c' := Put(looked.0, (L, R), s);
      StoreKeepsConsistent(a, looked.0, L, R, s);
    }
  }

  /** A consistent cache that holds (L, R) holds its exact sum. */
  lemma CachedSumIsExact(a: seq<int>, c: SumCache, L: int, R: int, s: int)
    requires Consistent(a, c) && Entry((L, R), s) in c.entries
    ensures s == Sum(a[L..R + 1])
  {
    assert HoldsSum(a, Entry((L, R), s));
  }

  /** Entries drawn from a consistent cache form a consistent cache. */
  lemma SubsetConsistent(a: seq<int>, c: SumCache, c': SumCache)
    requires Consistent(a, c)
    requires forall e | e in c'.entries :: e in c.entries
    ensures Consistent(a, c')
  {
  }

  /** Storing the true sum of a valid range keeps a consistent cache
      consistent. */
  lemma StoreKeepsConsistent(a: seq<int>, c: SumCache, L: int, R: int, s: int)
    requires 0 <= L <= R < |a| && s == Sum(a[L..R + 1])
    requires DistinctKeys(c.entries) && Consistent(a, c)
    ensures Consistent(a, Put(c, (L, R), s))
  {
    var c' := Put(c, (L, R), s);
    forall e | e in c'.entries
      ensures HoldsSum(a, e)
    {
      assert e in c.entries || e == Entry((L, R), s);
    }
  }

  /** A point write that drops every cached range containing `index`. The
      array changes exactly as in the uncached write; no surviving key covers
      `index`; every other entry survives; consistency is restored. */
  function UpdateWithCache(a: seq<int>, index: int, value: int, c: SumCache): (r: (seq<int>, SumCache))
    requires 0 <= index < |a|
    ensures r.0 == UpdateNoCache(a, index, value)
    ensures forall e | e in r.1.entries :: !(e.key.0 <= index <= e.key.1)
    ensures forall e | e in c.entries && !(e.key.0 <= index <= e.key.1) :: e in r.1.entries
    ensures r.1.capacity == c.capacity && |r.1.entries| <= |c.entries|
    ensures IsSubsequence(r.1.entries, c.entries)
    ensures DistinctKeys(c.entries) ==> DistinctKeys(r.1.entries)
    ensures Consistent(a, c) ==> Consistent(r.0, r.1)
  {
    var a' := a[index := value];
    var c' := Invalidate(c, Covers(index));
    assert Consistent(a, c) ==> Consistent(a', c') by {
      if Consistent(a, c) {
        forall e | e in c'.entries
          ensures HoldsSum(a', e)
        {
          assert a'[e.key.0..e.key.1 + 1] == a[e.key.0..e.key.1 + 1];
        }
      }
    }
    (a', c')
  }
}
