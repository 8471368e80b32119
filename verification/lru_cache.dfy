/** A fixed-capacity least-recently-used cache with predicate invalidation.

    The cache is an ordered dictionary in the modelled code. Here it is the
    sequence of its (key, value) entries in dictionary order: the entry at the
    front is the least recently used one (the eviction victim) and the entry
    at the back is the most recently used one. Keys are pairwise distinct. */
module LruCache {
  import opened Wrappers

  datatype Entry<K, V> = Entry(key: K, value: V)

  datatype Cache<K, V> = Cache(capacity: int, entries: seq<Entry<K, V>>)

  /** No key occurs twice (an ordered dictionary guarantees this). */
  predicate DistinctKeys<K(==,!new), V(!new)>(es: seq<Entry<K, V>>)
  {
    forall i, j | 0 <= i < j < |es| :: es[i].key != es[j].key
  }

  function KeySet<K(!new), V(!new)>(es: seq<Entry<K, V>>): set<K>
  {
    set i | 0 <= i < |es| :: es[i].key
  }

  /** The state every reachable cache is in: a positive capacity that the
      number of entries never exceeds, and no repeated key. */
  predicate Valid<K(==,!new), V(!new)>(c: Cache<K, V>)
  {
    1 <= c.capacity && |c.entries| <= c.capacity && DistinctKeys(c.entries)
  }

  /** `a` is obtained from `b` by deleting some elements: every element of `a`
      occurs in `b`, in the same relative order. */
  predicate IsSubsequence<T(==)>(a: seq<T>, b: seq<T>)
    decreases |b|
  {
    |a| == 0 || (|b| > 0 && if a[0] == b[0] then IsSubsequence(a[1..], b[1..]) else IsSubsequence(a, b[1..]))
  }

  /** The cache as the constructor leaves it: empty, with the given capacity
      (1000 when none is given). The capacity is not checked; the cache starts
      out valid exactly when the capacity is positive. */
  function New<K(!new), V(!new)>(capacity: int := 1000): (r: Cache<K, V>)
    ensures r.entries == [] && r.capacity == capacity
    ensures Valid(r) <==> 1 <= capacity
  {
    Cache(capacity, [])
  }

  /** Position of the entry holding key `k`, if there is one. */
  function Find<K(==,!new), V(!new)>(es: seq<Entry<K, V>>, k: K): (r: Option<nat>)
    ensures r.Some? ==> r.value < |es| && es[r.value].key == k
    ensures r.None? <==> k !in KeySet(es)
  {
    if |es| == 0 then None
    else if es[0].key == k then Some(0)
    else match Find(es[1..], k)
      case None => None
      case Some(j) => Some(j + 1)
  }

  /** The entries whose key satisfies `keep`, in their original order. */
  function Retain<K(==,!new), V(!new)>(es: seq<Entry<K, V>>, keep: K -> bool): (r: seq<Entry<K, V>>)
    ensures forall e :: e in r <==> e in es && keep(e.key)
    ensures |r| <= |es|
  {
    if |es| == 0 then []
    else
      var rest := Retain(es[1..], keep);
      if keep(es[0].key) then [es[0]] + rest else rest
  }

  /** Filtering keeps the survivors' relative order. */
  lemma {:induction false} RetainIsSubsequence<K(!new), V(!new)>(es: seq<Entry<K, V>>, keep: K -> bool)
    ensures IsSubsequence(Retain(es, keep), es)
  {
    if |es| > 0 {
      RetainIsSubsequence(es[1..], keep);
      var rest := Retain(es[1..], keep);
      if keep(es[0].key) {
        assert ([es[0]] + rest)[1..] == rest;
      } else if |rest| > 0 {
        assert rest[0] in rest && keep(rest[0].key);
      }
    }
  }

  /** Filtering a duplicate-free sequence leaves it duplicate-free. */
  lemma {:induction false} RetainIsDistinct<K(!new), V(!new)>(es: seq<Entry<K, V>>, keep: K -> bool)
    ensures DistinctKeys(es) ==> DistinctKeys(Retain(es, keep))
  {
    if DistinctKeys(es) && |es| > 0 {
      var tail := es[1..];
      assert DistinctKeys(tail) by {
        forall i, j | 0 <= i < j < |tail|
          ensures tail[i].key != tail[j].key
        {
          assert tail[i] == es[i + 1] && tail[j] == es[j + 1];
        }
      }
      RetainIsDistinct(tail, keep);
      var rest := Retain(tail, keep);
      if keep(es[0].key) {
        var r := [es[0]] + rest;
        forall i, j | 0 <= i < j < |r|
          ensures r[i].key != r[j].key
        {
          if i == 0 {
            assert r[j] == rest[j - 1] && r[j] in tail;
            var m :| 0 <= m < |tail| && tail[m] == r[j];
            assert es[m + 1] == r[j];
          } else {
            assert r[i] == rest[i - 1] && r[j] == rest[j - 1];
          }
        }
      }
    }
  }

  /** Deleting the entry for `k` (if any). */
  function RemoveKey<K(==,!new), V(!new)>(es: seq<Entry<K, V>>, k: K): seq<Entry<K, V>>
  {
    Retain(es, x => x != k)
  }

  lemma {:induction false} RetainKeepsAll<K(!new), V(!new)>(es: seq<Entry<K, V>>, keep: K -> bool)
    requires forall i | 0 <= i < |es| :: keep(es[i].key)
    ensures Retain(es, keep) == es
  {
    if |es| > 0 {
      RetainKeepsAll(es[1..], keep);
      assert [es[0]] + es[1..] == es;
    }
  }

  /** One step of the filter, as a lemma so callers need not unfold it. */
  lemma RetainCons<K(!new), V(!new)>(es: seq<Entry<K, V>>, keep: K -> bool)
    requires |es| > 0
    ensures Retain(es, keep) == (if keep(es[0].key) then [es[0]] else []) + Retain(es[1..], keep)
  {
  }

  lemma SpliceCons<T>(s: seq<T>, i: nat)
    requires 1 <= i < |s|
    ensures [s[0]] + (s[1..][..i - 1] + s[1..][i..]) == s[..i] + s[i + 1..]
  {
  }

  /** Filtering out exactly position `i` removes that position and keeps the
      rest in order. */
  lemma {:induction false} RetainDropsOne<K(!new), V(!new)>(es: seq<Entry<K, V>>, keep: K -> bool, i: nat)
    requires i < |es|
    requires forall j | 0 <= j < |es| :: keep(es[j].key) <==> j != i
    ensures Retain(es, keep) == es[..i] + es[i + 1..]
  {
    var tail := es[1..];
    RetainCons(es, keep);
    if i == 0 {
      assert forall j | 0 <= j < |tail| :: tail[j] == es[j + 1];
      RetainKeepsAll(tail, keep);
    } else {
      assert keep(es[0].key);
      assert forall j | 0 <= j < |tail| :: tail[j] == es[j + 1];
      RetainDropsOne(tail, keep, i - 1);
      SpliceCons(es, i);
    }
  }

  lemma RemoveKeyAt<K(!new), V(!new)>(es: seq<Entry<K, V>>, k: K, i: nat)
    requires DistinctKeys(es)
    requires i < |es| && es[i].key == k
    ensures RemoveKey(es, k) == es[..i] + es[i + 1..]
  {
    RetainDropsOne(es, x => x != k, i);
  }

  lemma RemoveKeyAbsent<K(!new), V(!new)>(es: seq<Entry<K, V>>, k: K)
    requires k !in KeySet(es)
    ensures RemoveKey(es, k) == es
  {
    assert forall i | 0 <= i < |es| :: es[i].key in KeySet(es);
    RetainKeepsAll(es, x => x != k);
  }

  lemma RemoveKeyShape<K(!new), V(!new)>(es: seq<Entry<K, V>>, k: K)
    requires DistinctKeys(es)
    ensures k !in KeySet(es) ==> RemoveKey(es, k) == es
    ensures forall i | 0 <= i < |es| && es[i].key == k :: RemoveKey(es, k) == es[..i] + es[i + 1..]
  {
    if k !in KeySet(es) {
      RemoveKeyAbsent(es, k);
    }
    forall i | 0 <= i < |es| && es[i].key == k
      ensures RemoveKey(es, k) == es[..i] + es[i + 1..]
    {
      RemoveKeyAt(es, k, i);
    }
  }

  /** What deleting `k` and appending `Entry(k, v)` does to a duplicate-free
      sequence, before any eviction. */
  lemma MoveToEnd<K(!new), V(!new)>(es: seq<Entry<K, V>>, k: K, v: V)
    requires DistinctKeys(es)
    ensures var m := RemoveKey(es, k) + [Entry(k, v)];
      && DistinctKeys(m)
      && m[|m| - 1] == Entry(k, v)
      && (forall e | e in m :: e in es || e == Entry(k, v))
      && (k !in KeySet(es) ==> m == es + [Entry(k, v)])
      && (forall i | 0 <= i < |es| && es[i].key == k :: m == es[..i] + es[i + 1..] + [Entry(k, v)])
  {
    RemoveKeyShape(es, k);
    RetainIsDistinct(es, x => x != k);
    var rest := RemoveKey(es, k);
    var m := rest + [Entry(k, v)];
    assert forall j | 0 <= j < |rest| :: rest[j] in rest && rest[j].key != k;
    assert forall i, j | 0 <= i < j < |m| :: m[i].key != m[j].key by {
      forall i, j | 0 <= i < j < |m|
        ensures m[i].key != m[j].key
      {
        if j == |rest| {
          assert m[i] == rest[i];
        } else {
          assert m[i] == rest[i] && m[j] == rest[j];
        }
      }
    }
  }

  /** Lookup. A miss returns None and changes nothing; a hit returns the stored
      value and moves that entry to the most-recently-used end, every other
      entry keeping its value and relative order. */
  function Get<K(==,!new), V(!new)>(c: Cache<K, V>, k: K): (r: (Cache<K, V>, Option<V>))
    requires DistinctKeys(c.entries)
    ensures k !in KeySet(c.entries) ==> r == (c, None)
    ensures forall i | 0 <= i < |c.entries| && c.entries[i].key == k ::
              && r.1 == Some(c.entries[i].value)
              && r.0.entries == c.entries[..i] + c.entries[i + 1..] + [c.entries[i]]
    ensures r.1.Some? ==> Entry(k, r.1.value) in c.entries
    ensures r.0.capacity == c.capacity
    ensures forall e :: e in r.0.entries <==> e in c.entries
    ensures |r.0.entries| == |c.entries|
    ensures DistinctKeys(r.0.entries)
  {
    match Find(c.entries, k)
    case None => (c, None)
    case Some(i) =>
      RemoveKeyAt(c.entries, k, i);
      MoveToEnd(c.entries, k, c.entries[i].value);
      var moved := RemoveKey(c.entries, k) + [c.entries[i]];
      (c.(entries := moved), Some(c.entries[i].value))
  }

  /** Insert or overwrite the entry for `k`, make it the most recently used,
      and evict the front entry if the cache has grown beyond its capacity. */
  function Put<K(==,!new), V(!new)>(c: Cache<K, V>, k: K, v: V): (r: Cache<K, V>)
    requires DistinctKeys(c.entries)
    ensures r.capacity == c.capacity
    ensures DistinctKeys(r.entries)
    ensures forall e | e in r.entries :: e in c.entries || e == Entry(k, v)
    ensures 1 <= c.capacity ==> |r.entries| > 0 && r.entries[|r.entries| - 1] == Entry(k, v)
    ensures |c.entries| <= c.capacity ==> |r.entries| <= c.capacity
  {
    var moved := RemoveKey(c.entries, k) + [Entry(k, v)];
    MoveToEnd(c.entries, k, v);
    if |moved| > c.capacity then c.(entries := moved[1..]) else c.(entries := moved)
  }

  /** Putting a key that is already cached overwrites its value and moves
      it to the most-recently-used end; nothing is evicted. */
  lemma PutOverwrites<K(!new), V(!new)>(c: Cache<K, V>, k: K, v: V, i: nat)
    requires DistinctKeys(c.entries) && |c.entries| <= c.capacity
    requires i < |c.entries| && c.entries[i].key == k
    ensures Put(c, k, v).entries == c.entries[..i] + c.entries[i + 1..] + [Entry(k, v)]
  {
    MoveToEnd(c.entries, k, v);
  }

  /** A put of a fresh key into a cache with room appends it. */
  lemma PutFreshAppends<K(!new), V(!new)>(c: Cache<K, V>, e: Entry<K, V>)
    requires DistinctKeys(c.entries) && e.key !in KeySet(c.entries)
    requires |c.entries| < c.capacity
    ensures Put(c, e.key, e.value).entries == c.entries + [e]
  {
    MoveToEnd(c.entries, e.key, e.value);
  }

  /** A put of a fresh key into a full cache evicts the front entry. */
  lemma EvictFront<K(!new), V(!new)>(c: Cache<K, V>, e: Entry<K, V>)
    requires DistinctKeys(c.entries) && e.key !in KeySet(c.entries)
    requires 1 <= |c.entries| == c.capacity
    ensures Put(c, e.key, e.value).entries == c.entries[1..] + [e]
  {
    MoveToEnd(c.entries, e.key, e.value);
  }

  /** Remove every entry whose key satisfies `p`. */
  function Invalidate<K(==,!new), V(!new)>(c: Cache<K, V>, p: K -> bool): (r: Cache<K, V>)
    ensures r.capacity == c.capacity
    ensures forall e :: e in r.entries <==> e in c.entries && !p(e.key)
    ensures forall k :: k in KeySet(r.entries) <==> k in KeySet(c.entries) && !p(k)
    ensures IsSubsequence(r.entries, c.entries)
    ensures DistinctKeys(c.entries) ==> DistinctKeys(r.entries)
    ensures |r.entries| <= |c.entries|
  {
    var kept := Retain(c.entries, k => !p(k));
    RetainIsSubsequence(c.entries, k => !p(k));
    RetainIsDistinct(c.entries, k => !p(k));
    assert forall i | 0 <= i < |kept| :: kept[i] in c.entries;
    assert forall i | 0 <= i < |c.entries| && !p(c.entries[i].key) :: c.entries[i] in kept;
    c.(entries := kept)
  }

  /** A run of puts, issued one after another in sequence order. */
  function PutAll<K(==,!new), V(!new)>(c: Cache<K, V>, kvs: seq<Entry<K, V>>): (r: Cache<K, V>)
    requires DistinctKeys(c.entries)
    ensures r.capacity == c.capacity
    ensures DistinctKeys(r.entries)
  {
    if |kvs| == 0 then c
    else
      var last := kvs[|kvs| - 1];
      Put(PutAll(c, kvs[..|kvs| - 1]), last.key, last.value)
  }

  /** Right after `Put(c, k, v)`, looking `k` up yields `v`. */
  lemma GetAfterPut<K(!new), V(!new)>(c: Cache<K, V>, k: K, v: V)
    requires DistinctKeys(c.entries) && 1 <= c.capacity
    ensures Get(Put(c, k, v), k).1 == Some(v)
  {
    var es := Put(c, k, v).entries;
    assert es[|es| - 1].key == k;
  }

  /** Capacity invariant: no run of puts takes a valid cache beyond its
      capacity or gives it a duplicate key. */
  lemma {:induction false} PutAllStaysValid<K(!new), V(!new)>(c: Cache<K, V>, kvs: seq<Entry<K, V>>)
    requires Valid(c)
    ensures Valid(PutAll(c, kvs))
  {
    if |kvs| > 0 {
      PutAllStaysValid(c, kvs[..|kvs| - 1]);
    }
  }

  lemma DistinctKeysPrefix<K(!new), V(!new)>(es: seq<Entry<K, V>>, m: nat)
    requires DistinctKeys(es) && m <= |es|
    ensures DistinctKeys(es[..m])
  {
    forall i, j | 0 <= i < j < m
      ensures es[..m][i].key != es[..m][j].key
    {
      assert es[..m][i] == es[i] && es[..m][j] == es[j];
    }
  }

  lemma LastKeyFresh<K(!new), V(!new)>(es: seq<Entry<K, V>>)
    requires DistinctKeys(es) && |es| > 0
    ensures es[|es| - 1].key !in KeySet(es[..|es| - 1])
  {
    var n := |es| - 1;
    forall i | 0 <= i < n
      ensures es[..n][i].key != es[n].key
    {
      assert es[..n][i] == es[i];
    }
  }

  /** A sequence is its prefix followed by its last element. */
  lemma SplitLast<T>(s: seq<T>)
    requires 1 <= |s|
    ensures s == s[..|s| - 1] + [s[|s| - 1]]
  {
  }

  lemma DropFirstOfPrefix<T>(s: seq<T>)
    requires 2 <= |s|
    ensures s[..|s| - 1][1..] + [s[|s| - 1]] == s[1..]
  {
  }

  /** One more put at the end of a run is one more call to Put. */
  lemma PutAllSnoc<K(!new), V(!new)>(c: Cache<K, V>, kvs: seq<Entry<K, V>>, x: Entry<K, V>)
    requires DistinctKeys(c.entries)
    ensures PutAll(c, kvs + [x]) == Put(PutAll(c, kvs), x.key, x.value)
  {
    assert (kvs + [x])[..|kvs|] == kvs;
  }

  /** Filling an empty cache with distinct keys, no more than it holds,
      appends them in put order and evicts nothing. */
  lemma {:induction false} FillEmpty<K(!new), V(!new)>(capacity: int, kvs: seq<Entry<K, V>>)
    requires DistinctKeys(kvs) && |kvs| <= capacity
    ensures PutAll(New(capacity), kvs).entries == kvs
  {
    if |kvs| > 0 {
      var n := |kvs| - 1;
      SplitLast(kvs);
      DistinctKeysPrefix(kvs, n);
      FillEmpty(capacity, kvs[..n]);
      LastKeyFresh(kvs);
      PutFreshAppends(PutAll(New(capacity), kvs[..n]), kvs[n]);
    }
  }

  /** Eviction order: with capacity C, putting C + 1 distinct keys into an
      empty cache evicts exactly the first one. */
  lemma EvictsLeastRecentFirst<K(!new), V(!new)>(capacity: int, kvs: seq<Entry<K, V>>)
    requires 1 <= capacity && |kvs| == capacity + 1
    requires DistinctKeys(kvs)
    ensures PutAll(New(capacity), kvs).entries == kvs[1..]
  {
    SplitLast(kvs);
    var front := kvs[..capacity];
    var last := kvs[capacity];
    PutAllSnoc(New(capacity), front, last);
    DistinctKeysPrefix(kvs, capacity);
    FillEmpty(capacity, front);
    LastKeyFresh(kvs);
    EvictFront(PutAll(New(capacity), front), last);
    DropFirstOfPrefix(kvs);
  }

  /** A hit makes `k` the most recently used key and keeps the key set. */
  lemma GetHitIsMostRecent<K(!new), V(!new)>(c: Cache<K, V>, k: K)
    requires DistinctKeys(c.entries) && k in KeySet(c.entries)
    ensures var g := Get(c, k).0.entries;
      |g| == |c.entries| && g[|g| - 1].key == k && KeySet(g) == KeySet(c.entries)
  {
    var i :| 0 <= i < |c.entries| && c.entries[i].key == k;
    var g := Get(c, k).0.entries;
    assert g == c.entries[..i] + c.entries[i + 1..] + [c.entries[i]];
    forall x
      ensures x in KeySet(g) <==> x in KeySet(c.entries)
    {
      if x in KeySet(g) {
        var j :| 0 <= j < |g| && g[j].key == x;
        assert g[j] in c.entries;
      }
    }
  }

  /** The most recently used entry survives the put of a fresh key whenever
      the capacity is at least 2. */
  lemma MostRecentSurvivesFreshPut<K(!new), V(!new)>(g: Cache<K, V>, k2: K, v2: V)
    requires DistinctKeys(g.entries) && 2 <= g.capacity
    requires 1 <= |g.entries| <= g.capacity && k2 !in KeySet(g.entries)
    ensures g.entries[|g.entries| - 1] in Put(g, k2, v2).entries
  {
    var n := |g.entries|;
    var e := Entry(k2, v2);
    if n < g.capacity {
      PutFreshAppends(g, e);
      assert (g.entries + [e])[n - 1] == g.entries[n - 1];
    } else {
      EvictFront(g, e);
      assert (g.entries[1..] + [e])[n - 2] == g.entries[n - 1];
    }
  }

  /** Recency refresh by a read: a key just looked up is not the next eviction
      victim, even in a full cache and even if it was the least recently used. */
  lemma GetProtectsFromEviction<K(!new), V(!new)>(c: Cache<K, V>, k: K, k2: K, v2: V)
    requires Valid(c) && 2 <= c.capacity
    requires k in KeySet(c.entries) && k2 !in KeySet(c.entries)
    ensures k in KeySet(Put(Get(c, k).0, k2, v2).entries)
  {
    GetHitIsMostRecent(c, k);
    var g := Get(c, k).0;
    MostRecentSurvivesFreshPut(g, k2, v2);
  }

  /** Recency refresh by a write: a key just put is not the next eviction
      victim either. */
  lemma PutProtectsFromEviction<K(!new), V(!new)>(c: Cache<K, V>, k: K, v: V, k2: K, v2: V)
    requires Valid(c) && 2 <= c.capacity
    requires k2 != k && k2 !in KeySet(c.entries)
    ensures k in KeySet(Put(Put(c, k, v), k2, v2).entries)
  {
    var p := Put(c, k, v);
    assert k2 !in KeySet(p.entries) by {
      forall j | 0 <= j < |p.entries|
        ensures p.entries[j].key != k2
      {
        assert p.entries[j] in p.entries;
      }
    }
    MostRecentSurvivesFreshPut(p, k2, v2);
  }
}
