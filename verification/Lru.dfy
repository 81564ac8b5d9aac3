/** Least-recently-used caches whose lookup and insertion are separate critical sections
    with the slow computation between them. */
module Lru {
  import opened Domain

  // ---------------------------------------------------------------- the abstract cache

  /** Cached entries and their keys, least recently used first. */
  datatype Cache<K, V> = Cache(entries: map<K, V>, order: seq<K>)

  function Without<K(==, !new)>(s: seq<K>, k: K): (r: seq<K>)
    ensures forall x :: x in r <==> x in s && x != k
    ensures |r| <= |s|
  {
    if s == [] then []
    else Without(s[..|s| - 1], k) + if s[|s| - 1] == k then [] else [s[|s| - 1]]
  }

  function Touch<K(==, !new)>(s: seq<K>, k: K): seq<K> {
    Without(s, k) + [k]
  }

  function Hit<K(==, !new), V>(c: Cache<K, V>, k: K): (Option<V>, Cache<K, V>) {
    if k in c.entries then (Some(c.entries[k]), c.(order := Touch(c.order, k))) else (None, c)
  }

  function Insert<K(==, !new), V>(c: Cache<K, V>, k: K, v: V, size: nat): (V, Cache<K, V>) {
    if k in c.entries then (c.entries[k], c.(order := Touch(c.order, k)))
    else
      var entries, order := c.entries[k := v], Touch(c.order, k);
      if |order| > size then (v, Cache(entries - {order[0]}, order[1..])) else (v, Cache(entries, order))
  }

  predicate Distinct<K(==, !new)>(s: seq<K>) {
    forall i, j :: 0 <= i < j < |s| ==> s[i] != s[j]
  }

  /** The recency list holds each cached key once, and nothing else. */
  ghost predicate Consistent<K(!new), V>(c: Cache<K, V>) {
    Distinct(c.order) && forall k :: k in c.order <==> k in c.entries
  }

  lemma {:induction false} WithoutDistinct<K(!new)>(s: seq<K>, k: K)
    requires Distinct(s)
    ensures Distinct(Without(s, k))
  {
    if s != [] {
      var n := |s| - 1;
      WithoutDistinct(s[..n], k);
      assert forall x :: x in Without(s[..n], k) ==> x in s[..n];
      assert s[n] !in s[..n];
    }
  }

  lemma {:induction false} WithoutAbsent<K(!new)>(s: seq<K>, k: K)
    requires k !in s
    ensures Without(s, k) == s
  {
    if s != [] {
      WithoutAbsent(s[..|s| - 1], k);
      assert s == s[..|s| - 1] + [s[|s| - 1]];
    }
  }

  lemma {:induction false} WithoutConcat<K(!new)>(a: seq<K>, b: seq<K>, k: K)
    ensures Without(a + b, k) == Without(a, k) + Without(b, k)
  {
    if b == [] {
      assert a + b == a;
    } else {
      var n := |b| - 1;
      assert (a + b)[..|a + b| - 1] == a + b[..n];
      WithoutConcat(a, b[..n], k);
    }
  }

  lemma {:induction false} DistinctSize<K(!new)>(s: seq<K>, keys: set<K>)
    requires Distinct(s) && forall k :: k in s <==> k in keys
    ensures |s| == |keys|
  {
    if s == [] {
      assert keys == {};
    } else {
      var n := |s| - 1;
      assert s == s[..n] + [s[n]];
      assert s[n] !in s[..n];
      DistinctSize(s[..n], keys - {s[n]});
    }
  }

  lemma TouchDistinct<K(!new)>(s: seq<K>, k: K)
    requires Distinct(s)
    ensures Distinct(Touch(s, k)) && forall x :: x in Touch(s, k) <==> x in s || x == k
  {
    WithoutDistinct(s, k);
    var w := Without(s, k);
    assert forall i :: 0 <= i < |w| ==> w[i] in w;
  }

  lemma HitConsistent<K(!new), V>(c: Cache<K, V>, k: K)
    requires Consistent(c)
    ensures Consistent(Hit(c, k).1) && |Hit(c, k).1.order| == |c.order|
  {
    TouchDistinct(c.order, k);
    DistinctSize(c.order, c.entries.Keys);
    DistinctSize(Hit(c, k).1.order, c.entries.Keys);
  }

  /** Dropping the oldest key from the list and the map. */
  lemma EvictConsistent<K(!new), V>(c: Cache<K, V>)
    requires Consistent(c) && c.order != []
    ensures Consistent(Cache(c.entries - {c.order[0]}, c.order[1..]))
  {
    var x, rest := c.order[0], c.order[1..];
    assert c.order == [x] + rest;
    assert forall i :: 0 <= i < |rest| ==> rest[i] == c.order[i + 1];
    assert x !in rest;
  }

  lemma InsertConsistent<K(!new), V>(c: Cache<K, V>, k: K, v: V, size: nat)
    requires Consistent(c) && |c.order| <= size
    ensures Consistent(Insert(c, k, v, size).1) && |Insert(c, k, v, size).1.order| <= size
  {
    hide Without;
    if k in c.entries {
      HitConsistent(c, k);
    } else {
      TouchDistinct(c.order, k);
      var grown := Cache(c.entries[k := v], Touch(c.order, k));
      assert Consistent(grown);
      if |grown.order| > size { EvictConsistent(grown); }
    }
  }

  // ---------------------------------------------------------------- the Rust cache

  /** Keys at the back of the list are the most recent. */
  class RustCache<K(==, !new), V> {
    const size: nat
    var cacheMap: map<K, V>
    var lruList: seq<K>

    ghost function View(): Cache<K, V>
      reads this
    {
      Cache(cacheMap, lruList)
    }

    ghost predicate Valid()
      reads this
    {
      Consistent(View()) && |lruList| <= size
    }

    constructor (size: nat)
      ensures Valid() && View() == Cache(map[], []) && this.size == size
    {
      this.size := size;
      cacheMap := map[];
      lruList := [];
    }

    method PushBackKey(key: K)
      modifies this`lruList
      ensures lruList == Touch(old(lruList), key)
    {
      lruList := Without(lruList, key);
      lruList := lruList + [key];
    }

    method GetIfHit(key: K) returns (r: Option<V>)
      requires Valid()
      modifies this`lruList
      ensures Valid() && (r, View()) == Hit(old(View()), key)
    {
      HitConsistent(View(), key);
      if key !in cacheMap { return None; }
      r := Some(cacheMap[key]);
      PushBackKey(key);
    }

    /** Inserts unless present; the length assertion of the source never fails. */
    method InsertValue(key: K, value: V) returns (r: V)
      requires Valid()
      modifies this`cacheMap, this`lruList
      ensures Valid() && (r, View()) == Insert(old(View()), key, value, size)
    {
      InsertConsistent(View(), key, value, size);
      var hit := GetIfHit(key);
      if hit.Some? { return hit.value; }
      PushBackKey(key);
      cacheMap := cacheMap[key := value];
      if |lruList| > size {
        var evicted := lruList[0];
        lruList := lruList[1..];
        cacheMap := cacheMap - {evicted};
      }
      DistinctSize(lruList, cacheMap.Keys);
      assert |lruList| == |cacheMap|;
      return value;
    }

    method Reset()
      modifies this`cacheMap, this`lruList
      ensures Valid() && View() == Cache(map[], [])
    {
      lruList := [];
      cacheMap := map[];
    }
  }

  // ---------------------------------------------------------------- the Java cache

  function Reverse<T>(s: seq<T>): (r: seq<T>)
    ensures |r| == |s| && forall i :: 0 <= i < |s| ==> r[i] == s[|s| - 1 - i]
  {
    if s == [] then [] else [s[|s| - 1]] + Reverse(s[..|s| - 1])
  }

  /** Removes the first occurrence. */
  function RemoveFirst<K(==, !new)>(s: seq<K>, k: K): seq<K> {
    if s == [] then [] else if s[0] == k then s[1..] else [s[0]] + RemoveFirst(s[1..], k)
  }

  /** On a duplicate-free list, removing the first occurrence from the front is removing
      every occurrence from the reversed list. */
  lemma {:induction false} RemoveFirstReversed<K(!new)>(s: seq<K>, k: K)
    requires Distinct(s)
    ensures Reverse(RemoveFirst(s, k)) == Without(Reverse(s), k)
  {
    if s != [] {
      ReverseFront(s);
      WithoutConcat(Reverse(s[1..]), [s[0]], k);
      assert [s[0]][..0] == [];
      if s[0] == k {
        assert k !in s[1..];
        assert k !in Reverse(s[1..]);
        WithoutAbsent(Reverse(s[1..]), k);
      } else {
        RemoveFirstReversed(s[1..], k);
        ReverseFront([s[0]] + RemoveFirst(s[1..], k));
      }
    }
  }

  lemma ReverseFront<T>(s: seq<T>)
    requires s != []
    ensures Reverse(s) == Reverse(s[1..]) + [s[0]]
  {}

  /** Keys at the front of the list are the most recent; any size below 1 caches nothing. */
  class JavaCache<K(==, !new), V> {
    const size: int
    var cache: map<K, V>
    var lru: seq<K>

    ghost function Bound(): nat { if size < 0 then 0 else size }

    ghost function View(): Cache<K, V>
      reads this
    {
      Cache(cache, Reverse(lru))
    }

    ghost predicate Valid()
      reads this
    {
      Consistent(View()) && |lru| <= Bound()
    }

    constructor (size: int)
      ensures Valid() && View() == Cache(map[], []) && this.size == size
    {
      this.size := size;
      cache := map[];
      lru := [];
    }

    method AccessKey(key: K)
      requires Distinct(lru)
      modifies this`lru
      ensures Reverse(lru) == Touch(Reverse(old(lru)), key)
    {
      RemoveFirstReversed(lru, key);
      lru := RemoveFirst(lru, key);
      ReverseFront([key] + lru);
      lru := [key] + lru;
    }

    /** The first critical section. */
    method Lookup(key: K) returns (r: Option<V>)
      requires Valid()
      modifies this`lru
      ensures Valid() && (r, View()) == Hit(old(View()), key)
    {
      HitConsistent(View(), key);
      ReversedDistinct(lru);
      if key in cache {
        AccessKey(key);
        return Some(cache[key]);
      }
      return None;
    }

    /** The second critical section. */
    method Store(key: K, value: V) returns (r: V)
      requires Valid()
      modifies this`cache, this`lru
      ensures Valid() && (r, View()) == Insert(old(View()), key, value, Bound())
    {
      hide Reverse, Without;
      InsertConsistent(View(), key, value, Bound());
      ReversedDistinct(lru);
      ghost var before := View();
      AccessKey(key);
      if key in cache { return cache[key]; }
      DistinctSize(before.order, before.entries.Keys);
      WithoutAbsent(before.order, key);
      cache := cache[key := value];
      assert |cache| == |before.entries| + 1 == |lru|;
      DropLast(lru);
      if |cache| > size {
        var evicted := lru[|lru| - 1];
        lru := lru[..|lru| - 1];
        cache := cache - {evicted};
      }
      return value;
    }
  }

  lemma DropLast<T>(s: seq<T>)
    requires s != []
    ensures Reverse(s[..|s| - 1]) == Reverse(s)[1..] && s[|s| - 1] == Reverse(s)[0]
  {}

  lemma ReversedDistinct<K(!new)>(s: seq<K>)
    requires Distinct(Reverse(s))
    ensures Distinct(s)
  {
    forall i, j | 0 <= i < j < |s| ensures s[i] != s[j] {
      var a, b := |s| - 1 - j, |s| - 1 - i;
      assert Reverse(s)[a] == s[j] && Reverse(s)[b] == s[i];
    }
  }
}
