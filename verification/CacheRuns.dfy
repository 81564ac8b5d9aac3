/** Every interleaving of the caches' critical sections, over any number of threads. */
module CacheRuns {
  import opened Domain
  import opened Lru

  /** The shared cell, the keys threads are computing outside the lock, and a history:
      the keys accessed since the last reset, and what calls have returned. */
  datatype State<K, V> = State(cell: Option<Cache<K, V>>, pending: map<int, K>, panicked: bool,
                               accesses: seq<K>, results: seq<(K, Option<V>)>)

  /** Lookup and Finish are the two critical sections of one call of a thread. */
  datatype Event<K> = Lookup(thread: int, key: K) | Finish(thread: int) | Reset

  function Empty<K, V>(): Cache<K, V> { Cache(map[], []) }

  /** The Rust cell starts unset and is filled lazily. */
  function Lazy<K, V>(): State<K, V> { State(None, map[], false, [], []) }

  /** The Java cache exists from the start. */
  function Eager<K, V>(): State<K, V> { State(Some(Empty()), map[], false, [], []) }

  /** The first section: create the cache, or look the key up. */
  function LookupStep<K(==, !new), V>(s: State<K, V>, t: int, k: K): State<K, V> {
    if t in s.pending then s
    else
      match s.cell
      case None => s.(cell := Some(Empty()), pending := s.pending[t := k])
      case Some(c) =>
        var (r, c') := Hit(c, k);
        if r.Some? then s.(cell := Some(c'), accesses := s.accesses + [k], results := s.results + [(k, r)])
        else s.(pending := s.pending[t := k])
  }

  /** The second section, after the computation; a failed computation skips it. */
  function FinishStep<K(==, !new), V>(s: State<K, V>, t: int, size: nat, compute: K -> Option<V>): State<K, V> {
    if t !in s.pending then s
    else
      var k := s.pending[t];
      var s' := s.(pending := s.pending - {t});
      match compute(k)
      case None => s'.(results := s.results + [(k, None)])
      case Some(v) =>
        match s.cell
        case None => s'.(panicked := true)
        case Some(c) =>
          var (r, c') := Insert(c, k, v, size);
          s'.(cell := Some(c'), accesses := s.accesses + [k], results := s.results + [(k, Some(r))])
  }

  function ResetStep<K, V>(s: State<K, V>): State<K, V> {
    match s.cell
    case None => s
    case Some(_) => s.(cell := Some(Empty()), accesses := [])
  }

  function Step<K(==, !new), V>(s: State<K, V>, e: Event<K>, size: nat, compute: K -> Option<V>): State<K, V> {
    match e
    case Lookup(t, k) => LookupStep(s, t, k)
    case Finish(t) => FinishStep(s, t, size, compute)
    case Reset => ResetStep(s)
  }

  function Run<K(==, !new), V>(start: State<K, V>, es: seq<Event<K>>, size: nat, compute: K -> Option<V>): State<K, V> {
    if es == [] then start else Step(Run(start, es[..|es| - 1], size, compute), es[|es| - 1], size, compute)
  }

  // ---------------------------------------------------------------- recency

  /** Accessed keys, each once, by last access. */
  function Recency<K(==, !new)>(accesses: seq<K>): seq<K> {
    if accesses == [] then [] else Touch(Recency(accesses[..|accesses| - 1]), accesses[|accesses| - 1])
  }

  /** The last n elements, or all. */
  function Newest<T>(s: seq<T>, n: nat): (r: seq<T>)
    ensures |r| == if |s| <= n then |s| else n
  {
    if |s| <= n then s else s[|s| - n..]
  }

  /** The position of the last access to a key. */
  function LastAccess<K(==)>(accesses: seq<K>, k: K): (r: nat)
    requires k in accesses
    ensures r < |accesses| && accesses[r] == k
    ensures forall i :: r < i < |accesses| ==> accesses[i] != k
  {
    if accesses[|accesses| - 1] == k then |accesses| - 1 else LastAccess(accesses[..|accesses| - 1], k)
  }

  lemma {:induction false} RecencyDistinct<K(!new)>(accesses: seq<K>)
    ensures Distinct(Recency(accesses)) && forall k :: k in Recency(accesses) <==> k in accesses
  {
    if accesses != [] {
      var n := |accesses| - 1;
      RecencyDistinct(accesses[..n]);
      TouchDistinct(Recency(accesses[..n]), accesses[n]);
      assert accesses == accesses[..n] + [accesses[n]];
    }
  }

  /** Keys removed from a list leave the others in order. */
  lemma {:induction false} WithoutKeepsOrder<K(!new)>(s: seq<K>, k: K, i: nat, j: nat) returns (p: nat, q: nat)
    requires i < j < |Without(s, k)|
    ensures p < q < |s| && s[p] == Without(s, k)[i] && s[q] == Without(s, k)[j]
  {
    var n := |s| - 1;
    var w := Without(s[..n], k);
    if j < |w| {
      p, q := WithoutKeepsOrder(s[..n], k, i, j);
    } else {
      assert w[i] in s[..n];
      p :| 0 <= p < n && s[p] == w[i];
      q := n;
    }
  }

  /** The recency list is ordered by last access. */
  lemma {:induction false} RecencyOrdered<K(!new)>(accesses: seq<K>, i: nat, j: nat)
    requires i < j < |Recency(accesses)|
    ensures Recency(accesses)[i] in accesses && Recency(accesses)[j] in accesses
    ensures LastAccess(accesses, Recency(accesses)[i]) < LastAccess(accesses, Recency(accesses)[j])
  {
    var n := |accesses| - 1;
    var front, last := Recency(accesses[..n]), accesses[n];
    RecencyDistinct(accesses);
    RecencyDistinct(accesses[..n]);
    var w := Without(front, last);
    var r := Recency(accesses);
    assert r[i] == w[i] && w[i] in w;
    assert r[i] in accesses && r[j] in accesses;
    if j < |w| {
      assert r[j] == w[j] && w[j] in w;
      var p, q := WithoutKeepsOrder(front, last, i, j);
      RecencyOrdered(accesses[..n], p, q);
    }
  }

  // ---------------------------------------------------------------- one access keeps the newest keys

  lemma NewestSplit<T>(r: seq<T>, n: nat) returns (aged: seq<T>)
    ensures r == aged + Newest(r, n) && aged == r[..|r| - |Newest(r, n)|]
    ensures |Newest(r, n)| < n ==> aged == []
  {
    aged := r[..|r| - |Newest(r, n)|];
  }

  lemma NewestOfConcat<T>(a: seq<T>, b: seq<T>, n: nat)
    requires |b| == n || (|b| <= n && a == [])
    ensures Newest(a + b, n) == b
  {
    if |b| == n {
      assert (a + b)[|a + b| - n..] == b;
      assert |a| == 0 ==> a + b == b;
    } else {
      assert a + b == b;
    }
  }

  /** A hit: touching inside the newest keys is touching in the whole list. */
  lemma NewestHit<K(!new)>(r: seq<K>, k: K, n: nat)
    requires Distinct(r) && k in Newest(r, n)
    ensures Touch(Newest(r, n), k) == Newest(Touch(r, k), n)
  {
    hide Without, Newest;
    var aged := NewestSplit(r, n);
    var newer := Newest(r, n);
    var cut := |aged|;
    assert r[cut..] == newer && r[..cut] == aged;
    SplitDistinct(r, cut, k);
    SuffixDistinct(r, cut);
    WithoutLength(newer, k);
    TouchConcat(aged, newer, k);
    NewestOfConcat(aged, Touch(newer, k), n);
  }

  lemma TouchConcat<K(!new)>(a: seq<K>, b: seq<K>, k: K)
    requires k !in a
    ensures Touch(a + b, k) == a + Touch(b, k)
  {
    hide Without;
    WithoutConcat(a, b, k);
    WithoutAbsent(a, k);
    assert a + Without(b, k) + [k] == a + (Without(b, k) + [k]);
  }

  lemma SuffixDistinct<K(!new)>(r: seq<K>, cut: nat)
    requires Distinct(r) && cut <= |r|
    ensures Distinct(r[cut..])
  {}

  lemma SplitDistinct<K(!new)>(r: seq<K>, cut: nat, k: K)
    requires Distinct(r) && cut <= |r| && k in r[cut..]
    ensures k !in r[..cut]
  {
    var j :| cut <= j < |r| && r[j] == k;
    assert forall i :: 0 <= i < cut ==> r[i] != r[j];
  }

  lemma {:induction false} WithoutLength<K(!new)>(s: seq<K>, k: K)
    requires Distinct(s)
    ensures |Without(s, k)| == |s| - if k in s then 1 else 0
  {
    if s != [] {
      var n := |s| - 1;
      assert s == s[..n] + [s[n]];
      assert s[n] !in s[..n];
      WithoutLength(s[..n], k);
    }
  }

  /** A miss: appending to the newest keys, and dropping the oldest if there are too many,
      is touching in the whole list. */
  lemma NewestMiss<K(!new)>(r: seq<K>, k: K, n: nat)
    requires Distinct(r) && k !in Newest(r, n)
    ensures var grown := Newest(r, n) + [k];
            Newest(Touch(r, k), n) == if |grown| > n then grown[1..] else grown
  {
    hide Without;
    var cut := |r| - |Newest(r, n)|;
    var aged, newer := r[..cut], r[cut..];
    assert r == aged + newer && Newest(r, n) == newer;
    WithoutConcat(aged, newer, k);
    WithoutAbsent(newer, k);
    var w := Without(aged, k);
    assert Touch(r, k) == w + (newer + [k]);
    var grown := newer + [k];
    if |r| <= n {
      assert aged == [];
      WithoutAbsent(aged, k);
      assert w + grown == grown;
    }
    if |grown| > n { assert (w + grown)[|w + grown| - n..] == grown[1..]; }
  }

  // ---------------------------------------------------------------- the invariant of all runs

  ghost predicate Agrees<K(!new), V(!new)>(c: Cache<K, V>, accesses: seq<K>, size: nat, compute: K -> Option<V>) {
    && Consistent(c) && |c.order| <= size
    && (forall k :: k in c.entries ==> compute(k) == Some(c.entries[k]))
    && c.order == Newest(Recency(accesses), size)
  }

  ghost predicate Good<K(!new), V(!new)>(s: State<K, V>, size: nat, compute: K -> Option<V>) {
    && !s.panicked
    && (s.pending != map[] ==> s.cell.Some?)
    && (s.cell.None? ==> s.accesses == [])
    && (s.cell.Some? ==> Agrees(s.cell.value, s.accesses, size, compute))
    && forall i :: 0 <= i < |s.results| ==> s.results[i].1 == compute(s.results[i].0)
  }

  lemma RecencyStep<K(!new)>(accesses: seq<K>, k: K)
    ensures Recency(accesses + [k]) == Touch(Recency(accesses), k)
  {
    assert (accesses + [k])[..|accesses|] == accesses;
  }

  lemma HitAgrees<K(!new), V(!new)>(c: Cache<K, V>, accesses: seq<K>, k: K, size: nat, compute: K -> Option<V>)
    requires Agrees(c, accesses, size, compute) && k in c.entries
    ensures Agrees(Hit(c, k).1, accesses + [k], size, compute)
  {
    hide Recency, Newest, Touch;
    HitConsistent(c, k);
    RecencyDistinct(accesses);
    RecencyStep(accesses, k);
    NewestHit(Recency(accesses), k, size);
  }

  lemma InsertAgrees<K(!new), V(!new)>(c: Cache<K, V>, accesses: seq<K>, k: K, v: V, size: nat, compute: K -> Option<V>)
    requires Agrees(c, accesses, size, compute) && compute(k) == Some(v)
    ensures Agrees(Insert(c, k, v, size).1, accesses + [k], size, compute)
    ensures Insert(c, k, v, size).0 == v
  {
    hide Recency, Newest, Without;
    InsertConsistent(c, k, v, size);
    if k in c.entries {
      HitAgrees(c, accesses, k, size, compute);
    } else {
      RecencyDistinct(accesses);
      RecencyStep(accesses, k);
      WithoutAbsent(c.order, k);
      NewestMiss(Recency(accesses), k, size);
    }
  }

  lemma EmptyAgrees<K(!new), V(!new)>(size: nat, compute: K -> Option<V>)
    ensures Agrees(Empty<K, V>(), [], size, compute)
  {}

  lemma LookupKeeps<K(!new), V(!new)>(s: State<K, V>, t: int, k: K, size: nat, compute: K -> Option<V>)
    requires Good(s, size, compute)
    ensures Good(LookupStep(s, t, k), size, compute)
  {
    hide Agrees;
    EmptyAgrees<K, V>(size, compute);
    if t !in s.pending && s.cell.Some? && k in s.cell.value.entries {
      HitAgrees(s.cell.value, s.accesses, k, size, compute);
      CachedIsComputed(s.cell.value, s.accesses, k, size, compute);
    }
  }

  lemma CachedIsComputed<K(!new), V(!new)>(c: Cache<K, V>, accesses: seq<K>, k: K, size: nat, compute: K -> Option<V>)
    requires Agrees(c, accesses, size, compute) && k in c.entries
    ensures compute(k) == Some(c.entries[k])
  {}

  lemma FinishKeeps<K(!new), V(!new)>(s: State<K, V>, t: int, size: nat, compute: K -> Option<V>)
    requires Good(s, size, compute)
    ensures Good(FinishStep(s, t, size, compute), size, compute)
  {
    hide Agrees, Insert;
    if t in s.pending && compute(s.pending[t]).Some? {
      InsertAgrees(s.cell.value, s.accesses, s.pending[t], compute(s.pending[t]).value, size, compute);
    }
  }

  /** In every interleaving of lookups, insertions and resets by any threads: nothing
      panics, the cache agrees with its history, and every call returned what computing
      without a cache would have. */
  lemma {:induction false} RunsAreGood<K(!new), V(!new)>(start: State<K, V>, es: seq<Event<K>>, size: nat, compute: K -> Option<V>)
    requires start == Lazy() || start == Eager()
    ensures Good(Run(start, es, size, compute), size, compute)
  {
    hide Agrees, LookupStep, FinishStep;
    EmptyAgrees<K, V>(size, compute);
    if es != [] {
      var n := |es| - 1;
      RunsAreGood(start, es[..n], size, compute);
      var s := Run(start, es[..n], size, compute);
      match es[n]
      case Lookup(t, k) => LookupKeeps(s, t, k, size, compute);
      case Finish(t) => FinishKeeps(s, t, size, compute);
      case Reset =>
    }
  }

  /** In any run, a lookup by an idle thread of one of the last SIZE distinct keys accessed is
      answered at once, with the computed value, and leaves nothing pending. */
  lemma RecentKeysHit<K(!new), V(!new)>(start: State<K, V>, es: seq<Event<K>>, size: nat, compute: K -> Option<V>, t: int, k: K)
    requires start == Lazy() || start == Eager()
    requires var s := Run(start, es, size, compute);
             t !in s.pending && k in Newest(Recency(s.accesses), size)
    ensures var s := Run(start, es, size, compute);
            var s' := Run(start, es + [Lookup(t, k)], size, compute);
            && s'.results == s.results + [(k, compute(k))] && compute(k).Some?
            && s'.pending == s.pending && s'.accesses == s.accesses + [k]
  {
    hide Recency, Newest, Consistent;
    var s := Run(start, es, size, compute);
    RunsAreGood(start, es, size, compute);
    assert (es + [Lookup(t, k)])[..|es|] == es;
    RecentIsCached(s, size, compute, k);
  }

  lemma RecentIsCached<K(!new), V(!new)>(s: State<K, V>, size: nat, compute: K -> Option<V>, k: K)
    requires Good(s, size, compute) && k in Newest(Recency(s.accesses), size)
    ensures s.cell.Some? && k in s.cell.value.entries && compute(k) == Some(s.cell.value.entries[k])
  {
    RecencyDistinct(s.accesses);
    assert k in Recency(s.accesses);
  }

  /** A key that is not cached makes the thread wait, and is served by its next section. */
  lemma MissesAreServed<K(!new), V(!new)>(start: State<K, V>, es: seq<Event<K>>, size: nat, compute: K -> Option<V>, t: int)
    requires start == Lazy() || start == Eager()
    requires t in Run(start, es, size, compute).pending
    ensures var s := Run(start, es, size, compute);
            var s' := Run(start, es + [Finish(t)], size, compute);
            && s'.results == s.results + [(s.pending[t], compute(s.pending[t]))]
            && s'.pending == s.pending - {t}
  {
    hide Recency, Newest, Consistent;
    var s := Run(start, es, size, compute);
    RunsAreGood(start, es, size, compute);
    assert (es + [Finish(t)])[..|es|] == es;
    if compute(s.pending[t]).Some? {
      InsertAgrees(s.cell.value, s.accesses, s.pending[t], compute(s.pending[t]).value, size, compute);
    }
  }

  /** The cached keys are the most recently accessed ones: a key accessed since the last
      reset that is no longer cached was last accessed before every cached key, and then
      the cache is full. */
  lemma CachedKeysAreNewest<K(!new), V(!new)>(start: State<K, V>, es: seq<Event<K>>, size: nat, compute: K -> Option<V>, k: K, u: K)
    requires start == Lazy() || start == Eager()
    requires var s := Run(start, es, size, compute);
             s.cell.Some? && k in s.cell.value.entries && u in s.accesses && u !in s.cell.value.entries
    ensures var s := Run(start, es, size, compute);
            k in s.accesses && LastAccess(s.accesses, u) < LastAccess(s.accesses, k) && |s.cell.value.entries| == size
  {
    hide Run, Recency, Newest, LastAccess;
    var s := Run(start, es, size, compute);
    RunsAreGood(start, es, size, compute);
    var c := s.cell.value;
    DistinctSize(c.order, c.entries.Keys);
    NewestAccessedLast(s.accesses, size, k, u);
  }

  /** Keys among the newest were accessed after all others. */
  lemma NewestAccessedLast<K(!new)>(accesses: seq<K>, size: nat, k: K, u: K)
    requires var newest := Newest(Recency(accesses), size); k in newest && u in accesses && u !in newest
    ensures |Newest(Recency(accesses), size)| == size
    ensures k in accesses && LastAccess(accesses, u) < LastAccess(accesses, k)
  {
    hide Recency, LastAccess;
    RecencyDistinct(accesses);
    var r := Recency(accesses);
    var newest := Newest(r, size);
    var cut := |r| - |newest|;
    var i :| 0 <= i < |r| && r[i] == u;
    var j :| 0 <= j < |newest| && newest[j] == k;
    assert r[cut..] == newest;
    assert i < cut by { InSuffix(r, cut, i); }
    RecencyOrdered(accesses, i, cut + j);
  }

  lemma InSuffix<T>(r: seq<T>, cut: nat, i: nat)
    requires cut <= |r| && i < |r|
    ensures i >= cut ==> r[i] in r[cut..]
  {
    assert i >= cut ==> r[cut..][i - cut] == r[i];
  }
}
