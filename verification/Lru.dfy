/** The least-recently-used cache: the class, and what each operation does to its recency list. */
module Lru {
  import opened Rings

  // ----- recency lists, most recent first -----

  type Recency<K, V> = seq<(K, V)>

  predicate Has<K(==), V>(l: Recency<K, V>, k: K) {
    exists i :: 0 <= i < |l| && l[i].0 == k
  }

  ghost predicate Distinct<K, V>(l: Recency<K, V>) {
    forall i, j :: 0 <= i < j < |l| ==> l[i].0 != l[j].0
  }

  function Without<K(==), V>(l: Recency<K, V>, k: K): Recency<K, V> {
    if l == [] then [] else if l[0].0 == k then Without(l[1..], k) else [l[0]] + Without(l[1..], k)
  }

  function Lookup<K(==), V>(l: Recency<K, V>, k: K): Option<V> {
    if l == [] then None else if l[0].0 == k then Some(l[0].1) else Lookup(l[1..], k)
  }

  /** Moves or inserts k, with value v, at the front. */
  function Touch<K(==), V>(l: Recency<K, V>, k: K, v: V): Recency<K, V> {
    [(k, v)] + Without(l, k)
  }

  function Trim<T>(l: seq<T>, max: nat): seq<T> {
    if |l| <= max then l else l[..max]
  }

  function AfterGet<K(==), V>(l: Recency<K, V>, k: K): Recency<K, V> {
    match Lookup(l, k)
    case None => l
    case Some(v) => Touch(l, k, v)
  }

  function AfterPut<K(==), V>(l: Recency<K, V>, max: nat, k: K, v: V): Recency<K, V> {
    if max == 0 then l else Trim(Touch(l, k, v), max)
  }

  // ----- facts about lists -----

  // membership by key, one entry at a time
  lemma HasStep<K(!new), V(!new)>(l: Recency<K, V>, k: K)
    requires l != []
    ensures Has(l, k) <==> l[0].0 == k || Has(l[1..], k)
  {
    if Has(l[1..], k) {
      var i :| 0 <= i < |l[1..]| && l[1..][i].0 == k;
      assert l[i + 1].0 == k;
    }
    if Has(l, k) && l[0].0 != k {
      var i :| 0 <= i < |l| && l[i].0 == k;
      assert l[1..][i - 1].0 == k;
    }
  }

  lemma DistinctStep<K(!new), V(!new)>(x: (K, V), l: Recency<K, V>)
    requires Distinct(l) && !Has(l, x.0)
    ensures Distinct([x] + l)
  {
    assert forall i :: 0 <= i < |l| ==> l[i].0 != x.0;
  }

  lemma {:induction false} WithoutIs<K(!new), V(!new)>(l: Recency<K, V>, k: K)
    requires Distinct(l)
    ensures Distinct(Without(l, k)) && !Has(Without(l, k), k)
    ensures forall x :: x in Without(l, k) <==> x in l && x.0 != k
    ensures |Without(l, k)| == if Has(l, k) then |l| - 1 else |l|
    ensures !Has(l, k) ==> Without(l, k) == l
  {
    if l != [] {
      WithoutIs(l[1..], k);
      assert l == [l[0]] + l[1..];
      HasStep(l, k);
      assert !Has(l[1..], l[0].0);
      if l[0].0 != k {
        var w := Without(l[1..], k);
        assert !Has(w, l[0].0) by { MembersOnly(w, l[1..], l[0].0); }
        DistinctStep(l[0], w);
        HasStep([l[0]] + w, k);
        assert ([l[0]] + w)[1..] == w;
      }
    }
  }

  lemma MembersOnly<K(!new), V(!new)>(w: Recency<K, V>, l: Recency<K, V>, k: K)
    requires (forall x :: x in w ==> x in l) && !Has(l, k)
    ensures !Has(w, k)
  {
    forall i | 0 <= i < |w| ensures w[i].0 != k {
      assert w[i] in l;
      var j :| 0 <= j < |l| && l[j] == w[i];
    }
  }

  lemma {:induction false} LookupIs<K(!new), V(!new)>(l: Recency<K, V>, k: K)
    requires Distinct(l)
    ensures Lookup(l, k).Some? <==> Has(l, k)
    ensures forall v :: Lookup(l, k) == Some(v) <==> (k, v) in l
  {
    if l != [] {
      LookupIs(l[1..], k);
      assert l == [l[0]] + l[1..];
      if Has(l, k) && l[0].0 != k {
        var i :| 0 <= i < |l| && l[i].0 == k;
        assert l[1..][i - 1].0 == k;
      }
      if Has(l[1..], k) {
        var i :| 0 <= i < |l[1..]| && l[1..][i].0 == k;
        assert l[i + 1].0 == k;
      }
      assert forall i :: 0 <= i < |l[1..]| ==> l[1..][i] == l[i + 1] && l[i + 1].0 != l[0].0;
    }
  }

  lemma TouchIs<K(!new), V(!new)>(l: Recency<K, V>, k: K, v: V)
    requires Distinct(l)
    ensures Distinct(Touch(l, k, v)) && |Touch(l, k, v)| == if Has(l, k) then |l| else |l| + 1
  {
    WithoutIs(l, k);
  }

  // ----- the list of keys and the map -----

  ghost predicate Paired<K(!new), V(!new)>(order: seq<K>, items: map<K, V>) {
    && (forall i, j :: 0 <= i < j < |order| ==> order[i] != order[j])
    && (forall k :: k in items <==> k in order)
  }

  ghost function Zip<K(!new), V(!new)>(order: seq<K>, items: map<K, V>): (l: Recency<K, V>)
    requires Paired(order, items)
  {
    seq(|order|, i requires 0 <= i < |order| => (order[i], items[order[i]]))
  }

  function Dropped<K(==)>(order: seq<K>, k: K): seq<K> {
    if order == [] then [] else if order[0] == k then Dropped(order[1..], k) else [order[0]] + Dropped(order[1..], k)
  }

  /** The list with k moved, or put, at its front. */
  function Spliced<K(==)>(order: seq<K>, k: K): seq<K> {
    [k] + Dropped(order, k)
  }

  lemma {:induction false} DroppedIs<K(!new)>(order: seq<K>, k: K)
    requires forall i, j :: 0 <= i < j < |order| ==> order[i] != order[j]
    ensures forall x :: x in Dropped(order, k) <==> x in order && x != k
    ensures forall i, j :: 0 <= i < j < |Dropped(order, k)| ==> Dropped(order, k)[i] != Dropped(order, k)[j]
    ensures |Dropped(order, k)| == if k in order then |order| - 1 else |order|
    ensures k !in order ==> Dropped(order, k) == order
  {
    if order != [] {
      var rest := order[1..];
      assert order == [order[0]] + rest;
      assert order[0] !in rest;
      DroppedIs(rest, k);
      if order[0] != k {
        assert order[0] !in Dropped(rest, k);
      }
    }
  }

  lemma {:induction false} ZipWithout<K(!new), V(!new)>(order: seq<K>, items: map<K, V>, l: Recency<K, V>, k: K,
                                                        m: map<K, V>)
    requires |l| == |order| && forall i :: 0 <= i < |l| ==> order[i] in items && l[i] == (order[i], items[order[i]])
    requires forall x :: x in Dropped(order, k) ==> x in items && x in m && m[x] == items[x]
    ensures |Without(l, k)| == |Dropped(order, k)|
    ensures forall i :: 0 <= i < |Dropped(order, k)| ==>
      Without(l, k)[i] == (Dropped(order, k)[i], m[Dropped(order, k)[i]])
  {
    if order != [] {
      ZipWithout(order[1..], items, l[1..], k, m);
    }
  }

  lemma ZipIs<K(!new), V(!new)>(order: seq<K>, items: map<K, V>)
    requires Paired(order, items)
    ensures |Zip(order, items)| == |order| && Distinct(Zip(order, items))
    ensures forall i :: 0 <= i < |order| ==> order[i] in items && Zip(order, items)[i] == (order[i], items[order[i]])
  {}

  lemma SplicedIs<K(!new), V(!new)>(order: seq<K>, items: map<K, V>, k: K, v: V)
    requires Paired(order, items)
    ensures Paired(Spliced(order, k), items[k := v])
    ensures Zip(Spliced(order, k), items[k := v]) == Touch(Zip(order, items), k, v)
    ensures k !in items ==> Spliced(order, k) == [k] + order
    ensures |Spliced(order, k)| == |Touch(Zip(order, items), k, v)| == if k in items then |order| else |order| + 1
  {
    hide Dropped, Without;
    var (d, m) := (Dropped(order, k), items[k := v]);
    DroppedIs(order, k);
    ZipIs(order, items);
    ZipWithout(order, items, Zip(order, items), k, m);
    assert Paired([k] + d, m);
    ZipIs([k] + d, m);
    assert Zip([k] + d, m) == [(k, v)] + Without(Zip(order, items), k);
  }

  lemma ZipLookup<K(!new), V(!new)>(order: seq<K>, items: map<K, V>, k: K)
    requires Paired(order, items)
    ensures Lookup(Zip(order, items), k) == if k in items then Some(items[k]) else None
  {
    ZipIs(order, items);
    var l := Zip(order, items);
    LookupIs(l, k);
    if k in items {
      var i :| 0 <= i < |order| && order[i] == k;
      assert l[i] == (k, items[k]);
    } else {
      assert !Has(l, k);
    }
  }

  lemma {:induction false} DistinctSize<K(!new)>(order: seq<K>, keys: set<K>)
    requires forall i, j :: 0 <= i < j < |order| ==> order[i] != order[j]
    requires forall k :: k in keys <==> k in order
    ensures |keys| == |order|
  {
    if order != [] {
      assert order == [order[0]] + order[1..] && order[0] !in order[1..];
      DistinctSize(order[1..], keys - {order[0]});
    } else {
      assert keys == {};
    }
  }

  lemma ZipLength<K(!new), V(!new)>(order: seq<K>, items: map<K, V>)
    requires Paired(order, items)
    ensures |items| == |order| == |Zip(order, items)|
  {
    DistinctSize(order, items.Keys);
  }

  lemma PrefixOfPrefix<T>(l: seq<T>, m: nat, n: nat)
    requires n <= m <= |l|
    ensures l[..m][..n] == l[..n]
  {}

  lemma DropLast<K(!new), V(!new)>(order: seq<K>, items: map<K, V>)
    requires Paired(order, items) && order != []
    ensures var n := |order| - 1;
      && Paired(order[..n], items - {order[n]})
      && |Zip(order, items)| == |order|
      && Zip(order[..n], items - {order[n]}) == Zip(order, items)[..n]
  {
    var n := |order| - 1;
    assert order == order[..n] + [order[n]];
    assert Paired(order[..n], items - {order[n]});
  }

  // ----- the cache -----

  datatype CacheMetrics = CacheMetrics(hits: nat, misses: nat, evictions: nat)

  class CacheContainer<K(==,!new), V(!new)> {
    var maxSize: nat
    var items: map<K, V>
    var order: seq<K>
    var metrics: CacheMetrics

    /** The list and the map hold the same keys, each once. */
    ghost predicate Consistent()
      reads this
    {
      Paired(order, items)
    }

    ghost predicate Valid()
      reads this
    {
      Consistent() && |order| <= maxSize
    }

    ghost function Entries(): (l: Recency<K, V>)
      reads this
      requires Consistent()
    {
      Zip(order, items)
    }

    constructor (size: nat)
      ensures Valid() && maxSize == size && Entries() == [] && metrics == CacheMetrics(0, 0, 0)
    {
      maxSize := size;
      items := map[];
      order := [];
      metrics := CacheMetrics(0, 0, 0);
    }

    method Get(key: K) returns (r: Option<V>)
      requires Valid()
      modifies this`order, this`metrics
      ensures Valid() && r == Lookup(old(Entries()), key) && Entries() == AfterGet(old(Entries()), key)
      ensures metrics == if r.Some? then old(metrics).(hits := old(metrics).hits + 1)
                         else old(metrics).(misses := old(metrics).misses + 1)
    {
      hide Paired, Zip, Lookup, Touch, Spliced;
      ZipLookup(order, items, key);
      if key !in items {
        metrics := metrics.(misses := metrics.misses + 1);
        return None;
      }
      metrics := metrics.(hits := metrics.hits + 1);
      SplicedIs(order, items, key, items[key]);
      order := Spliced(order, key);
      assert items[key := items[key]] == items;
      r := Some(items[key]);
    }

    method Put(key: K, value: V)
      requires Valid()
      modifies this`items, this`order, this`metrics
      ensures Valid() && Entries() == AfterPut(old(Entries()), maxSize, key, value)
      ensures metrics == old(metrics).(evictions := old(metrics).evictions
        + if maxSize == 0 || |Touch(old(Entries()), key, value)| <= maxSize then 0 else 1)
    {
      hide Paired, Zip, Lookup, Touch, Spliced;
      if maxSize == 0 { return; }
      ZipLookup(order, items, key);
      SplicedIs(order, items, key, value);
      if key in items {
        items := items[key := value];
        order := Spliced(order, key);
        return;
      }
      order := [key] + order;
      items := items[key := value];
      EvictIfNeeded();
    }

    /** Drops keys from the back until the size fits. */
    method EvictIfNeeded()
      requires Consistent()
      modifies this`items, this`order, this`metrics
      ensures Valid() && Entries() == Trim(old(Entries()), maxSize)
      ensures metrics == old(metrics).(evictions := old(metrics).evictions
        + if old(|order|) <= maxSize then 0 else old(|order|) - maxSize)
    {
      hide Paired, Zip;
      ZipLength(order, items);
      ghost var was := Zip(order, items);
      while |items| > maxSize && order != []
        invariant Consistent() && |items| == |order| <= |was| && Entries() == was[..|order|]
        invariant |order| == |was| || |order| >= maxSize
        invariant metrics == old(metrics).(evictions := old(metrics).evictions + (|was| - |order|))
        decreases |order|
      {
        var n := |order| - 1;
        DropLast(order, items);
        ZipLength(order[..n], items - {order[n]});
        PrefixOfPrefix(was, n + 1, n);
        items := items - {order[n]};
        order := order[..n];
        metrics := metrics.(evictions := metrics.evictions + 1);
      }
    }

    method SetMaxSize(size: nat)
      requires Valid()
      modifies this
      ensures Valid() && maxSize == size && Entries() == Trim(old(Entries()), size)
      ensures metrics == old(metrics).(evictions := old(metrics).evictions
        + if old(|order|) <= size then 0 else old(|order|) - size)
    {
      ghost var was := Entries();
      maxSize := size;
      assert Entries() == was;
      EvictIfNeeded();
    }

    method Clear()
      requires Valid()
      modifies this`items, this`order
      ensures Valid() && Entries() == []
    {
      items := map[];
      order := [];
    }

    method ResetMetrics()
      requires Valid()
      modifies this`metrics
      ensures Valid() && Entries() == old(Entries()) && metrics == CacheMetrics(0, 0, 0)
    {
      metrics := CacheMetrics(0, 0, 0);
    }
  }
}
