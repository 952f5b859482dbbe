/** Why the cache is least-recently-used: its list is in the order of last use, and what a put drops was used
    before everything that stays. */
module LruOrder {
  import opened Rings
  import opened Lru
  import opened LruRuns

  /** The time of the last put of k, or of the last get that found it; -1 if there is none. */
  ghost function LastUse<K, V>(max: nat, ops: seq<Op<K, V>>, k: K): int {
    if ops == [] then -1
    else
      var before := ops[..|ops| - 1];
      match ops[|ops| - 1]
      case Put(j, _) => if j == k && Run(max, before).max > 0 then |before| else LastUse(max, before, k)
      case Get(j) => if j == k && Has(Run(max, before).list, k) then |before| else LastUse(max, before, k)
      case _ => LastUse(max, before, k)
  }

  lemma {:induction false} LastUseIsPast<K(!new), V(!new)>(max: nat, ops: seq<Op<K, V>>, k: K)
    ensures -1 <= LastUse(max, ops, k) < |ops|
  {
    if ops != [] { LastUseIsPast(max, ops[..|ops| - 1], k); }
  }

  ghost predicate Descending<K, V>(l: Recency<K, V>, f: K -> int) {
    forall i, j :: 0 <= i < j < |l| ==> f(l[i].0) > f(l[j].0)
  }

  // taking a key out keeps the order of the others
  lemma {:induction false} WithoutDescending<K(!new), V(!new)>(l: Recency<K, V>, k: K, f: K -> int, g: K -> int)
    requires Descending(l, f) && forall x :: x != k ==> g(x) == f(x)
    ensures Descending(Without(l, k), g)
    ensures forall x :: x in Without(l, k) ==> x in l && x.0 != k
  {
    if l != [] {
      var (t, w) := (l[1..], Without(l[1..], k));
      HeadIsLargest(l, f);
      WithoutDescending(t, k, f, g);
      if l[0].0 != k { PutInFront(l[0], w, g); }
    }
  }

  lemma HeadIsLargest<K(!new), V(!new)>(l: Recency<K, V>, f: K -> int)
    requires l != [] && Descending(l, f)
    ensures Descending(l[1..], f) && forall x :: x in l[1..] ==> f(l[0].0) > f(x.0)
    ensures forall x :: x in l <==> x == l[0] || x in l[1..]
  {
    var t := l[1..];
    assert l == [l[0]] + t;
    forall x | x in t ensures f(l[0].0) > f(x.0) {
      var m :| 0 <= m < |t| && t[m] == x;
      assert l[m + 1] == t[m];
    }
  }

  lemma PutInFront<K(!new), V(!new)>(x: (K, V), w: Recency<K, V>, g: K -> int)
    requires Descending(w, g) && forall y :: y in w ==> g(x.0) > g(y.0)
    ensures Descending([x] + w, g)
  {
    var r := [x] + w;
    forall i, j | 0 <= i < j < |r| ensures g(r[i].0) > g(r[j].0) {
      assert r[j] == w[j - 1] && w[j - 1] in w;
      if i > 0 { assert r[i] == w[i - 1]; }
    }
  }

  ghost function Uses<K(!new), V(!new)>(max: nat, ops: seq<Op<K, V>>): K -> int {
    k => LastUse(max, ops, k)
  }

  // the touched key was used last
  lemma TouchDescending<K(!new), V(!new)>(l: Recency<K, V>, k: K, v: V, f: K -> int, g: K -> int)
    requires Descending(l, f) && (forall x :: x != k ==> g(x) == f(x)) && forall x :: x != k ==> g(x) < g(k)
    ensures Descending(Touch(l, k, v), g)
  {
    WithoutDescending(l, k, f, g);
    PutInFront((k, v), Without(l, k), g);
  }

  /** Over every run, the list is in the order of last use, most recent first. */
  lemma {:induction false} ListIsByLastUse<K(!new), V(!new)>(max: nat, ops: seq<Op<K, V>>)
    ensures Descending(Run(max, ops).list, Uses(max, ops))
  {
    if ops != [] {
      var (before, op) := (ops[..|ops| - 1], ops[|ops| - 1]);
      var l := Run(max, before).list;
      ListIsByLastUse(max, before);
      RunKeeps(max, before);
      forall k ensures LastUse(max, before, k) < |before| { LastUseIsPast(max, before, k); }
      match op
      case Get(k) =>
        LookupIs(l, k);
        if Lookup(l, k).Some? {
          TouchDescending(l, k, Lookup(l, k).value, Uses(max, before), Uses(max, ops));
        }
      case Put(k, v) =>
        if Run(max, before).max > 0 { TouchDescending(l, k, v, Uses(max, before), Uses(max, ops)); }
      case _ =>
    }
  }

  /** What a put drops was used before every key that stays, and nothing is dropped while there is room. */
  lemma PutDropsOldest<K(!new), V(!new)>(max: nat, ops: seq<Op<K, V>>, k: K, v: V)
    ensures var (c, d) := (Run(max, ops), Run(max, ops + [Put(k, v)]));
      && d.max == c.max
      && |d.list| == (if c.max == 0 then 0
                      else if Has(c.list, k) || |c.list| == c.max then |c.list| else |c.list| + 1)
      && (c.max > 0 ==> Lookup(d.list, k) == Some(v))
      && forall x, y :: x in c.list && x.0 != k && x !in d.list && y in d.list ==>
           LastUse(max, ops + [Put(k, v)], x.0) < LastUse(max, ops + [Put(k, v)], y.0)
  {
    var all := ops + [Op<K, V>.Put(k, v)];
    assert all[..|all| - 1] == ops;
    var (c, d) := (Run(max, ops), Run(max, all));
    RunKeeps(max, ops);
    WithoutIs(c.list, k);
    if c.max > 0 {
      var t := Touch(c.list, k, v);
      TouchIs(c.list, k, v);
      assert Lookup(d.list, k) == Some(v);
      forall j ensures LastUse(max, ops, j) < |ops| { LastUseIsPast(max, ops, j); }
      ListIsByLastUse(max, ops);
      TouchDescending(c.list, k, v, Uses(max, ops), Uses(max, all));
      forall x, y | x in c.list && x.0 != k && x !in d.list && y in d.list
        ensures LastUse(max, all, x.0) < LastUse(max, all, y.0)
      {
        assert x in Without(c.list, k);
        Later(t, c.max, x, y, Uses(max, all));
      }
    }
  }

  lemma KeptInTrim<T>(t: seq<T>, n: nat, i: nat)
    requires i < |t|
    ensures i < n ==> t[i] in Trim(t, n)
  {
    if i < n { assert Trim(t, n)[i] == t[i]; }
  }

  // in a list by last use, what is cut off was used before what is not
  lemma Later<K(!new), V(!new)>(t: Recency<K, V>, n: nat, x: (K, V), y: (K, V), f: K -> int)
    requires Descending(t, f) && x in t && x !in Trim(t, n) && y in Trim(t, n)
    ensures f(x.0) < f(y.0)
  {
    var i :| 0 <= i < |t| && t[i] == x;
    var j :| 0 <= j < |Trim(t, n)| && Trim(t, n)[j] == y;
    KeptInTrim(t, n, i);
  }
}
