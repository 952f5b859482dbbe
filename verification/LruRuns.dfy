/** Whole runs of the least-recently-used cache: what every run keeps, and when a cache stays included in
    a larger one. */
module LruRuns {
  import opened Rings
  import opened Lru

  datatype Op<K, V> = Get(key: K) | Put(key: K, value: V) | Clear | Resize(size: nat)

  /** The recency list and the capacity. */
  datatype Cache<K, V> = Cache(list: Recency<K, V>, max: nat)

  function Step<K(==), V>(c: Cache<K, V>, op: Op<K, V>): Cache<K, V> {
    match op
    case Get(k) => c.(list := AfterGet(c.list, k))
    case Put(k, v) => c.(list := AfterPut(c.list, c.max, k, v))
    case Clear => c.(list := [])
    case Resize(n) => Cache(Trim(c.list, n), n)
  }

  function RunFrom<K(==), V>(c: Cache<K, V>, ops: seq<Op<K, V>>): Cache<K, V> {
    if ops == [] then c else Step(RunFrom(c, ops[..|ops| - 1]), ops[|ops| - 1])
  }

  /** A run from the empty cache. */
  function Run<K(==), V>(max: nat, ops: seq<Op<K, V>>): Cache<K, V> {
    RunFrom(Cache([], max), ops)
  }

  function Hits<K(==), V>(max: nat, ops: seq<Op<K, V>>): nat {
    if ops == [] then 0
    else
      var (before, op) := (ops[..|ops| - 1], ops[|ops| - 1]);
      Hits(max, before) + if op.Get? && Lookup(Run(max, before).list, op.key).Some? then 1 else 0
  }

  /** The value most recently put for k since the last clear. */
  function LastPut<K(==), V>(ops: seq<Op<K, V>>, k: K): Option<V> {
    if ops == [] then None
    else match ops[|ops| - 1]
      case Clear => None
      case Put(j, v) => if j == k then Some(v) else LastPut(ops[..|ops| - 1], k)
      case _ => LastPut(ops[..|ops| - 1], k)
  }

  // ----- what every run keeps -----

  ghost predicate Fits<K, V>(c: Cache<K, V>) {
    Distinct(c.list) && |c.list| <= c.max
  }

  lemma StepKeeps<K(!new), V(!new)>(c: Cache<K, V>, op: Op<K, V>)
    requires Fits(c)
    ensures Fits(Step(c, op))
  {
    match op
    case Get(k) =>
      LookupIs(c.list, k);
      if Lookup(c.list, k).Some? { TouchIs(c.list, k, Lookup(c.list, k).value); }
    case Put(k, v) => TouchIs(c.list, k, v);
    case Clear =>
    case Resize(_) =>
  }

  lemma {:induction false} RunFromKeeps<K(!new), V(!new)>(c: Cache<K, V>, ops: seq<Op<K, V>>)
    requires Fits(c)
    ensures Fits(RunFrom(c, ops))
  {
    if ops != [] {
      RunFromKeeps(c, ops[..|ops| - 1]);
      StepKeeps(RunFrom(c, ops[..|ops| - 1]), ops[|ops| - 1]);
    }
  }

  /** Over every run, changes of capacity included, the keys are distinct and the size is within capacity. */
  lemma RunKeeps<K(!new), V(!new)>(max: nat, ops: seq<Op<K, V>>)
    ensures Fits(Run(max, ops))
  {
    RunFromKeeps(Cache([], max), ops);
  }

  /** Every entry of every run holds the last value put for its key since the last clear. */
  lemma {:induction false} EntriesAreLastPut<K(!new), V(!new)>(max: nat, ops: seq<Op<K, V>>, k: K, v: V)
    requires (k, v) in Run(max, ops).list
    ensures LastPut(ops, k) == Some(v)
  {
    var (before, op) := (ops[..|ops| - 1], ops[|ops| - 1]);
    var l := Run(max, before).list;
    RunKeeps(max, before);
    match op
    case Clear =>
    case Resize(_) =>
      assert (k, v) in l;
      EntriesAreLastPut(max, before, k, v);
    case Get(j) =>
      LookupIs(l, j);
      WithoutIs(l, j);
      assert (k, v) in l by {
        if Lookup(l, j).Some? { assert (j, Lookup(l, j).value) in l; }
      }
      EntriesAreLastPut(max, before, k, v);
    case Put(j, w) =>
      WithoutIs(l, j);
      if j != k {
        assert (k, v) in l;
        EntriesAreLastPut(max, before, k, v);
      } else if Run(max, before).max > 0 {
        assert (k, v) in Touch(l, j, w);
        assert (k, v) !in Without(l, j);
      }
  }

  /** A hit returns the last value put since the last clear, whatever happened to the capacity. */
  lemma HitIsLastPut<K(!new), V(!new)>(max: nat, ops: seq<Op<K, V>>, k: K)
    ensures Lookup(Run(max, ops).list, k).Some? ==> LastPut(ops, k) == Lookup(Run(max, ops).list, k)
  {
    var l := Run(max, ops).list;
    RunKeeps(max, ops);
    LookupIs(l, k);
    if Lookup(l, k).Some? { EntriesAreLastPut(max, ops, k, Lookup(l, k).value); }
  }

  // ----- inclusion of lists -----

  /** a is b with some entries left out. */
  ghost predicate Included<T(!new)>(a: seq<T>, b: seq<T>) {
    a == [] || (b != [] && ((a[0] == b[0] && Included(a[1..], b[1..])) || Included(a, b[1..])))
  }

  lemma {:induction false} IncludedMembers<T(!new)>(a: seq<T>, b: seq<T>, x: T)
    requires Included(a, b) && x in a
    ensures x in b
  {
    assert a == [a[0]] + a[1..];
    if a[0] == b[0] && Included(a[1..], b[1..]) {
      if x in a[1..] { IncludedMembers(a[1..], b[1..], x); }
    } else {
      IncludedMembers(a, b[1..], x);
    }
  }

  lemma {:induction false} IncludedLength<T(!new)>(a: seq<T>, b: seq<T>)
    requires Included(a, b)
    ensures |a| <= |b|
  {
    if a != [] {
      if a[0] == b[0] && Included(a[1..], b[1..]) {
        IncludedLength(a[1..], b[1..]);
      } else {
        IncludedLength(a, b[1..]);
      }
    }
  }

  // dropping the last entry of both, or of the smaller one
  lemma {:induction false} IncludedShorter<T(!new)>(a: seq<T>, b: seq<T>)
    requires Included(a, b) && a != []
    ensures b != [] && Included(a[..|a| - 1], b[..|b| - 1]) && Included(a[..|a| - 1], b)
  {
    var (c, d) := (a[..|a| - 1], b[..|b| - 1]);
    if |a| > 1 {
      if a[0] == b[0] && Included(a[1..], b[1..]) {
        IncludedShorter(a[1..], b[1..]);
        assert c[1..] == a[1..][..|a| - 2] && d[1..] == b[1..][..|b| - 2];
      } else {
        IncludedShorter(a, b[1..]);
        assert d[1..] == b[1..][..|b| - 2];
      }
    }
  }

  lemma {:induction false} IncludedPrefix<T(!new)>(a: seq<T>, b: seq<T>, n: nat)
    requires Included(a, b) && n <= |a|
    ensures Included(a[..n], b)
    decreases |a|
  {
    if n == |a| {
      assert a[..n] == a;
    } else {
      IncludedShorter(a, b);
      IncludedPrefix(a[..|a| - 1], b, n);
      assert a[..|a| - 1][..n] == a[..n];
    }
  }

  // an included list whose entries are all in a prefix is included in the prefix
  lemma {:induction false} IncludedInPrefix<K(!new), V(!new)>(a: Recency<K, V>, b: Recency<K, V>, m: nat)
    requires Distinct(a) && Distinct(b) && Included(a, b) && m <= |b| && forall x :: x in a ==> x in b[..m]
    ensures Included(a, b[..m])
  {
    if a != [] {
      assert a[0] in b[..m];
      assert b[..m][0] == b[0] && b[..m][1..] == b[1..][..m - 1];
      if a[0] == b[0] && Included(a[1..], b[1..]) {
        forall x | x in a[1..] ensures x in b[1..][..m - 1] { InTail(b, m, a, x); }
        IncludedInPrefix(a[1..], b[1..], m - 1);
      } else {
        forall x | x in a ensures x in b[1..][..m - 1] {
          IncludedMembers(a, b[1..], x);
          NotFirst(b, x);
          assert x in [b[0]] + b[1..][..m - 1];
        }
        IncludedInPrefix(a, b[1..], m - 1);
      }
    }
  }

  lemma NotFirst<K(!new), V(!new)>(b: Recency<K, V>, x: (K, V))
    requires Distinct(b) && b != [] && x in b[1..]
    ensures x != b[0]
  {}

  lemma InTail<K(!new), V(!new)>(b: Recency<K, V>, m: nat, a: Recency<K, V>, x: (K, V))
    requires Distinct(a) && a != [] && 0 < m <= |b| && a[0] == b[0] && x in a[1..] && x in b[..m]
    ensures x in b[1..][..m - 1]
  {
    NotFirst(a, x);
    assert b[..m] == [b[0]] + b[1..][..m - 1];
  }

  lemma {:induction false} IncludedWithout<K(!new), V(!new)>(a: Recency<K, V>, b: Recency<K, V>, k: K)
    requires Included(a, b)
    ensures Included(Without(a, k), Without(b, k))
  {
    if a != [] {
      if a[0] == b[0] && Included(a[1..], b[1..]) {
        IncludedWithout(a[1..], b[1..], k);
        if a[0].0 != k {
          assert Without(a, k)[1..] == Without(a[1..], k) && Without(b, k)[1..] == Without(b[1..], k);
        }
      } else {
        IncludedWithout(a, b[1..], k);
        if b[0].0 != k { assert Without(b, k)[1..] == Without(b[1..], k); }
      }
    }
  }

  lemma IncludedTouch<K(!new), V(!new)>(a: Recency<K, V>, b: Recency<K, V>, k: K, v: V)
    requires Included(a, b)
    ensures Included(Touch(a, k, v), Touch(b, k, v))
  {
    IncludedWithout(a, b, k);
    assert Touch(a, k, v)[1..] == Without(a, k) && Touch(b, k, v)[1..] == Without(b, k);
  }

  lemma IncludedHas<K(!new), V(!new)>(a: Recency<K, V>, b: Recency<K, V>, k: K)
    requires Included(a, b) && Has(a, k)
    ensures Has(b, k)
  {
    var i :| 0 <= i < |a| && a[i].0 == k;
    IncludedMembers(a, b, a[i]);
  }

  // ----- when inclusion survives -----

  /** The larger cache has at least as much room left as the smaller one. */
  predicate Roomier<K, V>(a: Cache<K, V>, b: Cache<K, V>) {
    a.max - |a.list| <= b.max - |b.list|
  }

  /** An empty cache for a single entry: it holds what was put last, and the other one keeps that in front. */
  predicate Single<K, V>(a: Cache<K, V>, b: Cache<K, V>) {
    a.list == [] && a.max == 1 <= b.max
  }

  ghost predicate Safe<K(!new), V(!new)>(a: Cache<K, V>, b: Cache<K, V>) {
    Fits(a) && Fits(b) && Included(a.list, b.list) && (Roomier(a, b) || Single(a, b))
  }

  lemma SafeLookup<K(!new), V(!new)>(a: Cache<K, V>, b: Cache<K, V>, k: K)
    requires Safe(a, b) && Lookup(a.list, k).Some?
    ensures Lookup(b.list, k) == Lookup(a.list, k)
  {
    LookupIs(a.list, k);
    LookupIs(b.list, k);
    IncludedMembers(a.list, b.list, (k, Lookup(a.list, k).value));
  }

  // get keeps the sizes, and misses in the smaller cache move nothing there
  lemma IncludedGet<K(!new), V(!new)>(a: Cache<K, V>, b: Cache<K, V>, k: K)
    requires Fits(a) && Fits(b) && Included(a.list, b.list)
    ensures Included(AfterGet(a.list, k), AfterGet(b.list, k))
    ensures |AfterGet(a.list, k)| == |a.list| && |AfterGet(b.list, k)| == |b.list|
  {
    LookupIs(a.list, k);
    LookupIs(b.list, k);
    if Lookup(b.list, k).Some? { TouchIs(b.list, k, Lookup(b.list, k).value); }
    if Lookup(a.list, k).Some? {
      IncludedMembers(a.list, b.list, (k, Lookup(a.list, k).value));
      IncludedTouch(a.list, b.list, k, Lookup(a.list, k).value);
      TouchIs(a.list, k, Lookup(a.list, k).value);
    } else if Lookup(b.list, k).Some? {
      IncludedWithout(a.list, b.list, k);
      WithoutIs(a.list, k);
      assert Touch(b.list, k, Lookup(b.list, k).value)[1..] == Without(b.list, k);
    }
  }

  lemma SafePut<K(!new), V(!new)>(a: Cache<K, V>, b: Cache<K, V>, k: K, v: V)
    requires Safe(a, b)
    ensures Safe(Step(a, Put(k, v)), Step(b, Put(k, v)))
  {
    StepKeeps(a, Put(k, v));
    StepKeeps(b, Put(k, v));
    IncludedLength(a.list, b.list);
    if a.max > 0 {
      var (x, y) := (Touch(a.list, k, v), Touch(b.list, k, v));
      IncludedTouch(a.list, b.list, k, v);
      TouchIs(a.list, k, v);
      TouchIs(b.list, k, v);
      if Has(a.list, k) { IncludedHas(a.list, b.list, k); }
      if |x| > a.max { IncludedShorter(x, y); }
      if |x| <= a.max && |y| > b.max { assert a.list == [] && y[..b.max][0] == (k, v) && x == [(k, v)]; }
    }
  }

  lemma SafeStep<K(!new), V(!new)>(a: Cache<K, V>, b: Cache<K, V>, op: Op<K, V>)
    requires Safe(a, b) && !op.Resize?
    ensures Safe(Step(a, op), Step(b, op))
  {
    hide Included;
    StepKeeps(a, op);
    StepKeeps(b, op);
    match op
    case Get(k) => IncludedGet(a, b, k);
    case Put(k, v) => SafePut(a, b, k, v);
    case Clear =>
      IncludedLength(a.list, b.list);
      EmptyIncluded<(K, V)>([]);
  }

  lemma EmptyIncluded<T(!new)>(b: seq<T>)
    ensures Included([], b)
  {}

  // ----- changes of capacity -----

  /** What can be read off the two lists before their capacities are set: every entry the smaller cache
      keeps, the larger one keeps, and the room left is as it should be. */
  ghost predicate ResizeOk<K(!new), V(!new)>(a: Cache<K, V>, m: nat, b: Cache<K, V>, n: nat) {
    && (forall x :: x in Trim(a.list, m) ==> x in Trim(b.list, n))
    && (Roomier(Step(a, Resize(m)), Step(b, Resize(n))) || Single(Step(a, Resize(m)), Step(b, Resize(n))))
  }

  /** Cut to any two capacities, an included list stays included exactly when its entries survive. */
  lemma TrimIncludedIff<K(!new), V(!new)>(a: Recency<K, V>, m: nat, b: Recency<K, V>, n: nat)
    requires Distinct(a) && Distinct(b) && Included(a, b)
    ensures Included(Trim(a, m), Trim(b, n)) <==> forall x :: x in Trim(a, m) ==> x in Trim(b, n)
  {
    if Included(Trim(a, m), Trim(b, n)) {
      forall x | x in Trim(a, m) ensures x in Trim(b, n) { IncludedMembers(Trim(a, m), Trim(b, n), x); }
    }
    if forall x :: x in Trim(a, m) ==> x in Trim(b, n) {
      if |a| > m { IncludedPrefix(a, b, m); }
      if |b| > n { IncludedInPrefix(Trim(a, m), b, n); }
    }
  }

  /** Setting the capacities keeps the two caches safe exactly under that condition. */
  lemma ResizeSafeIff<K(!new), V(!new)>(a: Cache<K, V>, m: nat, b: Cache<K, V>, n: nat)
    requires Fits(a) && Fits(b) && Included(a.list, b.list)
    ensures Safe(Step(a, Resize(m)), Step(b, Resize(n))) <==> ResizeOk(a, m, b, n)
  {
    hide Included;
    StepKeeps(a, Op<K, V>.Resize(m));
    StepKeeps(b, Op<K, V>.Resize(n));
    TrimIncludedIff(a.list, m, b.list, n);
  }

  // ----- whole runs -----

  /** The same uses of both caches; only the sizes they are set to may differ. */
  ghost predicate SameUses<K, V>(p: seq<Op<K, V>>, q: seq<Op<K, V>>) {
    |p| == |q| && forall i :: 0 <= i < |p| ==> p[i] == q[i] || (p[i].Resize? && q[i].Resize?)
  }

  /** Whenever the capacities are set, the condition holds of the two lists at that moment. */
  ghost predicate ResizesOk<K(!new), V(!new)>(A: nat, p: seq<Op<K, V>>, B: nat, q: seq<Op<K, V>>)
    requires |p| == |q|
  {
    forall i :: 0 <= i < |p| && p[i].Resize? && q[i].Resize? ==>
      ResizeOk(Run(A, p[..i]), p[i].size, Run(B, q[..i]), q[i].size)
  }

  lemma ResizesBefore<K(!new), V(!new)>(A: nat, p: seq<Op<K, V>>, B: nat, q: seq<Op<K, V>>)
    requires p != [] && SameUses(p, q) && ResizesOk(A, p, B, q)
    ensures SameUses(p[..|p| - 1], q[..|q| - 1]) && ResizesOk(A, p[..|p| - 1], B, q[..|q| - 1])
  {
    hide ResizeOk, Run;
    var (s, t) := (p[..|p| - 1], q[..|q| - 1]);
    forall i | 0 <= i < |s| && s[i].Resize? && t[i].Resize?
      ensures ResizeOk(Run(A, s[..i]), s[i].size, Run(B, t[..i]), t[i].size)
    {
      assert s[..i] == p[..i] && t[..i] == q[..i];
    }
  }

  /** Over every run whose changes of capacity meet the condition, the smaller cache stays included in the
      larger one.  Without changes of capacity there is no condition. */
  lemma {:induction false} Inclusion<K(!new), V(!new)>(A: nat, p: seq<Op<K, V>>, B: nat, q: seq<Op<K, V>>)
    requires A <= B && SameUses(p, q) && ResizesOk(A, p, B, q)
    ensures Safe(Run(A, p), Run(B, q))
  {
    hide Safe, ResizeOk, Step;
    if p == [] {
      StartsSafe<K, V>(A, B);
    } else {
      var n := |p| - 1;
      ResizesBefore(A, p, B, q);
      Inclusion(A, p[..n], B, q[..n]);
      var (a, b) := (Run(A, p[..n]), Run(B, q[..n]));
      if p[n].Resize? && q[n].Resize? {
        SafeParts(a, b);
        ResizeSafeIff(a, p[n].size, b, q[n].size);
      } else {
        SafeStep(a, b, p[n]);
      }
    }
  }

  lemma StartsSafe<K(!new), V(!new)>(A: nat, B: nat)
    requires A <= B
    ensures Safe(Run<K, V>(A, []), Run<K, V>(B, []))
  {}

  lemma SafeParts<K(!new), V(!new)>(a: Cache<K, V>, b: Cache<K, V>)
    requires Safe(a, b)
    ensures Fits(a) && Fits(b) && Included(a.list, b.list)
  {}

  /** Over such runs hits never decrease with capacity. */
  lemma {:induction false} HitsGrow<K(!new), V(!new)>(A: nat, p: seq<Op<K, V>>, B: nat, q: seq<Op<K, V>>)
    requires A <= B && SameUses(p, q) && ResizesOk(A, p, B, q)
    ensures Hits(A, p) <= Hits(B, q)
  {
    hide Safe, ResizeOk, ResizesOk, Step, RunFrom;
    if p != [] {
      var n := |p| - 1;
      ResizesBefore(A, p, B, q);
      HitsGrow(A, p[..n], B, q[..n]);
      Inclusion(A, p[..n], B, q[..n]);
      if p[n].Get? && Lookup(Run(A, p[..n]).list, p[n].key).Some? {
        SafeLookup(Run(A, p[..n]), Run(B, q[..n]), p[n].key);
      }
    }
  }

  ghost predicate NoResize<K, V>(ops: seq<Op<K, V>>) {
    forall i :: 0 <= i < |ops| ==> !ops[i].Resize?
  }

  /** At fixed capacities, over every run of gets, puts and clears. */
  lemma FixedCapacities<K(!new), V(!new)>(A: nat, B: nat, ops: seq<Op<K, V>>)
    requires A <= B && NoResize(ops)
    ensures Included(Run(A, ops).list, Run(B, ops).list) && Hits(A, ops) <= Hits(B, ops)
  {
    Inclusion(A, ops, B, ops);
    HitsGrow(A, ops, B, ops);
  }

  // ----- the condition is exact -----

  lemma {:induction false} RunCons<K(!new), V(!new)>(c: Cache<K, V>, op: Op<K, V>, ops: seq<Op<K, V>>)
    ensures RunFrom(c, [op] + ops) == RunFrom(Step(c, op), ops)
  {
    hide Step;
    var all := [op] + ops;
    if ops == [] {
      assert all == [op] && all[..|all| - 1] == [];
    } else {
      RunCons(c, op, ops[..|ops| - 1]);
      assert all[..|all| - 1] == [op] + ops[..|ops| - 1];
    }
  }

  lemma {:induction false} SafeRun<K(!new), V(!new)>(a: Cache<K, V>, b: Cache<K, V>, ops: seq<Op<K, V>>)
    requires Safe(a, b) && NoResize(ops)
    ensures Safe(RunFrom(a, ops), RunFrom(b, ops))
  {
    hide Safe, Step;
    if ops != [] {
      SafeRun(a, b, ops[..|ops| - 1]);
      SafeStep(RunFrom(a, ops[..|ops| - 1]), RunFrom(b, ops[..|ops| - 1]), ops[|ops| - 1]);
    }
  }

  ghost predicate NewTo<K>(ks: seq<K>, k: K) {
    k !in ks
  }

  ghost predicate SomeNew<K(!new)>(ks: seq<K>) {
    exists k: K :: NewTo(ks, k)
  }

  /** The keys do not run out: no list holds them all.  The integers are such keys (IntegersAreEndless), and so
      is every type with infinitely many values. */
  ghost predicate Endless<K(!new)>() {
    forall ks: seq<K> :: SomeNew(ks)
  }

  lemma IntegersAreEndless()
    ensures Endless<int>()
  {
    forall ks: seq<int> ensures SomeNew(ks) {
      assert NewTo(ks, Above(ks));
    }
  }

  ghost function Above(ks: seq<int>): (k: int)
    ensures forall i :: 0 <= i < |ks| ==> ks[i] < k
  {
    if ks == [] then 0
    else
      var (k, last) := (Above(ks[..|ks| - 1]), ks[|ks| - 1]);
      if last < k then k else last + 1
  }

  ghost function Keys<K, V>(l: Recency<K, V>): (ks: seq<K>)
    ensures |ks| == |l| && forall i :: 0 <= i < |l| ==> ks[i] == l[i].0
  {
    seq(|l|, i requires 0 <= i < |l| => l[i].0)
  }

  lemma NewKey<K(!new), V(!new)>(a: Recency<K, V>, b: Recency<K, V>) returns (k: K)
    requires Endless<K>()
    ensures !Has(a, k) && !Has(b, k)
  {
    var (l, m) := (Keys(a), Keys(b));
    assert SomeNew(l + m);
    k :| NewTo(l + m, k);
    forall i | 0 <= i < |a| ensures a[i].0 != k { assert l[i] in l + m; }
    forall i | 0 <= i < |b| ensures b[i].0 != k { assert m[i] in l + m; }
  }

  // a fresh key goes in front, and the last entry out when there is no room
  lemma FreshPut<K(!new), V(!new)>(c: Cache<K, V>, k: K, v: V)
    requires Fits(c) && !Has(c.list, k)
    ensures Step(c, Put(k, v)).max == c.max
    ensures |c.list| < c.max ==> Step(c, Put(k, v)).list == [(k, v)] + c.list
    ensures 0 < c.max == |c.list| ==> Step(c, Put(k, v)).list == [(k, v)] + c.list[..c.max - 1]
    ensures c.max == 0 ==> Step(c, Put(k, v)).list == c.list
  {
    WithoutIs(c.list, k);
    if 0 < c.max == |c.list| {
      assert ([(k, v)] + c.list)[..c.max] == [(k, v)] + c.list[..c.max - 1];
    }
  }

  lemma IncludedCons<T(!new)>(x: T, a: seq<T>, b: seq<T>)
    requires Included(a, b)
    ensures Included([x] + a, [x] + b)
  {
    assert ([x] + a)[1..] == a && ([x] + b)[1..] == b;
  }

  /** How far the last entry of b that a holds is from the end of b. */
  ghost function Tail<T(!new)>(a: seq<T>, b: seq<T>): nat {
    if b == [] || b[|b| - 1] in a then 0 else 1 + Tail(a, b[..|b| - 1])
  }

  // moving the last entry of b to its front
  lemma LastToFront<K(!new), V(!new)>(c: Cache<K, V>)
    requires Fits(c) && c.list != []
    ensures var n := |c.list| - 1; Step(c, Get(c.list[n].0)) == Cache([c.list[n]] + c.list[..n], c.max)
  {
    var l := c.list;
    var n := |l| - 1;
    LookupIs(l, l[n].0);
    assert l[n] in l && l[n] == (l[n].0, l[n].1);
    WithoutLast(l);
  }

  lemma {:induction false} WithoutLast<K(!new), V(!new)>(l: Recency<K, V>)
    requires Distinct(l) && l != []
    ensures Without(l, l[|l| - 1].0) == l[..|l| - 1]
  {
    var n := |l| - 1;
    if n > 0 {
      WithoutLast(l[1..]);
      assert l[1..][|l[1..]| - 1] == l[n];
      assert l[..n] == [l[0]] + l[1..][..n - 1];
    } else {
      assert l[1..] == [];
    }
  }

  lemma {:induction false} TailMoves<T(!new)>(a: seq<T>, b: seq<T>, x: T)
    requires x !in a && (exists y :: y in a && y in b)
    ensures Tail(a, [x] + b) == Tail(a, b)
  {
    if b[|b| - 1] in a {
      assert ([x] + b)[|b|] == b[|b| - 1];
    } else {
      var y :| y in a && y in b;
      assert b == b[..|b| - 1] + [b[|b| - 1]];
      assert y in b[..|b| - 1];
      TailMoves(a, b[..|b| - 1], x);
      assert ([x] + b)[..|b|] == [x] + b[..|b| - 1];
    }
  }

  lemma GetMisses<K(!new), V(!new)>(a: Cache<K, V>, k: K)
    requires Fits(a) && !Has(a.list, k)
    ensures Step(a, Get(k)) == a
  {
    LookupIs(a.list, k);
  }

  // an entry of b that a does not hold has a key that a does not hold
  lemma NotHeld<K(!new), V(!new)>(a: Recency<K, V>, b: Recency<K, V>, n: nat)
    requires Distinct(b) && Included(a, b) && n < |b| && b[n] !in a
    ensures !Has(a, b[n].0)
  {
    forall i | 0 <= i < |a| ensures a[i].0 != b[n].0 {
      IncludedMembers(a, b, a[i]);
      var j :| 0 <= j < |b| && b[j] == a[i];
    }
  }

  // the last entry of b, not held by a: getting it moves it out of the way
  lemma LastIsMoved<K(!new), V(!new)>(a: Cache<K, V>, b: Cache<K, V>)
    requires Fits(a) && Fits(b) && Included(a.list, b.list) && a.list != [] && b.list != []
    requires b.list[|b.list| - 1] !in a.list
    ensures var (n, op) := (|b.list| - 1, Op<K, V>.Get(b.list[|b.list| - 1].0));
      && Step(a, op) == a && Step(b, op) == Cache([b.list[n]] + b.list[..n], b.max)
      && Included(a.list, [b.list[n]] + b.list[..n])
      && Tail(a.list, [b.list[n]] + b.list[..n]) < Tail(a.list, b.list)
  {
    var (n, x, k) := (|b.list| - 1, b.list[|b.list| - 1], b.list[|b.list| - 1].0);
    NotHeld(a.list, b.list, n);
    GetMisses(a, k);
    LastToFront(b);
    IncludedGet(a, b, k);
    IncludedMembers(a.list, b.list, a.list[0]);
    assert b.list == b.list[..n] + [x];
    assert a.list[0] in b.list[..n];
    TailMoves(a.list, b.list[..n], x);
  }

  // the last entry of b is held by a: a fresh key pushes it out of b only
  lemma LastIsLost<K(!new), V(!new)>(a: Cache<K, V>, b: Cache<K, V>, k: K, v: V)
    requires Fits(a) && Fits(b) && Included(a.list, b.list) && |a.list| < a.max && 0 < b.max == |b.list|
    requires b.list[b.max - 1] in a.list && !Has(a.list, k) && !Has(b.list, k)
    ensures !Included(Step(a, Put(k, v)).list, Step(b, Put(k, v)).list)
  {
    hide Included;
    FreshPut(a, k, v);
    FreshPut(b, k, v);
    var (x, s, t) := (b.list[b.max - 1], [(k, v)] + a.list, [(k, v)] + b.list[..b.max - 1]);
    assert x in s;
    forall i | 0 <= i < |t| ensures t[i] != x {
      if i > 0 { assert t[i] == b.list[i - 1]; }
    }
    if Included(s, t) { IncludedMembers(s, t, x); }
  }

  lemma Continued<K(!new), V(!new)>(a: Cache<K, V>, b: Cache<K, V>, op: Op<K, V>, rest: seq<Op<K, V>>)
    requires !op.Resize? && NoResize(rest)
    requires !Included(RunFrom(Step(a, op), rest).list, RunFrom(Step(b, op), rest).list)
    ensures NoResize([op] + rest) && !Included(RunFrom(a, [op] + rest).list, RunFrom(b, [op] + rest).list)
  {
    RunCons(a, op, rest);
    RunCons(b, op, rest);
  }

  /** Included caches that are not safe: some gets and puts break inclusion. */
  lemma {:induction false} Breaks<K(!new), V(!new)>(a: Cache<K, V>, b: Cache<K, V>, v: V) returns (ops: seq<Op<K, V>>)
    requires Endless<K>() && Fits(a) && Fits(b) && Included(a.list, b.list) && !Roomier(a, b) && !Single(a, b)
    ensures NoResize(ops) && !Included(RunFrom(a, ops).list, RunFrom(b, ops).list)
    decreases b.max - |b.list|, if a.list == [] then 1 else 0, Tail(a.list, b.list)
  {
    hide Included, RunFrom, Step, Tail;
    IncludedLength(a.list, b.list);
    var k := NewKey(a.list, b.list);
    FreshPut(a, k, v);
    FreshPut(b, k, v);
    var put := Op<K, V>.Put(k, v);
    StepKeeps(a, put);
    StepKeeps(b, put);
    if |b.list| < b.max {
      IncludedCons((k, v), a.list, b.list);
      var rest := Breaks(Step(a, put), Step(b, put), v);
      Continued(a, b, put, rest);
      ops := [put] + rest;
    } else if b.max == 0 {
      NothingIncludes((k, v), a.list);
      assert b.list == [];
      EmptyRun(Step(a, put), Step(b, put));
      Continued(a, b, put, []);
      ops := [put] + [];
    } else if a.list == [] {
      EmptyIncluded(b.list[..b.max - 1]);
      IncludedCons((k, v), a.list, b.list[..b.max - 1]);
      var rest := Breaks(Step(a, put), Step(b, put), v);
      Continued(a, b, put, rest);
      ops := [put] + rest;
    } else if b.list[b.max - 1] in a.list {
      LastIsLost(a, b, k, v);
      EmptyRun(Step(a, put), Step(b, put));
      Continued(a, b, put, []);
      ops := [put] + [];
    } else {
      LastIsMoved(a, b);
      var get := Op<K, V>.Get(b.list[b.max - 1].0);
      StepKeeps(b, get);
      var rest := Breaks(Step(a, get), Step(b, get), v);
      Continued(a, b, get, rest);
      ops := [get] + rest;
    }
  }

  lemma NothingIncludes<T(!new)>(x: T, a: seq<T>)
    ensures !Included([x] + a, [])
  {}

  lemma EmptyRun<K(!new), V(!new)>(a: Cache<K, V>, b: Cache<K, V>)
    ensures RunFrom(a, []) == a && RunFrom(b, []) == b
  {}

  /** Inclusion lasts through all future gets, puts and clears exactly when it holds and the larger cache
      has at least as much room left (or the smaller one is empty and holds a single entry).  v is any
      value to put. */
  lemma LastsIff<K(!new), V(!new)>(a: Cache<K, V>, b: Cache<K, V>, v: V)
    requires Endless<K>() && Fits(a) && Fits(b)
    ensures Safe(a, b)
       <==> forall ops :: NoResize(ops) ==> Included(RunFrom(a, ops).list, RunFrom(b, ops).list)
  {
    hide Included, RunFrom;
    if Safe(a, b) {
      forall ops | NoResize(ops) ensures Included(RunFrom(a, ops).list, RunFrom(b, ops).list) { SafeRun(a, b, ops); }
    } else {
      EmptyRun(a, b);
      if Included(a.list, b.list) {
        var ops := Breaks(a, b, v);
      } else {
        assert NoResize<K, V>([]);
      }
    }
  }

  /** Setting the capacities of an included pair: inclusion lasts through everything that follows exactly
      under the condition that can be checked before. */
  lemma ResizeLastsIff<K(!new), V(!new)>(a: Cache<K, V>, m: nat, b: Cache<K, V>, n: nat, v: V)
    requires Endless<K>() && Fits(a) && Fits(b) && Included(a.list, b.list)
    ensures ResizeOk(a, m, b, n)
       <==> forall ops :: NoResize(ops) ==>
              Included(RunFrom(Step(a, Resize(m)), ops).list, RunFrom(Step(b, Resize(n)), ops).list)
  {
    hide Included, RunFrom, ResizeOk, Step, Safe;
    StepKeeps(a, Op<K, V>.Resize(m));
    StepKeeps(b, Op<K, V>.Resize(n));
    ResizeSafeIff(a, m, b, n);
    LastsIff(Step(a, Resize(m)), Step(b, Resize(n)), v);
  }

  /** The condition can fail: after put 1, put 2, get 1 with capacities 1 and 2, cutting the larger cache
      down to 1 leaves it without the key the smaller one holds. */
  lemma ResizeBreaksInclusion()
    ensures var ops := [Put(1, 10), Put(2, 20), Get(1)];
      && Run(1, ops).list == [(2, 20)]
      && Run(2, ops).list == [(1, 10), (2, 20)]
      && Trim(Run(2, ops).list, 1) == [(1, 10)]
      && !ResizeOk(Run(1, ops), 1, Run(2, ops), 1)
  {
    var (c, d) := (Cache([], 1), Cache([], 2));
    var (p, q, g) := (Op<int, int>.Put(1, 10), Op<int, int>.Put(2, 20), Op<int, int>.Get(1));
    ThreeSteps(c, p, q, g);
    ThreeSteps(d, p, q, g);
    assert Touch<int, int>([], 1, 10) == [(1, 10)] && Touch([(1, 10)], 2, 20) == [(2, 20), (1, 10)];
    assert Step(c, p).list == [(1, 10)] && Step(Step(c, p), q).list == [(2, 20)];
    assert Step(d, p).list == [(1, 10)] && Step(Step(d, p), q).list == [(2, 20), (1, 10)];
    assert Lookup([(2, 20)], 1).None? && Lookup([(2, 20), (1, 10)], 1) == Some(10);
    assert Without([(2, 20), (1, 10)], 1) == [(2, 20)];
    var ops := [p, q, g];
    assert (2, 20) in Trim(Run(1, ops).list, 1) && (2, 20) !in Trim(Run(2, ops).list, 1);
  }

  lemma ThreeSteps<K(!new), V(!new)>(c: Cache<K, V>, x: Op<K, V>, y: Op<K, V>, z: Op<K, V>)
    ensures RunFrom(c, [x, y, z]) == Step(Step(Step(c, x), y), z)
  {
    hide Step;
    assert [x, y, z][..2] == [x, y] && [x, y][..1] == [x] && [x][..0] == [];
    assert RunFrom(c, [x]) == Step(RunFrom(c, []), x);
    assert RunFrom(c, [x, y]) == Step(RunFrom(c, [x]), y);
  }
}
