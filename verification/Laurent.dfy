/** Laurent polynomials in e^(ix): finite maps from frequencies to non-zero coefficients. */
module Laurent {
  import opened Rings

  type LaurentMap<F> = map<real, F>

  ghost predicate IsLaurent<F(!new)>(K: Ring<F>, m: LaurentMap<F>) {
    forall k :: k in m ==> K.has(m[k]) && m[k] != K.zero
  }

  function At<F>(K: Ring<F>, m: LaurentMap<F>, k: real): F {
    if k in m then m[k] else K.zero
  }

  ghost predicate Weights<F(!new)>(K: Ring<F>, f: real -> F) {
    forall k :: K.has(f(k))
  }

  ghost function Choose<T>(s: set<T>): (x: T)
    requires s != {}
    ensures x in s
  {
    var x :| x in s;
    x
  }

  method TakeOne<T>(s: set<T>) returns (x: T)
    requires s != {}
    ensures x in s
  {
    x :| x in s;
  }

  lemma NoKeys<F>(m: LaurentMap<F>)
    ensures m.Keys == {} <==> m == map[]
  {
    if m.Keys == {} { assert m == map[]; }
  }

  /** sum over the terms of coefficient * f(frequency) */
  ghost function Total<F(!new)>(K: Ring<F>, m: LaurentMap<F>, f: real -> F): F
    decreases |m|
  {
    if m.Keys == {} then K.zero
    else
      var k := Choose(m.Keys);
      Fewer(m, k);
      K.add(K.mul(m[k], f(k)), Total(K, m - {k}, f))
  }

  lemma Fewer<F>(m: LaurentMap<F>, k: real)
    requires k in m
    ensures |m - {k}| < |m|
  {
    assert (m - {k}).Keys == m.Keys - {k};
    assert |m.Keys| == |(m - {k}).Keys| + 1;
    assert |m| == |m.Keys| && |m - {k}| == |(m - {k}).Keys|;
  }

  lemma {:induction false} TotalHas<F(!new)>(K: Ring<F>, m: LaurentMap<F>, f: real -> F)
    requires IsRing(K) && IsLaurent(K, m) && Weights(K, f)
    ensures K.has(Total(K, m, f))
    decreases |m|
  {
    if m.Keys != {} {
      var k := Choose(m.Keys);
      Fewer(m, k);
      TotalHas(K, m - {k}, f);
    }
  }

  /** The sum does not depend on the order of the terms. */
  lemma {:induction false} TotalRemove<F(!new)>(K: Ring<F>, m: LaurentMap<F>, f: real -> F, l: real)
    requires IsRing(K) && IsLaurent(K, m) && Weights(K, f) && l in m
    ensures Total(K, m, f) == K.add(K.mul(m[l], f(l)), Total(K, m - {l}, f))
    decreases |m|
  {
    var k := Choose(m.Keys);
    Fewer(m, k);
    assert Total(K, m, f) == K.add(K.mul(m[k], f(k)), Total(K, m - {k}, f));
    if k != l {
      RemoveKeeps(K, m, f, k);
      RemoveKeeps(K, m, f, l);
      RemoveCommutes(m, k, l);
      Fewer(m, l);
      var (x, y, rest) := (K.mul(m[k], f(k)), K.mul(m[l], f(l)), m - {k} - {l});
      assert Total(K, m - {k}, f) == K.add(y, Total(K, rest, f)) by { TotalRemove(K, m - {k}, f, l); }
      assert Total(K, m - {l}, f) == K.add(x, Total(K, rest, f)) by { TotalRemove(K, m - {l}, f, k); }
      assert K.has(Total(K, rest, f)) by {
        RemoveKeeps(K, m - {k}, f, l);
        TotalHas(K, rest, f);
      }
      AddLeftSwap(K, x, y, Total(K, rest, f));
    }
  }

  // the terms outside todo, when f leaves todo
  lemma LastTaken<F>(a: LaurentMap<F>, todo: set<real>, f: real)
    requires f in todo && todo <= a.Keys
    ensures f in a - (todo - {f}) && (a - (todo - {f}))[f] == a[f] && a - (todo - {f}) - {f} == a - todo
  {
    assert a - (todo - {f}) - {f} == a - todo;
  }

  lemma RemoveCommutes<F>(m: LaurentMap<F>, k: real, l: real)
    requires k in m && l in m && k != l
    ensures m - {k} - {l} == m - {l} - {k}
    ensures k in m - {l} && (m - {l})[k] == m[k] && l in m - {k} && (m - {k})[l] == m[l]
  {}

  lemma RemoveKeeps<F(!new)>(K: Ring<F>, m: LaurentMap<F>, f: real -> F, k: real)
    requires IsRing(K) && IsLaurent(K, m) && Weights(K, f) && k in m
    ensures IsLaurent(K, m - {k}) && K.has(m[k]) && K.has(K.mul(m[k], f(k)))
  {}

  // a + (b + c) == b + (a + c)
  lemma AddLeftSwap<F(!new)>(K: Ring<F>, a: F, b: F, c: F)
    requires IsRing(K) && K.has(a) && K.has(b) && K.has(c)
    ensures K.add(a, K.add(b, c)) == K.add(b, K.add(a, c))
  {
    AddAssoc(K, a, b, c);
    AddComm(K, a, b);
    AddAssoc(K, b, a, c);
  }

  lemma TotalSplit<F(!new)>(K: Ring<F>, m: LaurentMap<F>, f: real -> F, l: real)
    requires IsRing(K) && IsLaurent(K, m) && Weights(K, f)
    ensures Total(K, m, f) == K.add(K.mul(At(K, m, l), f(l)), Total(K, m - {l}, f))
    ensures K.has(Total(K, m - {l}, f))
  {
    TotalHas(K, m - {l}, f);
    if l in m {
      TotalRemove(K, m, f, l);
    } else {
      assert m - {l} == m;
      MulZero(K, f(l));
      AddZero(K, Total(K, m, f));
    }
  }

  lemma {:induction false} TotalZero<F(!new)>(K: Ring<F>, m: LaurentMap<F>, f: real -> F)
    requires IsRing(K) && IsLaurent(K, m) && Weights(K, f) && forall k :: k in m ==> f(k) == K.zero
    ensures Total(K, m, f) == K.zero
    decreases |m|
  {
    if m.Keys != {} {
      var k := Choose(m.Keys);
      Fewer(m, k);
      TotalRemove(K, m, f, k);
      TotalZero(K, m - {k}, f);
      MulZero(K, m[k]);
      AddZero(K, K.zero);
    }
  }

  // weights scaled by c on the right
  lemma {:induction false} TotalTimes<F(!new)>(K: Ring<F>, m: LaurentMap<F>, f: real -> F, c: F, g: real -> F)
    requires IsRing(K) && IsLaurent(K, m) && Weights(K, f) && Weights(K, g) && K.has(c)
    requires forall k :: k in m ==> g(k) == K.mul(f(k), c)
    ensures Total(K, m, g) == K.mul(Total(K, m, f), c)
    decreases |m|
  {
    if m.Keys == {} {
      MulZero(K, c);
    } else {
      var k := Choose(m.Keys);
      Fewer(m, k);
      TotalRemove(K, m, f, k);
      TotalRemove(K, m, g, k);
      TotalTimes(K, m - {k}, f, c, g);
      TotalHas(K, m - {k}, f);
      MulAssoc(K, m[k], f(k), c);
      DistrRight(K, K.mul(m[k], f(k)), Total(K, m - {k}, f), c);
    }
  }

  // ----- adding a term -----

  /** The map after the slot update: a zero sum erases the entry. */
  ghost function Added<F>(K: Ring<F>, m: LaurentMap<F>, k: real, c: F): LaurentMap<F> {
    var s := K.add(At(K, m, k), c);
    if s == K.zero then m - {k} else m[k := s]
  }

  method AddTerm<F(!new,==)>(K: Ring<F>, m: LaurentMap<F>, k: real, c: F) returns (r: LaurentMap<F>)
    requires IsRing(K) && IsLaurent(K, m) && K.has(c)
    ensures r == Added(K, m, k, c) && IsLaurent(K, r)
    ensures forall f :: Weights(K, f) ==> Total(K, r, f) == K.add(Total(K, m, f), K.mul(c, f(k)))
  {
    forall f | Weights(K, f) ensures Total(K, Added(K, m, k, c), f) == K.add(Total(K, m, f), K.mul(c, f(k))) {
      AddedTotal(K, m, k, c, f);
    }
    AddZero(K, c);
    if c == K.zero {
      AddZero(K, At(K, m, k));
      assert k !in m ==> m - {k} == m;
      assert k in m ==> m[k := m[k]] == m;
      return m;
    }
    if k !in m {
      return m[k := c];
    }
    var s := K.add(m[k], c);
    if s == K.zero { r := m - {k}; } else { r := m[k := s]; }
  }

  lemma AddedTotal<F(!new)>(K: Ring<F>, m: LaurentMap<F>, k: real, c: F, f: real -> F)
    requires IsRing(K) && IsLaurent(K, m) && K.has(c) && Weights(K, f)
    ensures IsLaurent(K, Added(K, m, k, c))
    ensures Total(K, Added(K, m, k, c), f) == K.add(Total(K, m, f), K.mul(c, f(k)))
  {
    var r := Added(K, m, k, c);
    TotalSplit(K, m, f, k);
    TotalSplit(K, r, f, k);
    assert r - {k} == m - {k};
    var (a, w, rest) := (At(K, m, k), f(k), Total(K, m - {k}, f));
    DistrRight(K, a, c, w);
    AddAssoc(K, K.mul(a, w), K.mul(c, w), rest);
    AddComm(K, K.mul(c, w), rest);
    AddAssoc(K, K.mul(a, w), rest, K.mul(c, w));
  }

  // ----- products -----

  ghost function Shifted<F>(f: real -> F, s: real): real -> F {
    t => f(s + t)
  }

  ghost function Row<F(!new)>(K: Ring<F>, b: LaurentMap<F>, f: real -> F): real -> F {
    s => Total(K, b, Shifted(f, s))
  }

  lemma RowWeights<F(!new)>(K: Ring<F>, b: LaurentMap<F>, f: real -> F)
    requires IsRing(K) && IsLaurent(K, b) && Weights(K, f)
    ensures Weights(K, Row(K, b, f)) && forall s :: Weights(K, Shifted(f, s))
  {
    forall s ensures Weights(K, Shifted(f, s)) && K.has(Row(K, b, f)(s)) { TotalHas(K, b, Shifted(f, s)); }
  }

  // r is base plus c * z^s * (the terms of b outside todo)
  ghost predicate RowPart<F(!new)>(K: Ring<F>, base: LaurentMap<F>, c: F, s: real, b: LaurentMap<F>,
                                   todo: set<real>, r: LaurentMap<F>) {
    IsLaurent(K, r) && forall f :: Weights(K, f) ==>
      Total(K, r, f) == K.add(Total(K, base, f), K.mul(c, Total(K, b - todo, Shifted(f, s))))
  }

  lemma RowPartStart<F(!new)>(K: Ring<F>, base: LaurentMap<F>, c: F, s: real, b: LaurentMap<F>)
    requires IsRing(K) && IsLaurent(K, base) && K.has(c)
    ensures RowPart(K, base, c, s, b, b.Keys, base)
  {
    assert b - b.Keys == map[];
    forall f | Weights(K, f)
      ensures Total(K, base, f) == K.add(Total(K, base, f), K.mul(c, Total(K, map[], Shifted(f, s))))
    {
      TotalHas(K, base, f);
      MulZero(K, c);
      AddZero(K, Total(K, base, f));
    }
  }

  lemma RowPartStep<F(!new)>(K: Ring<F>, base: LaurentMap<F>, c: F, s: real, b: LaurentMap<F>, todo: set<real>,
                             t: real, before: LaurentMap<F>, r: LaurentMap<F>)
    requires IsRing(K) && IsLaurent(K, base) && IsLaurent(K, b) && K.has(c) && t in todo && todo <= b.Keys
    requires RowPart(K, base, c, s, b, todo, before) && IsLaurent(K, r)
    requires forall f :: Weights(K, f) ==> Total(K, r, f) == K.add(Total(K, before, f), K.mul(K.mul(c, b[t]), f(s + t)))
    ensures RowPart(K, base, c, s, b, todo - {t}, r)
  {
    hide Total, IsRing, IsLaurent, Weights;
    forall f | Weights(K, f)
      ensures Total(K, r, f) == K.add(Total(K, base, f), K.mul(c, Total(K, b - (todo - {t}), Shifted(f, s))))
    {
      RowPartAt(K, base, c, s, b, todo, t, f);
    }
  }

  lemma RowPartAt<F(!new)>(K: Ring<F>, base: LaurentMap<F>, c: F, s: real, b: LaurentMap<F>, todo: set<real>,
                           t: real, f: real -> F)
    requires IsRing(K) && IsLaurent(K, base) && IsLaurent(K, b) && K.has(c) && Weights(K, f)
    requires t in todo && todo <= b.Keys
    ensures K.add(K.add(Total(K, base, f), K.mul(c, Total(K, b - todo, Shifted(f, s)))),
                  K.mul(K.mul(c, b[t]), f(s + t)))
         == K.add(Total(K, base, f), K.mul(c, Total(K, b - (todo - {t}), Shifted(f, s))))
  {
    hide Total;
    RowWeights(K, b, f);
    var (done, g) := (b - (todo - {t}), Shifted(f, s));
    TotalRemove(K, done, g, t);
    assert done - {t} == b - todo;
    TotalHas(K, base, f);
    TotalHas(K, b - todo, g);
    RowArithmetic(K, Total(K, base, f), c, Total(K, b - todo, g), b[t], f(s + t));
  }

  // (x + c y) + (c d) w == x + c (d w + y)
  lemma RowArithmetic<F(!new)>(K: Ring<F>, x: F, c: F, y: F, d: F, w: F)
    requires IsRing(K) && K.has(x) && K.has(c) && K.has(y) && K.has(d) && K.has(w)
    ensures K.add(K.add(x, K.mul(c, y)), K.mul(K.mul(c, d), w)) == K.add(x, K.mul(c, K.add(K.mul(d, w), y)))
  {
    Distr(K, c, K.mul(d, w), y);
    MulAssoc(K, c, d, w);
    AddAssoc(K, x, K.mul(c, y), K.mul(c, K.mul(d, w)));
    AddComm(K, K.mul(c, y), K.mul(c, K.mul(d, w)));
  }

  /** base + c * z^s * b */
  method AddRow<F(!new,==)>(K: Ring<F>, base: LaurentMap<F>, s: real, c: F, b: LaurentMap<F>) returns (r: LaurentMap<F>)
    requires IsRing(K) && IsLaurent(K, base) && IsLaurent(K, b) && K.has(c)
    ensures RowPart(K, base, c, s, b, {}, r)
  {
    hide Total, RowPart, Added;
    r := base;
    var todo := b.Keys;
    RowPartStart(K, base, c, s, b);
    while todo != {}
      invariant todo <= b.Keys && IsLaurent(K, r) && RowPart(K, base, c, s, b, todo, r)
      decreases todo
    {
      var t := TakeOne(todo);
      ghost var before := r;
      r := AddTerm(K, r, s + t, K.mul(c, b[t]));
      RowPartStep(K, base, c, s, b, todo, t, before, r);
      todo := todo - {t};
    }
  }

  /** r is the convolution of a and b. */
  ghost predicate IsConvolution<F(!new)>(K: Ring<F>, a: LaurentMap<F>, b: LaurentMap<F>, r: LaurentMap<F>) {
    IsLaurent(K, r) && forall f :: Weights(K, f) ==> Total(K, r, f) == Total(K, a, Row(K, b, f))
  }

  lemma ConvolutionStart<F(!new)>(K: Ring<F>, a: LaurentMap<F>, b: LaurentMap<F>)
    ensures IsConvolution(K, a - a.Keys, b, map[])
  {
    assert a - a.Keys == map[];
  }

  lemma ConvolutionStep<F(!new)>(K: Ring<F>, a: LaurentMap<F>, b: LaurentMap<F>, todo: set<real>, s: real,
                                 before: LaurentMap<F>, r: LaurentMap<F>)
    requires IsRing(K) && IsLaurent(K, a) && IsLaurent(K, b) && s in todo && todo <= a.Keys
    requires IsConvolution(K, a - todo, b, before) && RowPart(K, before, a[s], s, b, {}, r)
    ensures IsConvolution(K, a - (todo - {s}), b, r)
  {
    hide Total;
    assert b - {} == b;
    forall f | Weights(K, f) ensures Total(K, r, f) == Total(K, a - (todo - {s}), Row(K, b, f)) {
      RowWeights(K, b, f);
      var done := a - (todo - {s});
      TotalRemove(K, done, Row(K, b, f), s);
      assert done - {s} == a - todo;
      TotalHas(K, before, f);
      AddComm(K, Total(K, before, f), K.mul(a[s], Row(K, b, f)(s)));
    }
  }

  method Convolve<F(!new,==)>(K: Ring<F>, a: LaurentMap<F>, b: LaurentMap<F>) returns (r: LaurentMap<F>)
    requires IsRing(K) && IsLaurent(K, a) && IsLaurent(K, b)
    ensures IsConvolution(K, a, b, r) && IsLaurent(K, r)
  {
    hide Total, RowPart, IsConvolution;
    r := map[];
    var todo := a.Keys;
    ConvolutionStart(K, a, b);
    while todo != {}
      invariant todo <= a.Keys && IsLaurent(K, r) && IsConvolution(K, a - todo, b, r)
      decreases todo
    {
      var s := TakeOne(todo);
      ghost var before := r;
      r := AddRow(K, r, s, a[s], b);
      RowIsLaurent(K, before, a[s], s, b, r);
      ConvolutionStep(K, a, b, todo, s, before, r);
      todo := todo - {s};
    }
    assert a - {} == a;
  }

  lemma RowExists<F(!new)>(K: Ring<F>, base: LaurentMap<F>, s: real, c: F, b: LaurentMap<F>) returns (r: LaurentMap<F>)
    requires IsRing(K) && IsLaurent(K, base) && IsLaurent(K, b) && K.has(c)
    ensures IsLaurent(K, r) && RowPart(K, base, c, s, b, {}, r)
  {
    hide Total, RowPart, Added;
    r := base;
    var todo := b.Keys;
    RowPartStart(K, base, c, s, b);
    while todo != {}
      invariant todo <= b.Keys && IsLaurent(K, r) && RowPart(K, base, c, s, b, todo, r)
      decreases todo
    {
      var t := Choose(todo);
      var next := Added(K, r, s + t, K.mul(c, b[t]));
      AddedIsLaurent(K, r, s + t, K.mul(c, b[t]));
      forall f | Weights(K, f) ensures Total(K, next, f) == K.add(Total(K, r, f), K.mul(K.mul(c, b[t]), f(s + t))) {
        AddedTotal(K, r, s + t, K.mul(c, b[t]), f);
      }
      RowPartStep(K, base, c, s, b, todo, t, r, next);
      r, todo := next, todo - {t};
    }
  }

  lemma AddedIsLaurent<F(!new)>(K: Ring<F>, m: LaurentMap<F>, k: real, c: F)
    requires IsRing(K) && IsLaurent(K, m) && K.has(c)
    ensures IsLaurent(K, Added(K, m, k, c))
  {}

  lemma ConvolutionExists<F(!new)>(K: Ring<F>, a: LaurentMap<F>, b: LaurentMap<F>) returns (r: LaurentMap<F>)
    requires IsRing(K) && IsLaurent(K, a) && IsLaurent(K, b)
    ensures IsConvolution(K, a, b, r) && IsLaurent(K, r)
  {
    hide Total, RowPart, IsConvolution;
    r := map[];
    var todo := a.Keys;
    ConvolutionStart(K, a, b);
    while todo != {}
      invariant todo <= a.Keys && IsLaurent(K, r) && IsConvolution(K, a - todo, b, r)
      decreases todo
    {
      var s := Choose(todo);
      var next := RowExists(K, r, s, a[s], b);
      ConvolutionStep(K, a, b, todo, s, r, next);
      r, todo := next, todo - {s};
    }
    assert a - {} == a;
  }

  lemma RowIsLaurent<F(!new)>(K: Ring<F>, base: LaurentMap<F>, c: F, s: real, b: LaurentMap<F>, r: LaurentMap<F>)
    requires RowPart(K, base, c, s, b, {}, r)
    ensures IsLaurent(K, r)
  {}

  /** Multiplicative weights turn convolution into multiplication. */
  ghost predicate IsExponential<F(!new)>(K: Ring<F>, E: real -> F) {
    Weights(K, E) && E(0.0) == K.one && forall s, t :: Multiplies(K, E, s, t)
  }

  ghost predicate Multiplies<F>(K: Ring<F>, E: real -> F, s: real, t: real) {
    E(s + t) == K.mul(E(s), E(t))
  }

  lemma ConvolutionValue<F(!new)>(K: Ring<F>, a: LaurentMap<F>, b: LaurentMap<F>, r: LaurentMap<F>, E: real -> F)
    requires IsRing(K) && IsLaurent(K, a) && IsLaurent(K, b) && IsConvolution(K, a, b, r) && IsExponential(K, E)
    ensures Total(K, r, E) == K.mul(Total(K, a, E), Total(K, b, E))
  {
    hide Total;
    var v := Total(K, b, E);
    TotalHas(K, b, E);
    RowWeights(K, b, E);
    forall s | s in a ensures Row(K, b, E)(s) == K.mul(E(s), v) {
      forall t | t in b ensures Shifted(E, s)(t) == K.mul(E(t), E(s)) {
        assert Multiplies(K, E, s, t);
        MulComm(K, E(s), E(t));
      }
      TotalTimes(K, b, E, E(s), Shifted(E, s));
      MulComm(K, v, E(s));
    }
    TotalTimes(K, a, E, v, Row(K, b, E));
  }

  // ----- no zero divisors -----

  ghost predicate IsTop<F>(m: LaurentMap<F>, k: real) {
    k in m && forall l :: l in m ==> l <= k
  }

  lemma {:induction false} TopExists<F>(m: LaurentMap<F>) returns (k: real)
    requires m != map[]
    ensures IsTop(m, k)
    decreases |m|
  {
    NoKeys(m);
    k := Choose(m.Keys);
    NoKeys(m - {k});
    if m - {k} != map[] {
      Fewer(m, k);
      var l := TopExists(m - {k});
      forall j | j in m ensures j <= if l > k then l else k { if j != k { assert j in m - {k}; } }
      k := if l > k then l else k;
    } else {
      assert forall l :: l in m && l != k ==> l in m - {k};
    }
  }

  ghost function Pick<F>(K: Ring<F>, k: real): real -> F {
    l => if l == k then K.one else K.zero
  }

  // one term only
  lemma TotalOne<F(!new)>(K: Ring<F>, m: LaurentMap<F>, f: real -> F, k: real)
    requires IsRing(K) && IsLaurent(K, m) && Weights(K, f) && k in m && forall l :: l in m && l != k ==> f(l) == K.zero
    ensures Total(K, m, f) == K.mul(m[k], f(k))
  {
    TotalRemove(K, m, f, k);
    TotalZero(K, m - {k}, f);
    AddZero(K, K.mul(m[k], f(k)));
  }

  /** The product of two non-empty maps is not empty: its highest term is the product of theirs. */
  lemma ProductNotEmpty<F(!new)>(K: Ring<F>, a: LaurentMap<F>, b: LaurentMap<F>, r: LaurentMap<F>)
    requires IsDomain(K) && IsLaurent(K, a) && IsLaurent(K, b) && IsConvolution(K, a, b, r)
    requires a != map[] && b != map[]
    ensures r != map[]
  {
    hide Total;
    var s := TopExists(a);
    var t := TopExists(b);
    var f := Pick(K, s + t);
    assert Weights(K, f);
    RowWeights(K, b, f);
    forall u | u in a ensures Row(K, b, f)(u) == if u == s then b[t] else K.zero {
      if u == s {
        TotalOne(K, b, Shifted(f, s), t);
        MulOne(K, b[t]);
      } else {
        TotalZero(K, b, Shifted(f, u));
      }
    }
    TotalOne(K, a, Row(K, b, f), s);
    assert K.mul(a[s], b[t]) != K.zero;
    TotalZero(K, map[], f);
  }
}
