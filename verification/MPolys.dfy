/** Sparse multivariate polynomials over the integers: finite maps from exponent vectors to non-zero
    coefficients. */
module MPolys {
  import opened Rings
  import opened Polys
  import opened Vectors
  import opened Roots
  import opened Powers

  type Monomial = seq<nat>

  type MPoly = map<Monomial, int>

  /** Canonical in n variables: exponent vectors of length n, no zero coefficient. */
  ghost predicate IsMPoly(p: MPoly, n: nat) {
    forall m :: m in p ==> |m| == n && p[m] != 0
  }

  function CoefOf(p: MPoly, m: Monomial): int {
    if m in p then p[m] else 0
  }

  /** The slot update of every operation: adds c at m, and erases the entry when it cancels. */
  function AddTerm(p: MPoly, m: Monomial, c: int): MPoly {
    var s := CoefOf(p, m) + c;
    if s == 0 then p - {m} else p[m := s]
  }

  function MonoAdd(a: Monomial, b: Monomial): (r: Monomial)
    requires |a| == |b|
    ensures |r| == |a| && forall i :: 0 <= i < |a| ==> r[i] == a[i] + b[i]
  {
    seq(|a|, i requires 0 <= i < |a| => a[i] + b[i])
  }

  // ----- linear functionals: sums of coefficient times weight -----

  /** sum over the terms of p of coefficient * f(monomial) */
  ghost function Lin(p: MPoly, f: Monomial -> int): int
    decreases |p|
  {
    if p == map[] then 0
    else
      var m :| m in p;
      Smaller(p, m);
      p[m] * f(m) + Lin(p - {m}, f)
  }

  lemma Smaller(p: MPoly, m: Monomial)
    requires m in p
    ensures |p - {m}| < |p|
  {
    assert (p - {m}).Keys == p.Keys - {m};
    assert |p.Keys| == |(p - {m}).Keys| + 1;
    assert |p| == |p.Keys| && |p - {m}| == |(p - {m}).Keys|;
  }

  /** The sum does not depend on the order in which terms are taken. */
  lemma {:induction false} LinRemove(p: MPoly, f: Monomial -> int, m: Monomial)
    requires m in p
    ensures Lin(p, f) == p[m] * f(m) + Lin(p - {m}, f)
    decreases |p|
  {
    var k :| k in p && Lin(p, f) == p[k] * f(k) + Lin(p - {k}, f);
    if k != m {
      Smaller(p, k);
      Smaller(p, m);
      LinRemove(p - {k}, f, m);
      LinRemove(p - {m}, f, k);
      assert p - {k} - {m} == p - {m} - {k};
    }
  }

  lemma LinAddTerm(p: MPoly, m: Monomial, c: int, f: Monomial -> int)
    ensures Lin(AddTerm(p, m, c), f) == Lin(p, f) + c * f(m)
  {
    hide Lin;
    var r := AddTerm(p, m, c);
    LinSplit(p, m, f);
    LinSplit(r, m, f);
    assert r - {m} == p - {m};
    SumTimes(CoefOf(p, m), c, f(m));
  }

  lemma LinSplit(p: MPoly, m: Monomial, f: Monomial -> int)
    ensures Lin(p, f) == CoefOf(p, m) * f(m) + Lin(p - {m}, f)
  {
    hide Lin;
    if m in p { LinRemove(p, f, m); } else { assert p - {m} == p; }
  }

  lemma SumTimes(a: int, b: int, w: int)
    ensures (a + b) * w == a * w + b * w
  {}

  lemma {:induction false} LinCong(p: MPoly, f: Monomial -> int, g: Monomial -> int)
    requires forall m :: m in p ==> f(m) == g(m)
    ensures Lin(p, f) == Lin(p, g)
    decreases |p|
  {
    if p != map[] {
      var m :| m in p;
      Smaller(p, m);
      LinRemove(p, f, m);
      LinRemove(p, g, m);
      LinCong(p - {m}, f, g);
    }
  }

  lemma {:induction false} LinCombine(p: MPoly, f: Monomial -> int, c: int, g: Monomial -> int, h: Monomial -> int)
    requires forall m :: m in p ==> h(m) == f(m) + c * g(m)
    ensures Lin(p, h) == Lin(p, f) + c * Lin(p, g)
    decreases |p|
  {
    if p != map[] {
      var m :| m in p;
      Smaller(p, m);
      LinRemove(p, f, m);
      LinRemove(p, g, m);
      LinRemove(p, h, m);
      LinCombine(p - {m}, f, c, g, h);
      CombineStep(p[m], f(m), c, g(m), Lin(p - {m}, g));
    }
  }

  lemma CombineStep(a: int, x: int, c: int, y: int, s: int)
    ensures a * (x + c * y) + c * s == a * x + c * (a * y + s)
  {
    assert a * (c * y) == c * (a * y);
  }

  lemma {:induction false} LinZero(p: MPoly, f: Monomial -> int)
    requires forall m :: m in p ==> f(m) == 0
    ensures Lin(p, f) == 0
    decreases |p|
  {
    if p != map[] {
      var m :| m in p;
      Smaller(p, m);
      LinRemove(p, f, m);
      LinZero(p - {m}, f);
    }
  }

  function Indicator(k: Monomial): Monomial -> int {
    m => if m == k then 1 else 0
  }

  lemma CoefIsLin(p: MPoly, k: Monomial)
    ensures Lin(p, Indicator(k)) == CoefOf(p, k)
  {
    if k in p {
      LinRemove(p, Indicator(k), k);
      LinZero(p - {k}, Indicator(k));
    } else {
      LinZero(p, Indicator(k));
    }
  }

  /** Canonical polynomials with the same functionals are the same map. */
  lemma SameLin(a: MPoly, b: MPoly, n: nat)
    requires IsMPoly(a, n) && IsMPoly(b, n)
    requires forall f :: Lin(a, f) == Lin(b, f)
    ensures a == b
  {
    forall m ensures CoefOf(a, m) == CoefOf(b, m) {
      CoefIsLin(a, m);
      CoefIsLin(b, m);
    }
    SameCoefs(a, b, n);
  }

  lemma SameCoefs(a: MPoly, b: MPoly, n: nat)
    requires IsMPoly(a, n) && IsMPoly(b, n)
    requires forall m :: CoefOf(a, m) == CoefOf(b, m)
    ensures a == b
  {
    forall m ensures (m in a <==> m in b) && (m in a ==> a[m] == b[m]) {
      assert CoefOf(a, m) == CoefOf(b, m);
    }
    assert a.Keys == b.Keys;
  }

  // ----- evaluation -----

  /** x_1^m_1 * ... * x_n^m_n at the point */
  function MonoVal(m: Monomial, pt: seq<int>): int
    requires |m| <= |pt|
  {
    if m == [] then 1 else IPow(pt[0], m[0]) * MonoVal(m[1..], pt[1..])
  }

  lemma {:induction false} MonoValAdd(a: Monomial, b: Monomial, pt: seq<int>)
    requires |a| == |b| <= |pt|
    ensures MonoVal(MonoAdd(a, b), pt) == MonoVal(a, pt) * MonoVal(b, pt)
  {
    if a != [] {
      assert MonoAdd(a, b)[1..] == MonoAdd(a[1..], b[1..]);
      MonoValAdd(a[1..], b[1..], pt[1..]);
      IPowAdd(pt[0], a[0], b[0]);
      var (x, y, u, v) := (IPow(pt[0], a[0]), IPow(pt[0], b[0]), MonoVal(a[1..], pt[1..]), MonoVal(b[1..], pt[1..]));
      assert (x * y) * (u * v) == (x * u) * (y * v) by { FourProduct(x, y, u, v); }
    }
  }

  lemma FourProduct(x: int, y: int, u: int, v: int)
    ensures (x * y) * (u * v) == (x * u) * (y * v)
  {}

  function Weight(pt: seq<int>): Monomial -> int {
    m => if |m| == |pt| then MonoVal(m, pt) else 0
  }

  ghost function EvalAt(p: MPoly, pt: seq<int>): int {
    Lin(p, Weight(pt))
  }

  // ----- a polynomial that vanishes everywhere is zero -----

  /** The coefficient of x_1^d, as a polynomial in the other variables. */
  ghost function Slice(p: MPoly, d: nat): MPoly {
    map m | m in Tails(p) && [d] + m in p :: p[[d] + m]
  }

  ghost function Tails(p: MPoly): set<Monomial> {
    set m | m in p && m != [] :: m[1..]
  }

  lemma SliceHas(p: MPoly, d: nat, m: Monomial)
    ensures m in Slice(p, d) <==> [d] + m in p
    ensures m in Slice(p, d) ==> Slice(p, d)[m] == p[[d] + m]
  {
    assert ([d] + m)[1..] == m;
  }

  lemma SliceRemove(p: MPoly, k: Monomial, d: nat)
    requires k in p && k != []
    ensures Slice(p - {k}, d) == if d == k[0] then Slice(p, d) - {k[1..]} else Slice(p, d)
  {
    var r := if d == k[0] then Slice(p, d) - {k[1..]} else Slice(p, d);
    assert k == [k[0]] + k[1..];
    forall m ensures m in Slice(p - {k}, d) <==> m in r {
      SliceHas(p - {k}, d, m);
      SliceHas(p, d, m);
    }
    forall m | m in r ensures Slice(p - {k}, d)[m] == r[m] {
      SliceHas(p - {k}, d, m);
      SliceHas(p, d, m);
    }
  }

  /** sum over d < D of x^d * (slice d at pt) */
  ghost function SliceSum(p: MPoly, x: int, pt: seq<int>, D: nat): int {
    if D == 0 then 0 else SliceSum(p, x, pt, D - 1) + IPow(x, D - 1) * EvalAt(Slice(p, D - 1), pt)
  }

  // removing a term changes one slice, by that term
  lemma SliceEval(p: MPoly, k: Monomial, pt: seq<int>, d: nat)
    requires k in p && |k| == |pt| + 1
    ensures EvalAt(Slice(p, d), pt)
         == EvalAt(Slice(p - {k}, d), pt) + if d == k[0] then p[k] * MonoVal(k[1..], pt) else 0
  {
    SliceRemove(p, k, d);
    if d == k[0] {
      SliceHas(p, d, k[1..]);
      assert k == [k[0]] + k[1..];
      LinRemove(Slice(p, d), Weight(pt), k[1..]);
    }
  }

  lemma {:induction false} SliceSumRemove(p: MPoly, k: Monomial, x: int, pt: seq<int>, D: nat)
    requires k in p && |k| == |pt| + 1
    ensures SliceSum(p, x, pt, D) == SliceSum(p - {k}, x, pt, D)
                                   + if k[0] < D then p[k] * MonoVal(k, [x] + pt) else 0
  {
    hide EvalAt, Slice;
    if D > 0 {
      SliceSumRemove(p, k, x, pt, D - 1);
      SliceEval(p, k, pt, D - 1);
      if k[0] == D - 1 {
        assert ([x] + pt)[1..] == pt;
        assert MonoVal(k, [x] + pt) == IPow(x, D - 1) * MonoVal(k[1..], pt);
        SliceStep(IPow(x, D - 1), p[k], MonoVal(k[1..], pt), EvalAt(Slice(p - {k}, D - 1), pt));
      }
    }
  }

  lemma SliceStep(w: int, c: int, v: int, s: int)
    ensures w * (c * v + s) == w * s + c * (w * v)
  {
    assert w * (c * v) == c * (w * v);
  }

  /** Evaluation, one variable at a time. */
  lemma {:induction false} EvalBySlices(p: MPoly, x: int, pt: seq<int>, D: nat)
    requires IsMPoly(p, |pt| + 1) && forall m :: m in p ==> m[0] < D
    ensures EvalAt(p, [x] + pt) == SliceSum(p, x, pt, D)
    decreases |p|
  {
    if p == map[] {
      SliceSumEmpty(x, pt, D);
    } else {
      var k :| k in p;
      Smaller(p, k);
      EvalBySlices(p - {k}, x, pt, D);
      LinRemove(p, Weight([x] + pt), k);
      SliceSumRemove(p, k, x, pt, D);
    }
  }

  lemma {:induction false} SliceSumEmpty(x: int, pt: seq<int>, D: nat)
    ensures SliceSum(map[], x, pt, D) == 0
  {
    hide Slice, Lin;
    if D > 0 {
      SliceSumEmpty(x, pt, D - 1);
      EmptySlice(D - 1);
      LinZero(map[], Weight(pt));
      TimesZero(IPow(x, D - 1));
    }
  }

  lemma EmptySlice(d: nat)
    ensures Slice(map[], d) == map[]
  {
    forall m ensures m !in Slice(map[], d) { SliceHas(map[], d, m); }
  }

  lemma TimesZero(x: int)
    ensures x * 0 == 0
  {}

  // the slices at pt, as the coefficients of a univariate polynomial
  ghost function SliceValues(p: MPoly, pt: seq<int>, D: nat): (v: seq<int>)
    ensures |v| == D && forall d :: 0 <= d < D ==> v[d] == EvalAt(Slice(p, d), pt)
  {
    seq(D, d requires 0 <= d < D => EvalAt(Slice(p, d), pt))
  }

  lemma {:induction false} ValueSnoc(v: seq<int>, c: int, x: int)
    ensures Eval(Integers(), v + [c], x) == Eval(Integers(), v, x) + IPow(x, |v|) * c
  {
    if v == [] {
      assert [] + [c] == [c] && [c][1..] == [];
      TimesZero(x);
    } else {
      assert (v + [c])[1..] == v[1..] + [c];
      ValueSnoc(v[1..], c, x);
      ValueStep(x, Eval(Integers(), v[1..], x), IPow(x, |v| - 1), c);
    }
  }

  lemma ValueStep(x: int, e: int, w: int, c: int)
    ensures x * (e + w * c) == x * e + (x * w) * c
  {
    assert x * (w * c) == (x * w) * c;
  }

  lemma SliceValuesSnoc(p: MPoly, pt: seq<int>, D: nat)
    ensures SliceValues(p, pt, D + 1) == SliceValues(p, pt, D) + [EvalAt(Slice(p, D), pt)]
  {
    hide EvalAt, Slice;
    var (v, w) := (SliceValues(p, pt, D), SliceValues(p, pt, D + 1));
    forall d | 0 <= d < D + 1 ensures w[d] == (v + [EvalAt(Slice(p, D), pt)])[d] {}
  }

  lemma {:induction false} SliceSumIsValue(p: MPoly, x: int, pt: seq<int>, D: nat)
    ensures SliceSum(p, x, pt, D) == Eval(Integers(), SliceValues(p, pt, D), x)
  {
    hide EvalAt, Slice, Integers;
    if D == 0 {
      NoValue(p, x, pt);
    } else {
      SliceSumIsValue(p, x, pt, D - 1);
      SliceValuesSnoc(p, pt, D - 1);
      ValueSnoc(SliceValues(p, pt, D - 1), EvalAt(Slice(p, D - 1), pt), x);
    }
  }

  lemma NoValue(p: MPoly, x: int, pt: seq<int>)
    ensures Eval(Integers(), SliceValues(p, pt, 0), x) == 0
  {
    assert SliceValues(p, pt, 0) == [];
  }

  // an integer vector whose polynomial vanishes everywhere is zero
  lemma VanishingVector(v: seq<int>)
    requires forall x :: Eval(Integers(), v, x) == 0
    ensures forall d :: 0 <= d < |v| ==> v[d] == 0
  {
    IntegersAreDomain();
    var p := Norm(Integers(), v);
    NormIs(Integers(), v);
    if p != [] {
      var xs := seq(|p|, i => i);
      forall i | 0 <= i < |xs| ensures Eval(Integers(), p, xs[i]) == 0 {
        EvalNorm(Integers(), v, xs[i]);
      }
      FewRoots(Integers(), p, xs);
    }
    forall d | 0 <= d < |v| ensures v[d] == 0 {
      assert Coeff(Integers(), p, d) == Coeff(Integers(), v, d);
    }
  }

  // a bound on the exponents of the first variable
  lemma {:induction false} FirstExponentBound(p: MPoly) returns (D: nat)
    requires forall m :: m in p ==> m != []
    ensures forall m :: m in p ==> m[0] < D
    decreases |p|
  {
    if p == map[] {
      D := 0;
    } else {
      var k :| k in p;
      Smaller(p, k);
      D := FirstExponentBound(p - {k});
      D := if k[0] < D then D else k[0] + 1;
      forall m | m in p ensures m[0] < D { if m != k { assert m in p - {k}; } }
    }
  }

  /** A canonical polynomial that vanishes at every integer point is the zero polynomial. */
  lemma {:induction false} Vanishes(p: MPoly, n: nat)
    requires IsMPoly(p, n) && forall pt: seq<int> :: |pt| == n ==> EvalAt(p, pt) == 0
    ensures p == map[]
    decreases n
  {
    if n == 0 {
      ConstantValue(p);
      var here: seq<int> := [];
      assert |here| == 0 && EvalAt(p, here) == 0;
      assert forall m :: m in p ==> m == [];
    } else {
      var D := FirstExponentBound(p);
      forall d: nat | d < D ensures Slice(p, d) == map[] {
        SliceVanishes(p, n, d, D);
      }
      if p != map[] {
        var m :| m in p;
        assert m == [m[0]] + m[1..];
        SliceHas(p, m[0], m[1..]);
        assert false;
      }
    }
  }

  // with no variables a polynomial is its constant term
  lemma ConstantValue(p: MPoly)
    requires IsMPoly(p, 0)
    ensures EvalAt(p, []) == CoefOf(p, [])
  {
    assert forall m :: m in p ==> m == [];
    if [] in p {
      LinRemove(p, Weight([]), []);
      assert p - {[]} == map[];
    } else {
      assert p == map[];
    }
  }

  lemma SliceVanishes(p: MPoly, n: nat, d: nat, D: nat)
    requires n > 0 && IsMPoly(p, n) && d < D && forall m :: m in p ==> m[0] < D
    requires forall pt: seq<int> :: |pt| == n ==> EvalAt(p, pt) == 0
    ensures Slice(p, d) == map[]
    decreases n, 0
  {
    forall m | m in Slice(p, d) ensures |m| == n - 1 && Slice(p, d)[m] != 0 {
      SliceHas(p, d, m);
    }
    forall pt: seq<int> | |pt| == n - 1 ensures EvalAt(Slice(p, d), pt) == 0 {
      var v := SliceValues(p, pt, D);
      forall x ensures Eval(Integers(), v, x) == 0 {
        EvalBySlices(p, x, pt, D);
        SliceSumIsValue(p, x, pt, D);
        assert |[x] + pt| == n;
      }
      VanishingVector(v);
      assert v[d] == 0;
    }
    Vanishes(Slice(p, d), n - 1);
  }
}
