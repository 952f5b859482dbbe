/** Evaluation, roots, and the uniqueness of interpolation. */
module Roots {
  import opened Rings
  import opened Polys
  import opened Vectors
  import opened Division

  function Eval<F>(K: Ring<F>, p: seq<F>, x: F): F {
    if p == [] then K.zero else K.add(p[0], K.mul(x, Eval(K, p[1..], x)))
  }

  lemma {:induction false} EvalHas<F(!new)>(K: Ring<F>, p: seq<F>, x: F)
    requires IsRing(K) && AllIn(K, p) && K.has(x)
    ensures K.has(Eval(K, p, x))
  {
    if p != [] {
      EvalHas(K, p[1..], x);
    }
  }

  lemma EvalCons<F(!new)>(K: Ring<F>, c: F, t: seq<F>, x: F)
    requires IsRing(K) && K.has(c) && AllIn(K, t) && K.has(x)
    ensures Eval(K, Cons(K, c, t), x) == K.add(c, K.mul(x, Eval(K, t, x)))
  {
    if c == K.zero && t == [] {
      MulZero(K, x);
      AddZero(K, K.zero);
    } else {
      assert ([c] + t)[1..] == t;
    }
  }

  lemma {:induction false} EvalNorm<F(!new)>(K: Ring<F>, v: seq<F>, x: F)
    requires IsRing(K) && AllIn(K, v) && K.has(x)
    ensures Eval(K, Norm(K, v), x) == Eval(K, v, x)
  {
    if v != [] {
      EvalNorm(K, v[1..], x);
      NormIs(K, v[1..]);
      EvalCons(K, v[0], Norm(K, v[1..]), x);
    }
  }

  lemma {:induction false} EvalAdd<F(!new)>(K: Ring<F>, p: seq<F>, q: seq<F>, x: F)
    requires IsRing(K) && IsPoly(K, p) && IsPoly(K, q) && K.has(x)
    ensures Eval(K, PAdd(K, p, q), x) == K.add(Eval(K, p, x), Eval(K, q, x))
  {
    EvalHas(K, p, x);
    EvalHas(K, q, x);
    AddZero(K, Eval(K, p, x));
    AddZero(K, Eval(K, q, x));
    if p != [] && q != [] {
      var (s, t) := (p[1..], q[1..]);
      EvalAdd(K, s, t, x);
      PAddPoly(K, s, t);
      EvalCons(K, K.add(p[0], q[0]), PAdd(K, s, t), x);
      EvalHas(K, s, x);
      EvalHas(K, t, x);
      var (u, v) := (Eval(K, s, x), Eval(K, t, x));
      Distr(K, x, u, v);
      AddSwap(K, p[0], q[0], K.mul(x, u), K.mul(x, v));
    }
  }

  lemma {:induction false} EvalScale<F(!new)>(K: Ring<F>, c: F, p: seq<F>, x: F)
    requires IsRing(K) && IsPoly(K, p) && K.has(c) && K.has(x)
    ensures Eval(K, Scale(K, c, p), x) == K.mul(c, Eval(K, p, x))
  {
    if p == [] {
      MulZero(K, c);
    } else {
      var t := p[1..];
      EvalScale(K, c, t, x);
      ScalePoly(K, c, t);
      EvalCons(K, K.mul(c, p[0]), Scale(K, c, t), x);
      EvalHas(K, t, x);
      MulSwap(K, x, c, Eval(K, t, x));
      Distr(K, c, p[0], K.mul(x, Eval(K, t, x)));
    }
  }

  lemma {:induction false} EvalMul<F(!new)>(K: Ring<F>, p: seq<F>, q: seq<F>, x: F)
    requires IsRing(K) && IsPoly(K, p) && IsPoly(K, q) && K.has(x)
    ensures Eval(K, PMul(K, p, q), x) == K.mul(Eval(K, p, x), Eval(K, q, x))
  {
    EvalHas(K, q, x);
    var v := Eval(K, q, x);
    if p == [] {
      MulZero(K, v);
    } else {
      var t := p[1..];
      EvalMul(K, t, q, x);
      PMulPoly(K, t, q);
      ScalePoly(K, p[0], q);
      EvalScale(K, p[0], q, x);
      EvalHas(K, t, x);
      var u := Eval(K, t, x);
      EvalCons(K, K.zero, PMul(K, t, q), x);
      MulAssoc(K, x, u, v);
      AddZero(K, K.mul(x, K.mul(u, v)));
      ConsPoly(K, K.zero, PMul(K, t, q));
      EvalAdd(K, Scale(K, p[0], q), Shift(K, PMul(K, t, q)), x);
      DistrRight(K, p[0], K.mul(x, u), v);
    }
  }

  lemma EvalSub<F(!new)>(K: Ring<F>, p: seq<F>, q: seq<F>, x: F)
    requires IsRing(K) && IsPoly(K, p) && IsPoly(K, q) && K.has(x)
    ensures IsPoly(K, PSub(K, p, q))
    ensures Eval(K, PSub(K, p, q), x) == Sub(K, Eval(K, p, x), Eval(K, q, x))
  {
    PNegPoly(K, q);
    PAddPoly(K, p, PNeg(K, q));
    EvalAdd(K, p, PNeg(K, q), x);
    EvalHas(K, q, x);
    EvalHas(K, PNeg(K, q), x);
    EvalAdd(K, q, PNeg(K, q), x);
    NegUnique(K, Eval(K, q, x), Eval(K, PNeg(K, q), x));
  }

  /** x - a */
  function Linear<F>(K: Ring<F>, a: F): seq<F> {
    [K.neg(a), K.one]
  }

  lemma EvalLinear<F(!new)>(K: Ring<F>, a: F, x: F)
    requires IsRing(K) && K.has(a) && K.has(x)
    ensures IsPoly(K, Linear(K, a)) && Eval(K, Linear(K, a), x) == Sub(K, x, a)
  {
    var l := Linear(K, a);
    assert l[1..] == [K.one] && [K.one][1..] == [];
    MulZero(K, x);
    AddZero(K, K.one);
    MulOne(K, x);
    AddComm(K, K.neg(a), x);
    assert Eval(K, [K.one], x) == K.add(K.one, K.mul(x, Eval(K, [], x)));
  }

  /** The factor theorem: a root a of p splits off x - a. */
  lemma RootSplits<F(!new)>(K: Ring<F>, p: seq<F>, a: F) returns (q: seq<F>)
    requires IsRing(K) && IsPoly(K, p) && K.has(a) && Eval(K, p, a) == K.zero
    ensures IsPoly(K, q) && PMul(K, q, Linear(K, a)) == p
  {
    hide Divide, PMul, PAdd, Eval;
    var l := Linear(K, a);
    EvalLinear(K, a, a);
    AddNeg(K, a);
    MulOne(K, K.one);
    var d := Divide(K, p, l, K.one);
    DivideCorrect(K, p, l, K.one);
    q := d.quo;
    PMulPoly(K, q, l);
    EvalAdd(K, PMul(K, q, l), d.rem, a);
    EvalMul(K, q, l, a);
    EvalHas(K, q, a);
    MulZero(K, Eval(K, q, a));
    EvalHas(K, d.rem, a);
    AddZero(K, Eval(K, d.rem, a));
    ConstantRoot(K, d.rem, a);
    PolyRingIsRing(K);
    AddZero(PolyRing(K), PMul(K, q, l));
  }

  // a constant that vanishes somewhere is zero
  lemma ConstantRoot<F(!new)>(K: Ring<F>, r: seq<F>, a: F)
    requires IsRing(K) && IsPoly(K, r) && |r| <= 1 && K.has(a) && Eval(K, r, a) == K.zero
    ensures r == []
  {
    if r != [] { ConstantValue(K, r, a); }
  }

  lemma ConstantValue<F(!new)>(K: Ring<F>, r: seq<F>, a: F)
    requires IsRing(K) && |r| == 1 && K.has(r[0]) && K.has(a)
    ensures Eval(K, r, a) == r[0]
  {
    MulZero(K, a);
    AddZero(K, r[0]);
    assert r[1..] == [];
  }

  ghost predicate Distinct<F(!new)>(xs: seq<F>) {
    forall i, j :: 0 <= i < j < |xs| ==> xs[i] != xs[j]
  }

  /** A non-zero polynomial over a domain has fewer distinct roots than coefficients. */
  lemma {:induction false} FewRoots<F(!new)>(K: Ring<F>, p: seq<F>, xs: seq<F>)
    requires IsDomain(K) && IsPoly(K, p) && p != [] && AllIn(K, xs) && Distinct(xs)
    requires forall i :: 0 <= i < |xs| ==> Eval(K, p, xs[i]) == K.zero
    ensures |xs| < |p|
    decreases |xs|
  {
    if xs != [] {
      var (a, rest) := (xs[0], xs[1..]);
      var l := Linear(K, a);
      var q := RootSplits(K, p, a);
      PMulPoly(K, q, l);
      EvalLinear(K, a, a);
      PMulLen(K, q, l);
      forall i | 0 <= i < |rest| ensures Eval(K, q, rest[i]) == K.zero {
        assert rest[i] == xs[i + 1];
        EvalMul(K, q, l, rest[i]);
        EvalLinear(K, a, rest[i]);
        EvalHas(K, q, rest[i]);
        SubSelf(K, rest[i], a);
      }
      FewRoots(K, q, rest);
    }
  }

  /** Polynomials with at most n coefficients that agree at n distinct points are equal. */
  lemma InterpolationUnique<F(!new)>(K: Ring<F>, p: seq<F>, q: seq<F>, xs: seq<F>)
    requires IsDomain(K) && IsPoly(K, p) && IsPoly(K, q) && AllIn(K, xs) && Distinct(xs)
    requires |p| <= |xs| && |q| <= |xs|
    requires forall i :: 0 <= i < |xs| ==> Eval(K, p, xs[i]) == Eval(K, q, xs[i])
    ensures p == q
  {
    var d := PSub(K, p, q);
    PNegPoly(K, q);
    PAddPoly(K, p, PNeg(K, q));
    PolyRingIsRing(K);
    SubSelf(PolyRing(K), p, q);
    if d != [] {
      forall i | 0 <= i < |xs| ensures Eval(K, d, xs[i]) == K.zero {
        EvalSub(K, p, q, xs[i]);
        EvalHas(K, p, xs[i]);
        SubSelf(K, Eval(K, p, xs[i]), Eval(K, q, xs[i]));
      }
      FewRoots(K, d, xs);
    }
  }
}
