/** Kronecker factorisation over the integers: try every tuple of divisors of the values of f at a
    few points, interpolate, and test the candidate by division. */
module Kronecker {
  import opened Rings
  import opened Polys
  import opened Vectors
  import opened Euclid
  import opened Roots
  import opened Numbers
  import opened IntPolys
  import Interpolation

  ghost predicate IsIrreducible(f: IntPoly) {
    IsIntPoly(f) && Irreducible(Integers(), f)
  }

  function Product(fs: seq<IntPoly>): IntPoly {
    if fs == [] then [1] else Times(fs[0], Product(fs[1..]))
  }

  /** What a finished factorisation of a non-constant f is. */
  ghost predicate Factorization(f: IntPoly, fs: seq<IntPoly>) {
    Product(fs) == f && forall i :: 0 <= i < |fs| ==> IsIrreducible(fs[i])
  }

  function ValueAt(p: IntPoly, x: int): int {
    Eval(Integers(), p, x)
  }

  // ----- products of factor lists -----

  lemma {:induction false} ProductPoly(fs: seq<IntPoly>)
    requires forall i :: 0 <= i < |fs| ==> IsIntPoly(fs[i])
    ensures IsIntPoly(Product(fs))
  {
    if fs != [] {
      ProductPoly(fs[1..]);
      IntegersAreDomain();
      PMulPoly(Integers(), fs[0], Product(fs[1..]));
    }
  }

  lemma TimesOne(p: IntPoly)
    requires IsIntPoly(p)
    ensures Times([1], p) == p == Times(p, [1])
  {
    IntegersAreDomain();
    assert Const(Integers(), 1) == [1];
    ConstMul(Integers(), 1, p);
    ScaleOne(Integers(), p);
  }

  lemma {:induction false} ProductConcat(fs: seq<IntPoly>, gs: seq<IntPoly>)
    requires forall i :: 0 <= i < |fs| ==> IsIntPoly(fs[i])
    requires forall i :: 0 <= i < |gs| ==> IsIntPoly(gs[i])
    ensures Product(fs + gs) == Times(Product(fs), Product(gs))
  {
    ProductPoly(gs);
    if fs == [] {
      assert [] + gs == gs;
      TimesOne(Product(gs));
    } else {
      assert (fs + gs)[1..] == fs[1..] + gs;
      ProductConcat(fs[1..], gs);
      ProductPoly(fs[1..]);
      IntegersAreDomain();
      PMulAssoc(Integers(), fs[0], Product(fs[1..]), Product(gs));
    }
  }

  lemma JoinFactorizations(f: IntPoly, g: IntPoly, q: IntPoly, fs: seq<IntPoly>, gs: seq<IntPoly>)
    requires IsIntPoly(g) && IsIntPoly(q) && f == Times(q, g)
    requires Factorization(g, fs) && Factorization(q, gs)
    ensures Factorization(f, fs + gs)
  {
    ProductConcat(fs, gs);
    TimesComm(q, g);
  }

  lemma ShortProduct(f: IntPoly, p: IntPoly, q: IntPoly)
    requires IsIntPoly(p) && IsIntPoly(q) && Times(p, q) == f && |f| == 2
    ensures |p| == 1 || |q| == 1
  {
    IntegersAreDomain();
    PMulPoly(Integers(), p, q);
    if p != [] && q != [] { PMulLen(Integers(), p, q); }
  }

  lemma SingleFactor(f: IntPoly)
    requires IsIrreducible(f)
    ensures Factorization(f, [f])
  {
    assert [f][1..] == [];
    TimesOne(f);
  }

  lemma LinearIsIrreducible(f: IntPoly)
    requires IsIntPoly(f) && |f| == 2
    ensures IsIrreducible(f)
  {
    forall p, q | IsIntPoly(p) && IsIntPoly(q) && PMul(Integers(), p, q) == f
      ensures |p| == 1 || |q| == 1
    {
      ShortProduct(f, p, q);
    }
  }

  // ----- values and divisors -----

  lemma ValueTimes(p: IntPoly, q: IntPoly, x: int)
    requires IsIntPoly(p) && IsIntPoly(q)
    ensures ValueAt(Times(p, q), x) == ValueAt(p, x) * ValueAt(q, x)
  {
    IntegersAreDomain();
    EvalMul(Integers(), p, q, x);
  }

  method EvalAtInt(p: IntPoly, x: int) returns (r: int)
    ensures r == ValueAt(p, x)
  {
    r := 0;
    var xPow := 1;
    assert p[0..] == p;
    for i := 0 to |p|
      invariant r + xPow * ValueAt(p[i..], x) == ValueAt(p, x)
    {
      assert p[i..][1..] == p[i + 1..];
      assert xPow * (p[i] + x * ValueAt(p[i + 1..], x)) == p[i] * xPow + (xPow * x) * ValueAt(p[i + 1..], x);
      r := r + p[i] * xPow;
      xPow := xPow * x;
    }
  }

  /** The positive divisors, in increasing order; fails on zero only. */
  method Divisors(n: int) returns (r: Option<seq<int>>)
    ensures r.Some? <==> n != 0
    ensures r.Some? ==> forall d :: d in r.value <==> d > 0 && Div(d, n)
    ensures r.Some? ==> forall i, j :: 0 <= i < j < |r.value| ==> r.value[i] < r.value[j]
  {
    if n == 0 { return None; }
    var ds := [];
    for d := 1 to Abs(n) + 1
      invariant forall e :: e in ds <==> 0 < e < d && Div(e, n)
      invariant forall i, j :: 0 <= i < j < |ds| ==> ds[i] < ds[j]
    {
      DivRemainder(d, n);
      if n % d == 0 {
        assert forall i :: 0 <= i < |ds| ==> ds[i] in ds;
        ds := ds + [d];
      }
    }
    forall e | e > 0 && Div(e, n) ensures e in ds { DivBound(e, n); }
    r := Some(ds);
  }

  /** Every divisor of a non-zero value, with both signs. */
  method SignedDivisors(n: int) returns (r: seq<int>)
    requires n != 0
    ensures forall d :: d in r <==> Div(d, n)
  {
    var ds := Divisors(n);
    r := [];
    for i := 0 to |ds.value|
      invariant forall d :: d in r ==> Div(d, n)
      invariant forall k :: 0 <= k < i ==> ds.value[k] in r && -ds.value[k] in r
    {
      assert ds.value[i] in ds.value;
      DivNeg(ds.value[i], n);
      r := r + [ds.value[i], -ds.value[i]];
    }
    forall d | Div(d, n) ensures d in r {
      DivNeg(d, n);
      DivBound(d, n);
      var e := Abs(d);
      assert e in ds.value;
      var k :| 0 <= k < |ds.value| && ds.value[k] == e;
    }
  }

  /** 0, 1, -1, 2, -2, ... */
  function Point(i: nat): int {
    if i % 2 == 1 then (i + 1) / 2 else -(i / 2)
  }

  method ChoosePoints(r: nat) returns (x: seq<int>)
    ensures |x| == r + 1 && Distinct(x) && x[0] == 0
    ensures forall k :: 0 < k && 2 * k - 1 <= r ==> x[2 * k - 1] == k && (2 * k <= r ==> x[2 * k] == -k)
  {
    x := [0];
    var i := 1;
    while |x| <= r + 1
      invariant 1 <= i && |x| == 2 * i - 1 && |x| <= r + 3
      invariant forall k :: 0 <= k < |x| ==> x[k] == Point(k)
      decreases r + 3 - |x|
    {
      x := x + [i];
      x := x + [-i];
      i := i + 1;
    }
    x := x[..r + 1];
  }

  // ----- completeness of the search -----

  /** A proper non-constant divisor of f with at most n coefficients, taking the values y at the
      first points and divisors listed in D at the others. */
  ghost predicate Candidate(f: IntPoly, x: seq<int>, D: seq<seq<int>>, y: seq<int>, g: IntPoly, q: IntPoly)
    requires |x| == |D| && |y| <= |x|
  {
    && IsIntPoly(g) && IsIntPoly(q) && Times(q, g) == f
    && 2 <= |g| < |f| && |g| <= |x|
    && (forall i :: 0 <= i < |y| ==> ValueAt(g, x[i]) == y[i])
    && (forall i :: |y| <= i < |x| ==> ValueAt(g, x[i]) in D[i])
  }

  ghost predicate NoCandidate(f: IntPoly, x: seq<int>, D: seq<seq<int>>, y: seq<int>)
    requires |x| == |D| && |y| <= |x|
  {
    forall g, q :: !Candidate(f, x, D, y, g, q)
  }

  /** f has no divisor of degree between one and n - 1, and below its own. */
  ghost predicate NoDivisorUpTo(f: IntPoly, n: nat) {
    forall g, q {:trigger Times(q, g)} ::
      IsIntPoly(g) && IsIntPoly(q) && Times(q, g) == f && 2 <= |g| < |f| ==> |g| > n
  }

  // the embedding of the integers into the rationals
  lemma {:induction false} RealValue(g: IntPoly, x: int)
    ensures Interpolation.At(Interpolation.ToReals(g), x as real) == ValueAt(g, x) as real
  {
    if g != [] {
      RealValue(g[1..], x);
      assert Interpolation.ToReals(g)[1..] == Interpolation.ToReals(g[1..]);
    }
  }

  lemma InterpolantOfPoly(g: IntPoly, x: seq<int>, y: seq<int>)
    requires IsIntPoly(g) && |g| <= |x| == |y|
    requires forall i :: 0 <= i < |x| ==> ValueAt(g, x[i]) == y[i]
    ensures Interpolation.IsInterpolant(Interpolation.ToReals(x), Interpolation.ToReals(y), Interpolation.ToReals(g))
  {
    var r := Interpolation.ToReals(g);
    assert IsPoly(Rationals(), r);
    forall i | 0 <= i < |x|
      ensures Interpolation.At(r, Interpolation.ToReals(x)[i]) == Interpolation.ToReals(y)[i]
    {
      RealValue(g, x[i]);
    }
  }

  predicate HasIntegerCoefficients(p: seq<real>) {
    forall i :: 0 <= i < |p| ==> p[i] == p[i].Floor as real
  }

  /** The test and the conversion: succeeds exactly when all coefficients are integers, and then returns
      them. */
  method ToIntegerPoly(p: seq<real>) returns (r: Option<IntPoly>)
    ensures r.Some? <==> HasIntegerCoefficients(p)
    ensures r.Some? <==> exists g: IntPoly :: Interpolation.ToReals(g) == p
    ensures r.Some? ==> Interpolation.ToReals(r.value) == p
  {
    var v := [];
    for i := 0 to |p|
      invariant |v| == i && forall k :: 0 <= k < i ==> v[k] as real == p[k]
    {
      if p[i] != p[i].Floor as real {
        NotIntegral(p, i);
        return None;
      }
      v := v + [p[i].Floor];
    }
    assert Interpolation.ToReals(v) == p;
    r := Some(v);
  }

  lemma NotIntegral(p: seq<real>, i: nat)
    requires i < |p| && p[i] != p[i].Floor as real
    ensures forall g: IntPoly :: Interpolation.ToReals(g) != p
  {
    forall g: IntPoly ensures Interpolation.ToReals(g) != p {
      if |g| == |p| { assert Interpolation.ToReals(g)[i] == g[i] as real; }
    }
  }

  /** A polynomial divisor with the tabulated values is what the interpolation produces. */
  lemma CandidateIsInterpolated(f: IntPoly, x: seq<int>, D: seq<seq<int>>, y: seq<int>, g: IntPoly, q: IntPoly,
                                r: seq<real>)
    requires |x| == |D| == |y| && Distinct(x) && Candidate(f, x, D, y, g, q)
    requires Interpolation.IsInterpolant(Interpolation.ToReals(x), Interpolation.ToReals(y), Norm(Rationals(), r))
    requires r == [] || |r| == 1 || r[|r| - 1] != 0.0
    ensures r == Interpolation.ToReals(g)
  {
    hide Norm, Interpolation.ToReals, Interpolation.IsInterpolant;
    InterpolantOfPoly(g, x, y);
    Interpolation.InterpolantUnique(Interpolation.ToReals(x), Interpolation.ToReals(y),
                                    Interpolation.ToReals(g), Norm(Rationals(), r));
    RealForm(r, g);
  }

  lemma RealForm(r: seq<real>, g: IntPoly)
    requires Norm(Rationals(), r) == Interpolation.ToReals(g) && |g| >= 2
    requires r == [] || |r| == 1 || r[|r| - 1] != 0.0
    ensures r == Interpolation.ToReals(g)
  {
    RationalsAreField();
    NormIs(Rationals(), r);
    if |r| > 1 { NormOfPoly(Rationals(), r); }
  }

  // dividing out the content keeps an exact divisor exact over the rationals
  lemma PrimitivePartDivides(f: IntPoly, g: IntPoly, q: IntPoly, h: IntPoly, c: int)
    requires IsIntPoly(g) && IsIntPoly(q) && IsIntPoly(h) && Times(q, g) == f && c != 0 && ScaleBy(c, h) == g
    ensures DividesOverQ(f, h)
  {
    IntegersAreDomain();
    var K := Integers();
    TimesComm(q, g);
    ScaleMul(K, c, h, q);
    ScalePoly(K, c, q);
    ScaleMul(K, c, q, h);
    TimesComm(h, q);
    PMulPoly(K, q, g);
    ScaleOne(K, f);
    DividesOverQIntro(f, h, 1, ScaleBy(c, q));
  }

  lemma FactorSizes(f: IntPoly, g: IntPoly, q: IntPoly)
    requires IsIntPoly(f) && IsIntPoly(g) && IsIntPoly(q) && f == Times(q, g) && 2 <= |g| < |f|
    ensures |q| == |f| - |g| + 1 && 2 <= |q| < |f|
  {
    IntegersAreDomain();
    PMulPoly(Integers(), q, g);
    PMulLen(Integers(), q, g);
  }

  /** Exact division by a primitive divisor gives the integral cofactor itself. */
  method DividePrimitive(f: IntPoly, g: IntPoly) returns (r: Option<IntPoly>)
    requires IsIntPoly(f) && IsIntPoly(g) && Primitive(g)
    ensures r.Some? <==> DividesOverQ(f, g)
    ensures r.Some? ==> IsIntPoly(r.value) && f == Times(r.value, g)
  {
    ghost var l;
    r, l := ExactDivide(f, g);
    if r.Some? {
      GaussExact(f, g, l, r.value);
    }
  }

  // ----- the search -----

  method SearchTuples(index: nat, y: array<int>, x: seq<int>, D: seq<seq<int>>, f: IntPoly)
    returns (found: bool, factors: seq<IntPoly>)
    requires IsIntPoly(f) && |f| >= 3
    requires index <= |x| == |D| == y.Length && |x| >= 2 && Distinct(x)
    modifies y
    ensures y[..index] == old(y[..index])
    ensures found ==> Factorization(f, factors)
    ensures !found ==> NoCandidate(f, x, D, old(y[..index]))
    decreases |f|, 1, |x| - index
  {
    if index == |x| {
      found, factors := TryTuple(y[..], x, D, f);
      assert y[..] == y[..index];
      return;
    }
    ghost var prefix := y[..index];
    for k := 0 to |D[index]|
      invariant y[..index] == prefix
      invariant forall l :: 0 <= l < k ==> NoCandidate(f, x, D, prefix + [D[index][l]])
    {
      y[index] := D[index][k];
      assert y[..index + 1] == prefix + [D[index][k]];
      found, factors := SearchTuples(index + 1, y, x, D, f);
      assert y[..index] == y[..index + 1][..index];
      if found { return true, factors; }
    }
    ExtendPrefix(f, x, D, prefix);
    return false, [];
  }

  lemma ExtendPrefix(f: IntPoly, x: seq<int>, D: seq<seq<int>>, y: seq<int>)
    requires |x| == |D| && |y| < |x|
    requires forall l :: 0 <= l < |D[|y|]| ==> NoCandidate(f, x, D, y + [D[|y|][l]])
    ensures NoCandidate(f, x, D, y)
  {
    forall g, q ensures !Candidate(f, x, D, y, g, q) {
      if Candidate(f, x, D, y, g, q) { var l := CandidateExtends(f, x, D, y, g, q); }
    }
  }

  lemma CandidateExtends(f: IntPoly, x: seq<int>, D: seq<seq<int>>, y: seq<int>, g: IntPoly, q: IntPoly)
    returns (l: nat)
    requires |x| == |D| && |y| < |x| && Candidate(f, x, D, y, g, q)
    ensures l < |D[|y|]| && Candidate(f, x, D, y + [D[|y|][l]], g, q)
  {
    l :| 0 <= l < |D[|y|]| && D[|y|][l] == ValueAt(g, x[|y|]);
  }

  /** The leaf of the search: interpolate the chosen values and test the result. */
  method TryTuple(y: seq<int>, x: seq<int>, D: seq<seq<int>>, f: IntPoly)
    returns (found: bool, factors: seq<IntPoly>)
    requires IsIntPoly(f) && |f| >= 3
    requires |x| == |D| == |y| >= 2 && Distinct(x)
    ensures found ==> Factorization(f, factors)
    ensures !found ==> NoCandidate(f, x, D, y)
    decreases |f|, 0
  {
    var r := Interpolation.InterpolateLagrange(x, y);
    forall g, q | Candidate(f, x, D, y, g, q) ensures r == Interpolation.ToReals(g) {
      CandidateIsInterpolated(f, x, D, y, g, q, r);
    }
    var integral := ToIntegerPoly(r);
    if integral.None? {
      assert forall g, q :: Candidate(f, x, D, y, g, q) ==> Interpolation.ToReals(g) == r;
      return false, [];
    }
    var g := integral.value;
    forall h, q | Candidate(f, x, D, y, h, q) ensures h == g {
      SameReals(g, h);
    }
    if |g| < 2 || |g| >= |f| { return false, []; }
    assert g[|g| - 1] as real == r[|r| - 1];
    var h, c := PrimitivePart(g);
    var quotient := DividePrimitive(f, h);
    if quotient.Some? {
      FactorSizes(f, h, quotient.value);
      var f1 := Factorize(h);
      var f2 := Factorize(quotient.value);
      JoinFactorizations(f, h, quotient.value, f1, f2);
      return true, f1 + f2;
    }
    forall h', q | Candidate(f, x, D, y, h', q) ensures false {
      PrimitivePartDivides(f, g, q, h, c);
    }
    return false, [];
  }

  lemma SameReals(g: IntPoly, h: IntPoly)
    requires Interpolation.ToReals(g) == Interpolation.ToReals(h)
    ensures g == h
  {
    forall i | 0 <= i < |g| ensures g[i] == h[i] {
      assert Interpolation.ToReals(g)[i] == Interpolation.ToReals(h)[i];
    }
  }

  // the values of a divisor divide the values of f
  lemma DivisorIsCandidate(f: IntPoly, x: seq<int>, D: seq<seq<int>>, g: IntPoly, q: IntPoly)
    requires |x| == |D| && IsIntPoly(g) && IsIntPoly(q) && Times(q, g) == f && 2 <= |g| < |f| && |g| <= |x|
    requires forall i, d :: 0 <= i < |x| && Div(d, ValueAt(f, x[i])) ==> d in D[i]
    ensures Candidate(f, x, D, [], g, q)
  {
    forall i | 0 <= i < |x| ensures ValueAt(g, x[i]) in D[i] {
      ValueTimes(q, g, x[i]);
      DivIntro(ValueAt(g, x[i]), ValueAt(q, x[i]), ValueAt(f, x[i]));
    }
  }

  lemma NothingFound(f: IntPoly, x: seq<int>, D: seq<seq<int>>)
    requires |x| == |D|
    requires forall i, d :: 0 <= i < |x| && Div(d, ValueAt(f, x[i])) ==> d in D[i]
    requires NoCandidate(f, x, D, [])
    ensures NoDivisorUpTo(f, |x|)
  {
    forall g, q | IsIntPoly(g) && IsIntPoly(q) && Times(q, g) == f && 2 <= |g| < |f|
      ensures |g| > |x|
    {
      if |g| <= |x| { DivisorIsCandidate(f, x, D, g, q); }
    }
  }

  /** Of two cofactors the shorter one is at most half as long. */
  lemma NoHalfDivisor(f: IntPoly, n: nat)
    requires IsIntPoly(f) && |f| >= 3 && n == (|f| - 1) / 2 + 1 && NoDivisorUpTo(f, n)
    ensures IsIrreducible(f)
  {
    IntegersAreDomain();
    forall p, q | IsIntPoly(p) && IsIntPoly(q) && PMul(Integers(), p, q) == f
      ensures |p| == 1 || |q| == 1
    {
      PMulPoly(Integers(), p, q);
      PMulLen(Integers(), p, q);
      TimesComm(p, q);
      CofactorIsLong(f, n, p, q);
      CofactorIsLong(f, n, q, p);
    }
  }

  lemma CofactorIsLong(f: IntPoly, n: nat, g: IntPoly, q: IntPoly)
    requires NoDivisorUpTo(f, n) && IsIntPoly(g) && IsIntPoly(q) && Times(q, g) == f
    ensures |g| < 2 || |g| >= |f| || |g| > n
  {}

  lemma RootIsFactor(f: IntPoly, a: int)
    requires IsIntPoly(f) && ValueAt(f, a) == 0
    ensures IsIntPoly([-a, 1]) && Primitive([-a, 1]) && DividesOverQ(f, [-a, 1])
  {
    hide PMul, Scale, IsRing, IsDomain, DividesOverQ, Div;
    IntegersAreDomain();
    var q := RootSplits(Integers(), f, a);
    assert [-a, 1] == Linear(Integers(), a);
    ScaleOne(Integers(), f);
    DividesOverQIntro(f, [-a, 1], 1, q);
    var l := [-a, 1];
    forall d | d > 1 && AllDiv(d, l) ensures false {
      assert Div(d, l[1]);
      DivBound(d, 1);
    }
  }

  /** The tables of divisors, or the first point at which f vanishes. */
  method DivisorTables(f: IntPoly, x: seq<int>) returns (root: Option<int>, D: seq<seq<int>>)
    ensures root.Some? ==> ValueAt(f, root.value) == 0
    ensures root.None? ==> |D| == |x| && forall i, d :: 0 <= i < |x| && Div(d, ValueAt(f, x[i])) ==> d in D[i]
  {
    D := [];
    root := None;
    for i := 0 to |x|
      invariant |D| == i && root.None?
      invariant forall k, d :: 0 <= k < i && Div(d, ValueAt(f, x[k])) ==> d in D[k]
    {
      var val := EvalAtInt(f, x[i]);
      if val == 0 {
        root := Some(x[i]);
        break;
      }
      var ds := SignedDivisors(val);
      D := D + [ds];
    }
  }

  /** Factors f completely: every returned polynomial is irreducible, and they multiply back to f,
      content and sign included.  In particular [f] is returned only when f is irreducible. */
  method Factorize(f: IntPoly) returns (factors: seq<IntPoly>)
    requires IsIntPoly(f)
    ensures |f| <= 1 ==> factors == []
    ensures |f| >= 2 ==> Factorization(f, factors)
    decreases |f|, 2, 0
  {
    if |f| <= 1 { return []; }
    if |f| == 2 {
      LinearIsIrreducible(f);
      SingleFactor(f);
      return [f];
    }
    var r := (|f| - 1) / 2;
    var points := ChoosePoints(r);
    for s := 1 to r + 1
      invariant s >= 2 ==> NoDivisorUpTo(f, s)
    {
      var x := points[..s + 1];
      var root, D := DivisorTables(f, x);
      if root.Some? {
        var linear := [-root.value, 1];
        RootIsFactor(f, root.value);
        var quotient := DividePrimitive(f, linear);
        FactorSizes(f, linear, quotient.value);
        var f1 := Factorize(linear);
        var f2 := Factorize(quotient.value);
        JoinFactorizations(f, linear, quotient.value, f1, f2);
        return f1 + f2;
      }
      var y := new int[s + 1];
      var found, fs := SearchTuples(0, y, x, D, f);
      if found { return fs; }
      assert y[..0] == [];
      NothingFound(f, x, D);
    }
    NoHalfDivisor(f, r + 1);
    SingleFactor(f);
    return [f];
  }
}
