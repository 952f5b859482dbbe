/** Berlekamp's algorithm is complete: what cannot be split is irreducible. */
module BerlekampComplete {
  import opened Rings
  import opened Polys
  import opened Vectors
  import opened Division
  import opened Euclid
  import opened Comaximal
  import opened Congruence
  import opened Numbers
  import opened PrimeField
  import opened Frobenius
  import opened LinearAlgebra
  import opened NullSpace
  import opened FixedVectors
  import opened Berlekamp
  import opened BerlekampTheory
  import opened BerlekampCoprime
  import opened BerlekampSplit
  import opened FermatProduct
  import opened ChineseRemainder

  // ----- modulo an unsplit factor every fixed vector is a constant -----

  /** h is congruent to a constant modulo g. */
  ghost predicate ConstantModulo<F(!new)>(K: Ring<F>, g: seq<F>, h: seq<F>) {
    exists s :: K.has(s) && CongBy(PolyRing(K), g, h, Const(K, s))
  }

  // a divisor of g as long as g is divided by g
  lemma FullDivisor<F(!new)>(K: Ring<F>, g: seq<F>, d: seq<F>)
    requires IsField(K) && IsPoly(K, g) && IsPoly(K, d) && g != [] && Divides(PolyRing(K), d, g) && |d| >= |g|
    ensures Divides(PolyRing(K), g, d)
  {
    hide PMul, Scale;
    FieldIsDomain(K);
    PolyRingIsRing(K);
    var q :| IsPoly(K, q) && PMul(K, q, d) == g;
    NonZeroFactors(K, q, d, g);
    PMulLen(K, q, d);
    Leading(K, q);
    ConstIsPoly(K, q[0]);
    assert q == [q[0]] == Const(K, q[0]);
    ConstMul(K, q[0], d);
    var i := K.inverse(q[0]).value;
    ConstIsPoly(K, i);
    ConstMul(K, i, g);
    ScaleScale(K, i, q[0], d);
    MulComm(K, i, q[0]);
    ScaleOne(K, d);
    DividesIntro(PolyRing(K), Const(K, i), g, d);
  }

  lemma ConstIsPoly<F(!new)>(K: Ring<F>, c: F)
    requires IsRing(K) && K.has(c)
    ensures IsPoly(K, Const(K, c)) && (c != K.zero ==> Const(K, c) == [c])
  {}

  lemma NonZeroFactors<F(!new)>(K: Ring<F>, q: seq<F>, d: seq<F>, g: seq<F>)
    requires IsRing(K) && IsPoly(K, q) && IsPoly(K, d) && PMul(K, q, d) == g && g != []
    ensures q != [] && d != []
  {
    PMulComm(K, q, d);
  }

  // a gcd of length at most one makes g and h comaximal
  lemma ShortGcd<F(!new)>(K: Ring<F>, g: seq<F>, h: seq<F>, d: seq<F>)
    requires IsField(K) && IsPoly(K, g) && IsPoly(K, h) && g != [] && IsGcd(K, g, h, d) && |d| <= 1
    ensures Comax(PolyRing(K), g, h)
  {
    hide PMul;
    PolyRingIsRing(K);
    FieldIsDomain(K);
    DivisorLen(K, d, g);
    assert d == [K.one];
    OneIsPoly(K);
  }

  lemma GcdParts<F(!new)>(K: Ring<F>, g: seq<F>, h: seq<F>, d: seq<F>)
    requires IsGcd(K, g, h, d)
    ensures IsPoly(K, d) && Divides(PolyRing(K), d, g) && Divides(PolyRing(K), d, h)
  {}

  // a trivial gcd: g divides h - s, or they are comaximal
  lemma TrivialCases<F(!new)>(K: Ring<F>, g: seq<F>, h: seq<F>, s: F)
    requires IsField(K) && IsPoly(K, g) && IsPoly(K, h) && K.has(s) && |g| >= 2 && Trivial(K, g, h, s)
    ensures IsPoly(K, Const(K, s)) && IsPoly(K, PSub(K, h, Const(K, s)))
    ensures Divides(PolyRing(K), g, PSub(K, h, Const(K, s))) || Comax(PolyRing(K), g, PSub(K, h, Const(K, s)))
  {
    hide PMul, PAdd, IsGcd, Divides, Comax;
    PolyRingIsRing(K);
    ConstIsPoly(K, s);
    PNegPoly(K, Const(K, s));
    PAddPoly(K, h, PNeg(K, Const(K, s)));
    var d :| IsGcd(K, g, PSub(K, h, Const(K, s)), d) && (|d| <= 1 || |d| >= |g|);
    if |d| <= 1 {
      ShortGcd(K, g, PSub(K, h, Const(K, s)), d);
    } else {
      GcdParts(K, g, PSub(K, h, Const(K, s)), d);
      FullDivisor(K, g, d);
      DividesTrans(PolyRing(K), g, d, PSub(K, h, Const(K, s)));
    }
  }

  ghost predicate Apart(p: nat, g: seq<int>, h: seq<int>, s: int)
    requires p > 1
  {
    IsPoly(Fp(p), Const(Fp(p), s)) && !Comax(PolyRing(Fp(p)), g, PSub(Fp(p), h, Const(Fp(p), s)))
  }

  // comaximal with every h - s means comaximal with h^p - h
  lemma ComaxWithPower(p: nat, g: seq<int>, h: seq<int>)
    requires Prime(p) && IsPoly(Fp(p), g) && IsPoly(Fp(p), h)
    requires forall s :: 0 <= s < p ==> !Apart(p, g, h, s)
    ensures var x := Sub(PolyRing(Fp(p)), Power(PolyRing(Fp(p)), h, p), h);
      IsPoly(Fp(p), x) && Comax(PolyRing(Fp(p)), g, x)
  {
    hide Power, PMul, PAdd, PNeg, Prod, IsField, Comax, FpMod, ModInverse, IsPoly;
    var (K, P) := (Fp(p), PolyRing(Fp(p)));
    FpIsField(p);
    PolyRingIsRing(K);
    var ds := Differences(P, h, Constants(p));
    DifferencesHas(p, h);
    forall s | 0 <= s < p ensures Comax(P, g, ds[s]) {
      ConstIsPoly(K, s);
      assert !Apart(p, g, h, s);
    }
    FermatForPolynomials(p, h);
    ComaxProd(P, g, ds);
    ProdHas(P, ds);
  }

  // g is a divisor of h^p - h, so it is not comaximal with every h - s
  lemma SomeResidue(p: nat, g: seq<int>, h: seq<int>)
    requires Prime(p) && IsPoly(Fp(p), g) && IsPoly(Fp(p), h) && |g| >= 2
    requires CongBy(PolyRing(Fp(p)), g, Power(PolyRing(Fp(p)), h, p), h)
    ensures exists s :: 0 <= s < p && Apart(p, g, h, s)
  {
    hide Power, PMul, PAdd, PNeg, IsField, Comax, FpMod, ModInverse, Apart, Divides, IsPoly;
    if forall s :: 0 <= s < p ==> !Apart(p, g, h, s) {
      FpIsField(p);
      ComaxWithPower(p, g, h);
      ComaxMultiple(Fp(p), g, Sub(PolyRing(Fp(p)), Power(PolyRing(Fp(p)), h, p), h));
    }
  }

  // a polynomial comaximal with its own multiple is constant
  lemma ComaxMultiple<F(!new)>(K: Ring<F>, g: seq<F>, x: seq<F>)
    requires IsField(K) && IsPoly(K, g) && IsPoly(K, x) && Comax(PolyRing(K), g, x) && Divides(PolyRing(K), g, x)
    ensures |g| <= 1
  {
    hide PMul, Comax, Divides;
    PolyRingIsRing(K);
    FieldIsDomain(K);
    OneIsPoly(K);
    MulOne(PolyRing(K), x);
    ComaxDivides(PolyRing(K), g, x, [K.one]);
    DivisorLen(K, g, [K.one]);
  }

  /** When no residue splits g with h, and g divides h^p - h, h is a constant modulo g. */
  lemma StuckIsConstant(p: nat, g: seq<int>, h: seq<int>)
    requires Prime(p) && IsPoly(Fp(p), g) && IsPoly(Fp(p), h) && |g| > 2 && Stuck(p, g, h)
    requires CongBy(PolyRing(Fp(p)), g, Power(PolyRing(Fp(p)), h, p), h)
    ensures ConstantModulo(Fp(p), g, h)
  {
    hide Power, PMul, PAdd, IsField, Comax, Divides, Trivial, FpMod, ModInverse;
    FpIsField(p);
    SomeResidue(p, g, h);
    var s :| 0 <= s < p && Apart(p, g, h, s);
    assert Trivial(Fp(p), g, h, s);
    TrivialCases(Fp(p), g, h, s);
    assert Fp(p).has(s);
  }

  // ----- combinations of constants are constants -----

  lemma ConstantSum<F(!new)>(K: Ring<F>, g: seq<F>, a: seq<F>, b: seq<F>)
    requires IsRing(K) && IsPoly(K, g) && IsPoly(K, a) && IsPoly(K, b)
    requires ConstantModulo(K, g, a) && ConstantModulo(K, g, b)
    ensures ConstantModulo(K, g, PAdd(K, a, b))
  {
    hide PMul, PAdd, CongBy, IsPoly;
    PolyRingIsRing(K);
    var s :| K.has(s) && CongBy(PolyRing(K), g, a, Const(K, s));
    var t :| K.has(t) && CongBy(PolyRing(K), g, b, Const(K, t));
    ConstIsPoly(K, s);
    ConstIsPoly(K, t);
    CongPlus(PolyRing(K), g, a, Const(K, s), b, Const(K, t));
    ConstAdd(K, s, t);
  }

  lemma ConstantScale<F(!new)>(K: Ring<F>, g: seq<F>, c: F, a: seq<F>)
    requires IsRing(K) && IsPoly(K, g) && IsPoly(K, a) && K.has(c) && ConstantModulo(K, g, a)
    ensures ConstantModulo(K, g, Scale(K, c, a))
  {
    hide PMul, Scale, CongBy, IsPoly;
    PolyRingIsRing(K);
    var s :| K.has(s) && CongBy(PolyRing(K), g, a, Const(K, s));
    ConstIsPoly(K, s);
    ConstIsPoly(K, c);
    CongTimesLeft(PolyRing(K), g, Const(K, c), a, Const(K, s));
    ConstMul(K, c, a);
    ConstTimes(K, c, s);
  }

  lemma ConstantConstant<F(!new)>(K: Ring<F>, g: seq<F>, s: F)
    requires IsRing(K) && IsPoly(K, g) && K.has(s)
    ensures IsPoly(K, Const(K, s)) && ConstantModulo(K, g, Const(K, s))
  {
    PolyRingIsRing(K);
    ConstIsPoly(K, s);
    CongSelf(PolyRing(K), g, Const(K, s));
  }

  lemma NormSum<F(!new)>(K: Ring<F>, u: seq<F>, v: seq<F>)
    requires IsRing(K) && AllIn(K, u) && AllIn(K, v) && |u| == |v|
    ensures AllIn(K, VAdd(K, u, v)) && Norm(K, VAdd(K, u, v)) == PAdd(K, Norm(K, u), Norm(K, v))
  {
    hide Norm, PAdd;
    NormIs(K, u);
    NormIs(K, v);
    PAddPoly(K, Norm(K, u), Norm(K, v));
    AddZero(K, K.zero);
    forall i: nat ensures Coeff(K, VAdd(K, u, v), i) == Coeff(K, PAdd(K, Norm(K, u), Norm(K, v)), i) {
      CoeffAdd(K, Norm(K, u), Norm(K, v), i);
      assert Coeff(K, Norm(K, u), i) == Coeff(K, u, i) && Coeff(K, Norm(K, v), i) == Coeff(K, v, i);
    }
    NormOf(K, VAdd(K, u, v), PAdd(K, Norm(K, u), Norm(K, v)));
  }

  lemma NormScale<F(!new)>(K: Ring<F>, c: F, v: seq<F>)
    requires IsRing(K) && AllIn(K, v) && K.has(c)
    ensures AllIn(K, VScale(K, c, v)) && Norm(K, VScale(K, c, v)) == Scale(K, c, Norm(K, v))
  {
    hide Norm, Scale;
    NormIs(K, v);
    ScalePoly(K, c, Norm(K, v));
    MulZero(K, c);
    forall i: nat ensures Coeff(K, VScale(K, c, v), i) == Coeff(K, Scale(K, c, Norm(K, v)), i) {
      CoeffScale(K, c, Norm(K, v), i);
      assert Coeff(K, Norm(K, v), i) == Coeff(K, v, i);
    }
    NormOf(K, VScale(K, c, v), Scale(K, c, Norm(K, v)));
  }

  lemma {:induction false} ComboIsConstant<F(!new)>(K: Ring<F>, g: seq<F>, basis: seq<seq<F>>, c: seq<F>, n: nat)
    requires IsRing(K) && IsPoly(K, g) && AreVectors(K, basis, n) && IsVector(K, c, |basis|)
    requires forall t :: 0 <= t < |basis| ==> ConstantModulo(K, g, Norm(K, basis[t]))
    ensures AllIn(K, Combo(K, basis, c, n)) && ConstantModulo(K, g, Norm(K, Combo(K, basis, c, n)))
  {
    hide Norm, PAdd, Scale, ConstantModulo;
    if basis == [] {
      ZeroVector(K, n);
      ConstantConstant(K, g, K.zero);
    } else {
      var rest := Combo(K, basis[1..], c[1..], n);
      ComboIsConstant(K, g, basis[1..], c[1..], n);
      assert IsVector(K, basis[0], n);
      NormIs(K, basis[0]);
      NormIs(K, rest);
      NormScale(K, c[0], basis[0]);
      ConstantScale(K, g, c[0], Norm(K, basis[0]));
      NormSum(K, VScale(K, c[0], basis[0]), rest);
      ScalePoly(K, c[0], Norm(K, basis[0]));
      ConstantSum(K, g, Scale(K, c[0], Norm(K, basis[0])), Norm(K, rest));
    }
  }

  lemma ZeroVector<F(!new)>(K: Ring<F>, n: nat)
    requires IsRing(K)
    ensures AllIn(K, Zeros(K, n)) && Norm(K, Zeros(K, n)) == Const(K, K.zero)
  {
    NormOf(K, Zeros(K, n), []);
  }

  // ----- solutions of h^p == h from residues modulo comaximal factors -----

  // h is congruent to a constant modulo each factor, so h^p == h modulo their product
  lemma ResiduesSolve(p: nat, us: seq<seq<int>>, h: seq<int>, c: seq<int>)
    requires Prime(p) && Family(PolyRing(Fp(p)), us) && PairwiseComax(PolyRing(Fp(p)), us) && IsPoly(Fp(p), h)
    requires IsVector(Fp(p), c, |us|)
    requires forall i :: 0 <= i < |us| ==> CongBy(PolyRing(Fp(p)), us[i], h, Const(Fp(p), c[i]))
    ensures CongBy(PolyRing(Fp(p)), Prod(PolyRing(Fp(p)), us), Power(PolyRing(Fp(p)), h, p), h)
  {
    hide Power, PMul, PAdd, Prod, IsField, Comax, CongBy, FpMod, ModInverse, IsPoly;
    var (K, P) := (Fp(p), PolyRing(Fp(p)));
    FpIsField(p);
    PolyRingIsRing(K);
    PowerHas(P, h, p);
    forall i | 0 <= i < |us| ensures CongBy(P, us[i], Power(P, h, p), h) {
      ConstOfResidue(p, c[i]);
      CongPower(P, us[i], h, Const(K, c[i]), p);
      CongSym(P, us[i], h, Const(K, c[i]));
      CongTrans(P, us[i], Power(P, h, p), Const(K, c[i]), h);
    }
    ProductCong(P, us, Power(P, h, p), h);
  }

  lemma ProductCong<F(!new)>(R: Ring<F>, us: seq<F>, a: F, b: F)
    requires IsRing(R) && Family(R, us) && PairwiseComax(R, us) && R.has(a) && R.has(b)
    requires forall i :: 0 <= i < |us| ==> CongBy(R, us[i], a, b)
    ensures CongBy(R, Prod(R, us), a, b)
  {
    hide Prod, Comax, Divides;
    ProductDivides(R, us, Sub(R, a, b));
  }

  // the remainder of h by f
  lemma Remainder<F(!new)>(K: Ring<F>, f: seq<F>, h: seq<F>) returns (r: seq<F>)
    requires IsField(K) && IsPoly(K, f) && IsPoly(K, h) && f != []
    ensures IsPoly(K, r) && |r| < |f| && CongBy(PolyRing(K), f, r, h)
  {
    hide PMul, PAdd, Divide;
    Leading(K, f);
    PolyRingIsRing(K);
    var P := PolyRing(K);
    var d := Divide(K, h, f, K.inverse(f[|f| - 1]).value);
    DivideCorrect(K, h, f, K.inverse(f[|f| - 1]).value);
    r := d.rem;
    PMulPoly(K, d.quo, f);
    SubOfSum(P, PMul(K, d.quo, f), r, h);
    CongReduce(P, f, h, d.quo);
  }

  // congruent modulo a product is congruent modulo a factor
  lemma CongFactor<F(!new)>(R: Ring<F>, m: F, f: F, a: F, b: F)
    requires IsRing(R) && R.has(m) && R.has(f) && R.has(a) && R.has(b) && Divides(R, m, f) && CongBy(R, f, a, b)
    ensures CongBy(R, m, a, b)
  {
    hide Divides;
    DividesTrans(R, m, f, Sub(R, a, b));
  }

  // a vector of length n for a polynomial of length at most n
  lemma Padded<F(!new)>(K: Ring<F>, h: seq<F>, n: nat) returns (v: seq<F>)
    requires IsRing(K) && IsPoly(K, h) && |h| <= n
    ensures IsVector(K, v, n) && Norm(K, v) == h
  {
    hide Norm;
    v := h + Zeros(K, n - |h|);
    NormOf(K, v, h);
  }

  /** For every choice of residues there is a fixed vector with those residues. */
  lemma FixedWithResidues(p: nat, f: seq<int>, Q: Matrix<int>, us: seq<seq<int>>, c: seq<int>) returns (v: seq<int>)
    requires Prime(p) && IsPoly(Fp(p), f) && |f| >= 2 && IsPowerMatrix(p, f, |f| - 1, Q)
    requires Family(PolyRing(Fp(p)), us) && PairwiseComax(PolyRing(Fp(p)), us) && Prod(PolyRing(Fp(p)), us) == f
    requires IsVector(Fp(p), c, |us|)
    ensures |Q| == |f| - 1 && forall j :: 0 <= j < |Q| ==> |Q[j]| == |Q|
    ensures IsVector(Fp(p), v, |Q|) && IsFixed(Fp(p), Q, |Q|, v)
    ensures forall i :: 0 <= i < |us| ==> CongBy(PolyRing(Fp(p)), us[i], Norm(Fp(p), v), Const(Fp(p), c[i]))
  {
    hide Power, PMul, PAdd, Prod, IsField, Comax, CongBy, FpMod, ModInverse, IsPowerMatrix, IsFixed, Divides, Norm;
    var (K, P) := (Fp(p), PolyRing(Fp(p)));
    FpIsField(p);
    PolyRingIsRing(K);
    MatrixRows(p, f, Q);
    var cs := seq(|us|, i requires 0 <= i < |us| => Const(K, c[i]));
    forall i | 0 <= i < |us| ensures IsPoly(K, cs[i]) { ConstIsPoly(K, c[i]); }
    var g := CrtExists(P, us, cs);
    var h := Remainder(K, f, g);
    forall i | 0 <= i < |us| ensures CongBy(P, us[i], h, Const(K, c[i])) {
      FactorDivides(P, us, i);
      CongFactor(P, us[i], f, h, g);
      CongTrans(P, us[i], h, g, Const(K, c[i]));
    }
    ResiduesSolve(p, us, h, c);
    v := Padded(K, h, |f| - 1);
    FixedIffPower(p, f, Q, v);
  }
}
