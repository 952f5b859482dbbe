/** What Berlekamp's algorithm returns: one factor for each dimension of the fixed space, all irreducible
    exactly when the polynomial is square-free. */
module BerlekampIrreducible {
  import opened Rings
  import opened Polys
  import opened Vectors
  import opened Division
  import opened Euclid
  import opened Comaximal
  import opened Congruence
  import opened Numbers
  import opened PrimeField
  import opened LinearAlgebra
  import opened NullSpace
  import opened FixedVectors
  import opened Berlekamp
  import opened BerlekampTheory
  import opened BerlekampCoprime
  import opened BerlekampSplit
  import opened BerlekampComplete
  import opened ChineseRemainder
  import opened Factors

  /** A basis of the vectors fixed by the matrix of f, its first element being the polynomial 1. */
  ghost predicate FixedSpace(p: nat, f: seq<int>, Q: Matrix<int>, vectors: seq<seq<int>>)
    requires p > 1
  {
    && IsPoly(Fp(p), f) && |f| >= 2 && |Q| == |f| - 1 && IsPowerMatrix(p, f, |f| - 1, Q)
    && (forall j :: 0 <= j < |Q| ==> |Q[j]| == |Q|)
    && IsBasis(Fp(p), MinusIdentity(Fp(p), Q, |Q|), |Q|, vectors)
    && |vectors| > 0 && vectors[0] == Unit(Fp(p), |Q|, 0)
  }

  lemma Spanned(p: nat, f: seq<int>, Q: Matrix<int>, vectors: seq<seq<int>>, v: seq<int>) returns (d: seq<int>)
    requires Prime(p) && FixedSpace(p, f, Q, vectors) && IsVector(Fp(p), v, |Q|) && IsFixed(Fp(p), Q, |Q|, v)
    ensures AreVectors(Fp(p), vectors, |Q|) && IsVector(Fp(p), d, |vectors|) && Combo(Fp(p), vectors, d, |Q|) == v
  {
    hide IsField, IsFixed, InKernel, IsPowerMatrix, FpMod, ModInverse, IsPoly, MinusIdentity;
    FpIsField(p);
    MatrixRows(p, f, Q);
    KernelIsFixed(Fp(p), Q, |Q|, v);
    d :| IsVector(Fp(p), d, |vectors|) && Combo(Fp(p), vectors, d, |Q|) == v;
  }

  // basis vectors solve h^p == h modulo f
  lemma BasisSolves(p: nat, f: seq<int>, Q: Matrix<int>, vectors: seq<seq<int>>, t: nat)
    requires Prime(p) && FixedSpace(p, f, Q, vectors) && t < |vectors|
    ensures IsVector(Fp(p), vectors[t], |Q|)
    ensures CongBy(PolyRing(Fp(p)), f, Power(PolyRing(Fp(p)), Norm(Fp(p), vectors[t]), p), Norm(Fp(p), vectors[t]))
  {
    hide IsField, IsFixed, InKernel, IsPowerMatrix, FpMod, ModInverse, IsPoly, CongBy, Norm, Power, MinusIdentity;
    FpIsField(p);
    MatrixRows(p, f, Q);
    KernelIsFixed(Fp(p), Q, |Q|, vectors[t]);
    FixedIffPower(p, f, Q, vectors[t]);
  }

  // ----- at least as many basis vectors as comaximal factors -----

  /** The combination d of the basis has residue c_i modulo us_i. */
  ghost predicate HasResidues(p: nat, us: seq<seq<int>>, vectors: seq<seq<int>>, n: nat, c: seq<int>, d: seq<int>)
    requires p > 1
  {
    && AreVectors(Fp(p), vectors, n) && IsVector(Fp(p), c, |us|) && IsVector(Fp(p), d, |vectors|)
    && forall i :: 0 <= i < |us| ==>
         CongBy(PolyRing(Fp(p)), us[i], Norm(Fp(p), Combo(Fp(p), vectors, d, n)), Const(Fp(p), c[i]))
  }

  lemma InVectors(p: nat, n: nat, v: seq<int>)
    requires p > 1
    ensures v in AllVectors(p, n) <==> IsVector(Fp(p), v, n)
  {}

  lemma ResiduesReached(p: nat, f: seq<int>, Q: Matrix<int>, us: seq<seq<int>>, vectors: seq<seq<int>>, c: seq<int>)
    requires Prime(p) && FixedSpace(p, f, Q, vectors) && IsVector(Fp(p), c, |us|)
    requires Family(PolyRing(Fp(p)), us) && PairwiseComax(PolyRing(Fp(p)), us) && Prod(PolyRing(Fp(p)), us) == f
    ensures exists d :: d in AllVectors(p, |vectors|) && HasResidues(p, us, vectors, |Q|, c, d)
  {
    hide IsField, IsFixed, IsPowerMatrix, Prod, Comax, CongBy, Norm, IsBasis;
    var v := FixedWithResidues(p, f, Q, us, c);
    var d := Spanned(p, f, Q, vectors, v);
    InVectors(p, |vectors|, d);
  }

  lemma ResiduesAreUnique(p: nat, us: seq<seq<int>>, vectors: seq<seq<int>>, n: nat, c: seq<int>, e: seq<int>,
                          d: seq<int>)
    requires Prime(p) && NonConstants(Fp(p), us)
    requires HasResidues(p, us, vectors, n, c, d) && HasResidues(p, us, vectors, n, e, d)
    ensures c == e
  {
    hide IsField, CongBy, Norm, FpMod, ModInverse;
    var (K, P) := (Fp(p), PolyRing(Fp(p)));
    FpIsField(p);
    PolyRingIsRing(K);
    ComboHas(K, vectors, d, n);
    NormIs(K, Combo(K, vectors, d, n));
    forall i | 0 <= i < |us| ensures c[i] == e[i] {
      ConstantsAgree(K, us[i], Norm(K, Combo(K, vectors, d, n)), c[i], e[i]);
    }
  }

  // two constant residues of h modulo a non-constant polynomial agree
  lemma ConstantsAgree<F(!new)>(K: Ring<F>, u: seq<F>, h: seq<F>, s: F, t: F)
    requires IsField(K) && IsPoly(K, u) && |u| >= 2 && IsPoly(K, h) && K.has(s) && K.has(t)
    requires CongBy(PolyRing(K), u, h, Const(K, s)) && CongBy(PolyRing(K), u, h, Const(K, t))
    ensures s == t
  {
    hide CongBy;
    PolyRingIsRing(K);
    ConstIsPoly(K, s);
    ConstIsPoly(K, t);
    CongSym(PolyRing(K), u, h, Const(K, s));
    CongTrans(PolyRing(K), u, Const(K, s), h, Const(K, t));
    ShortCong(K, u, Const(K, s), Const(K, t));
    assert Coeff(K, Const(K, s), 0) == s && Coeff(K, Const(K, t), 0) == t;
  }

  /** The dimension of the fixed space bounds the number of comaximal non-constant factors. */
  lemma DimensionBound(p: nat, f: seq<int>, Q: Matrix<int>, us: seq<seq<int>>, vectors: seq<seq<int>>)
    requires Prime(p) && FixedSpace(p, f, Q, vectors)
    requires NonConstants(Fp(p), us) && PairwiseComax(PolyRing(Fp(p)), us) && Prod(PolyRing(Fp(p)), us) == f
    ensures |us| <= |vectors|
  {
    hide Prod, Comax, HasResidues, FixedSpace, NonConstants;
    var n := |Q|;
    Families(Fp(p), us);
    var rel := (c: seq<int>, d: seq<int>) => HasResidues(p, us, vectors, n, c, d);
    forall c | c in AllVectors(p, |us|) ensures exists d :: d in AllVectors(p, |vectors|) && rel(c, d) {
      InVectors(p, |us|, c);
      ResiduesReached(p, f, Q, us, vectors, c);
      var d :| d in AllVectors(p, |vectors|) && HasResidues(p, us, vectors, n, c, d);
      assert rel(c, d);
    }
    forall c, e, d | c in AllVectors(p, |us|) && e in AllVectors(p, |us|) && d in AllVectors(p, |vectors|)
      && rel(c, d) && rel(e, d)
      ensures c == e
    {
      ResiduesAreUnique(p, us, vectors, n, c, e, d);
    }
    Injection(AllVectors(p, |us|), AllVectors(p, |vectors|), rel);
    VectorCount(p, |us|);
    VectorCount(p, |vectors|);
    PowerOrder(p, |us|, |vectors|);
  }

  // ----- a square-free product has comaximal factors -----

  lemma SquareFreePairwise<F(!new)>(K: Ring<F>, us: seq<seq<F>>)
    requires IsField(K) && NonConstants(K, us) && SquareFree(K, Prod(PolyRing(K), us))
    ensures PairwiseComax(PolyRing(K), us)
  {
    hide IsField, SquareFree, Prod, Comax, PMul, Divides;
    var P := PolyRing(K);
    FieldParts(K);
    PolyRingIsRing(K);
    Families(K, us);
    forall i, j | 0 <= i < j < |us| ensures Comax(P, us[i], us[j]) {
      var rest := us[..i] + us[i + 1..];
      ProdExtract(P, us, i);
      ProdHas(P, rest);
      SquareFreeSplits(K, us[i], Prod(P, rest));
      assert rest[j - 1] == us[j];
      FactorDivides(P, rest, j - 1);
      ComaxDivisor(P, us[i], us[j], Prod(P, rest));
    }
  }

  lemma FieldParts<F(!new)>(K: Ring<F>)
    requires IsField(K)
    ensures IsRing(K) && K.one != K.zero && K.has(K.one) && K.has(K.zero)
  {
    FieldIsDomain(K);
  }

  // ----- a proper factorization of one factor -----

  /** Modulo a factor that no basis element splits, every fixed vector is a constant. */
  lemma FixedIsConstant(p: nat, f: seq<int>, Q: Matrix<int>, vectors: seq<seq<int>>, g: seq<int>, v: seq<int>)
    requires Prime(p) && FixedSpace(p, f, Q, vectors) && IsVector(Fp(p), v, |Q|) && IsFixed(Fp(p), Q, |Q|, v)
    requires IsPoly(Fp(p), g) && |g| > 2 && Divides(PolyRing(Fp(p)), g, f)
    requires forall t :: 1 <= t < |vectors| ==> Stuck(p, g, Norm(Fp(p), vectors[t]))
    ensures ConstantModulo(Fp(p), g, Norm(Fp(p), v))
  {
    hide IsField, IsFixed, IsPowerMatrix, CongBy, Norm, IsBasis, Power, Stuck, ConstantModulo, Unit, Divides, PMul;
    var (K, P) := (Fp(p), PolyRing(Fp(p)));
    FpIsField(p);
    PolyRingIsRing(K);
    var d := Spanned(p, f, Q, vectors, v);
    forall t | 0 <= t < |vectors| ensures ConstantModulo(K, g, Norm(K, vectors[t])) {
      BasisSolves(p, f, Q, vectors, t);
      NormIs(K, vectors[t]);
      if t == 0 {
        UnitIsOne(K, |Q|);
        FieldParts(K);
        ConstantConstant(K, g, K.one);
      } else {
        PowerHas(P, Norm(K, vectors[t]), p);
        CongFactor(P, g, f, Power(P, Norm(K, vectors[t]), p), Norm(K, vectors[t]));
        StuckIsConstant(p, g, Norm(K, vectors[t]));
      }
    }
    ComboIsConstant(K, g, vectors, d, |Q|);
  }

  lemma UnitIsOne<F(!new)>(K: Ring<F>, n: nat)
    requires IsField(K) && n > 0
    ensures Norm(K, Unit(K, n, 0)) == Const(K, K.one)
  {
    hide Norm;
    FieldIsDomain(K);
    ConstIsPoly(K, K.one);
    NormOf(K, Unit(K, n, 0), Const(K, K.one));
  }

  // a vector that is 1 modulo a and 0 modulo b is no constant modulo a b
  lemma SeparatedIsNotConstant<F(!new)>(K: Ring<F>, a: seq<F>, b: seq<F>, h: seq<F>)
    requires IsField(K) && IsPoly(K, a) && IsPoly(K, b) && |a| >= 2 && |b| >= 2 && IsPoly(K, h)
    requires CongBy(PolyRing(K), a, h, Const(K, K.one)) && CongBy(PolyRing(K), b, h, Const(K, K.zero))
    ensures !ConstantModulo(K, PMul(K, a, b), h)
  {
    hide CongBy, PMul, Divides;
    var P := PolyRing(K);
    PolyRingIsRing(K);
    FieldParts(K);
    PMulPoly(K, a, b);
    if ConstantModulo(K, PMul(K, a, b), h) {
      var s :| K.has(s) && CongBy(P, PMul(K, a, b), h, Const(K, s));
      ConstIsPoly(K, s);
      DividesSelf(P, a);
      DividesSelf(P, b);
      PMulComm(K, a, b);
      DividesMul(P, a, a, b);
      DividesMul(P, b, b, a);
      CongFactor(P, a, PMul(K, a, b), h, Const(K, s));
      CongFactor(P, b, PMul(K, a, b), h, Const(K, s));
      ConstantsAgree(K, a, h, s, K.one);
      ConstantsAgree(K, b, h, s, K.zero);
    }
  }

  /** With every factor stuck on every basis element, or as many factors as basis elements, a factor
      has no proper factorization. */
  lemma NoProperSplit(p: nat, f: seq<int>, Q: Matrix<int>, vectors: seq<seq<int>>, us: seq<seq<int>>, i: nat,
                      a: seq<int>, b: seq<int>)
    requires Prime(p) && FixedSpace(p, f, Q, vectors) && SquareFree(Fp(p), f)
    requires NonConstants(Fp(p), us) && Prod(PolyRing(Fp(p)), us) == f && i < |us|
    requires |us| >= |vectors| || forall t :: 1 <= t < |vectors| ==> Stuck(p, us[i], Norm(Fp(p), vectors[t]))
    requires IsPoly(Fp(p), a) && IsPoly(Fp(p), b) && PMul(Fp(p), a, b) == us[i]
    ensures |a| <= 1 || |b| <= 1
  {
    hide IsField, FixedSpace, SquareFree, Prod, PMul, Comax, CongBy, Norm, Stuck, ConstantModulo, IsFixed, Divides;
    if |a| >= 2 && |b| >= 2 {
      var (K, P) := (Fp(p), PolyRing(Fp(p)));
      FpIsField(p);
      FieldParts(K);
      PolyRingIsRing(K);
      Families(K, us);
      RefinedProd(P, us, i, a, b);
      var ws := Refined(us, i, a, b);
      RefinedNonConstants(K, us, i, a, b);
      SquareFreePairwise(K, ws);
      if |us| >= |vectors| {
        DimensionBound(p, f, Q, ws, vectors);
        assert false;
      } else {
        SeparatingVector(p, f, Q, vectors, us, i, a, b);
      }
    }
  }

  lemma RefinedNonConstants<F(!new)>(K: Ring<F>, us: seq<seq<F>>, i: nat, a: seq<F>, b: seq<F>)
    requires NonConstants(K, us) && i < |us| && IsPoly(K, a) && IsPoly(K, b) && |a| >= 2 && |b| >= 2
    ensures NonConstants(K, Refined(us, i, a, b))
  {}

  // the Chinese remainder vector that separates a from b contradicts a stuck product
  lemma SeparatingVector(p: nat, f: seq<int>, Q: Matrix<int>, vectors: seq<seq<int>>, us: seq<seq<int>>, i: nat,
                         a: seq<int>, b: seq<int>)
    requires Prime(p) && FixedSpace(p, f, Q, vectors) && i < |us|
    requires NonConstants(Fp(p), us) && NonConstants(Fp(p), Refined(us, i, a, b))
    requires Prod(PolyRing(Fp(p)), us) == f == Prod(PolyRing(Fp(p)), Refined(us, i, a, b))
    requires PairwiseComax(PolyRing(Fp(p)), Refined(us, i, a, b)) && PMul(Fp(p), a, b) == us[i]
    ensures !forall t :: 1 <= t < |vectors| ==> Stuck(p, us[i], Norm(Fp(p), vectors[t]))
  {
    hide IsField, FixedSpace, Prod, PMul, Comax, CongBy, Norm, Stuck, ConstantModulo, IsFixed, Divides, PairwiseComax,
         Refined, IsPowerMatrix;
    var (K, P, ws) := (Fp(p), PolyRing(Fp(p)), Refined(us, i, a, b));
    FpIsField(p);
    FieldParts(K);
    FieldIsDomain(K);
    PolyRingIsRing(K);
    Families(K, us);
    Families(K, ws);
    MatrixOf(p, f, Q, vectors);
    var c := Unit(K, |ws|, i);
    var v := FixedWithResidues(p, f, Q, ws, c);
    assert c[i] == K.one && c[i + 1] == K.zero;
    assert ws[i] == a && ws[i + 1] == b;
    NormIs(K, v);
    SeparatedIsNotConstant(K, a, b, Norm(K, v));
    FactorDivides(P, us, i);
    PMulLen(K, a, b);
    if forall t :: 1 <= t < |vectors| ==> Stuck(p, us[i], Norm(Fp(p), vectors[t])) {
      FixedIsConstant(p, f, Q, vectors, us[i], v);
    }
  }

  lemma MatrixOf(p: nat, f: seq<int>, Q: Matrix<int>, vectors: seq<seq<int>>)
    requires p > 1 && FixedSpace(p, f, Q, vectors)
    ensures IsPoly(Fp(p), f) && |f| >= 2 && |Q| == |f| - 1 && IsPowerMatrix(p, f, |f| - 1, Q)
  {}

  // ----- exactly as many factors as basis vectors -----

  /** Every pass got stuck on every factor. */
  ghost predicate AllStuck(p: nat, vectors: seq<seq<int>>, us: seq<seq<int>>)
    requires p > 1
  {
    forall i, t :: 0 <= i < |us| && 1 <= t < |vectors| ==> Stuck(p, us[i], Norm(Fp(p), vectors[t]))
  }

  // modulo a linear polynomial everything is a constant
  lemma LinearConstant<F(!new)>(K: Ring<F>, g: seq<F>, h: seq<F>)
    requires IsField(K) && IsPoly(K, g) && |g| == 2 && IsPoly(K, h)
    ensures ConstantModulo(K, g, h)
  {
    hide PMul, CongBy;
    FieldParts(K);
    PolyRingIsRing(K);
    var r := Remainder(K, g, h);
    CongSym(PolyRing(K), g, r, h);
    var s := if r == [] then K.zero else r[0];
    assert r == Const(K, s);
  }

  lemma {:induction false} ConstantList<F(!new)>(K: Ring<F>, us: seq<seq<F>>, h: seq<F>) returns (c: seq<F>)
    requires forall i :: 0 <= i < |us| ==> ConstantModulo(K, us[i], h)
    ensures IsVector(K, c, |us|)
    ensures forall i :: 0 <= i < |us| ==> CongBy(PolyRing(K), us[i], h, Const(K, c[i]))
  {
    hide CongBy;
    if us == [] {
      c := [];
    } else {
      var rest := ConstantList(K, us[1..], h);
      assert ConstantModulo(K, us[0], h);
      var s :| K.has(s) && CongBy(PolyRing(K), us[0], h, Const(K, s));
      c := [s] + rest;
    }
  }

  // a combination of the basis is fixed
  lemma ComboIsFixed(p: nat, f: seq<int>, Q: Matrix<int>, vectors: seq<seq<int>>, d: seq<int>)
    requires Prime(p) && FixedSpace(p, f, Q, vectors) && IsVector(Fp(p), d, |vectors|)
    ensures AreVectors(Fp(p), vectors, |Q|) && IsVector(Fp(p), Combo(Fp(p), vectors, d, |Q|), |Q|)
    ensures IsFixed(Fp(p), Q, |Q|, Combo(Fp(p), vectors, d, |Q|))
  {
    hide IsField, IsFixed, InKernel, IsPowerMatrix, FpMod, ModInverse, IsPoly, MinusIdentity;
    FpIsField(p);
    MatrixRows(p, f, Q);
    MinusIdentityIsMatrix(Fp(p), Q, |Q|);
    ComboHas(Fp(p), vectors, d, |Q|);
    ComboKernel(Fp(p), MinusIdentity(Fp(p), Q, |Q|), |Q|, |Q|, vectors, d);
    KernelIsFixed(Fp(p), Q, |Q|, Combo(Fp(p), vectors, d, |Q|));
  }

  lemma ResiduesExist(p: nat, f: seq<int>, Q: Matrix<int>, us: seq<seq<int>>, vectors: seq<seq<int>>, d: seq<int>)
    requires Prime(p) && FixedSpace(p, f, Q, vectors) && IsVector(Fp(p), d, |vectors|)
    requires NonConstants(Fp(p), us) && Prod(PolyRing(Fp(p)), us) == f && AllStuck(p, vectors, us)
    ensures exists c :: c in AllVectors(p, |us|) && HasResidues(p, us, vectors, |Q|, c, d)
  {
    hide IsField, IsFixed, IsPowerMatrix, Prod, PMul, Divides, CongBy, Norm, IsBasis, Stuck, ConstantModulo, FpMod,
         ModInverse,
         MinusIdentity, Unit;
    var (K, P) := (Fp(p), PolyRing(Fp(p)));
    FpIsField(p);
    PolyRingIsRing(K);
    Families(K, us);
    ComboIsFixed(p, f, Q, vectors, d);
    var v := Combo(K, vectors, d, |Q|);
    NormIs(K, v);
    forall i | 0 <= i < |us| ensures ConstantModulo(K, us[i], Norm(K, v)) {
      FactorDivides(P, us, i);
      if |us[i]| > 2 {
        FixedIsConstant(p, f, Q, vectors, us[i], v);
      } else {
        LinearConstant(K, us[i], Norm(K, v));
      }
    }
    var c := ConstantList(K, us, Norm(K, v));
    InVectors(p, |us|, c);
    assert HasResidues(p, us, vectors, |Q|, c, d);
  }

  // the residues modulo comaximal factors determine the fixed vector
  lemma ResiduesDetermine(p: nat, f: seq<int>, Q: Matrix<int>, us: seq<seq<int>>, vectors: seq<seq<int>>,
                          c: seq<int>, d: seq<int>, e: seq<int>)
    requires Prime(p) && FixedSpace(p, f, Q, vectors)
    requires NonConstants(Fp(p), us) && PairwiseComax(PolyRing(Fp(p)), us) && Prod(PolyRing(Fp(p)), us) == f
    requires HasResidues(p, us, vectors, |Q|, c, d) && HasResidues(p, us, vectors, |Q|, c, e)
    ensures d == e
  {
    hide IsField, IsFixed, IsPowerMatrix, Prod, PMul, Comax, CongBy, Norm, FpMod, ModInverse, MinusIdentity, Unit,
         InKernel;
    var (K, P) := (Fp(p), PolyRing(Fp(p)));
    FpIsField(p);
    PolyRingIsRing(K);
    Families(K, us);
    var (v, w) := (Combo(K, vectors, d, |Q|), Combo(K, vectors, e, |Q|));
    ComboHas(K, vectors, d, |Q|);
    ComboHas(K, vectors, e, |Q|);
    NormIs(K, v);
    NormIs(K, w);
    forall i | 0 <= i < |us| ensures CongBy(P, us[i], Norm(K, v), Norm(K, w)) {
      ConstIsPoly(K, c[i]);
      CongSym(P, us[i], Norm(K, w), Const(K, c[i]));
      CongTrans(P, us[i], Norm(K, v), Const(K, c[i]), Norm(K, w));
    }
    ProductCong(P, us, Norm(K, v), Norm(K, w));
    ShortCong(K, f, Norm(K, v), Norm(K, w));
    NormInjective(K, v, w);
  }

  lemma NormInjective<F(!new)>(K: Ring<F>, v: seq<F>, w: seq<F>)
    requires IsRing(K) && AllIn(K, v) && AllIn(K, w) && |v| == |w| && Norm(K, v) == Norm(K, w)
    ensures v == w
  {
    hide Norm;
    NormIs(K, v);
    NormIs(K, w);
    forall i | 0 <= i < |v| ensures v[i] == w[i] {
      assert Coeff(K, v, i) == Coeff(K, Norm(K, v), i) == Coeff(K, w, i);
    }
  }

  /** Stuck comaximal factors are at least as many as the dimension of the fixed space. */
  lemma StuckBound(p: nat, f: seq<int>, Q: Matrix<int>, us: seq<seq<int>>, vectors: seq<seq<int>>)
    requires Prime(p) && FixedSpace(p, f, Q, vectors) && AllStuck(p, vectors, us)
    requires NonConstants(Fp(p), us) && PairwiseComax(PolyRing(Fp(p)), us) && Prod(PolyRing(Fp(p)), us) == f
    ensures |vectors| <= |us|
  {
    hide Prod, Comax, HasResidues, FixedSpace, NonConstants, AllStuck;
    var n := |Q|;
    var rel := (d: seq<int>, c: seq<int>) => HasResidues(p, us, vectors, n, c, d);
    forall d | d in AllVectors(p, |vectors|) ensures exists c :: c in AllVectors(p, |us|) && rel(d, c) {
      InVectors(p, |vectors|, d);
      ResiduesExist(p, f, Q, us, vectors, d);
      var c :| c in AllVectors(p, |us|) && HasResidues(p, us, vectors, n, c, d);
      assert rel(d, c);
    }
    forall d, e, c | d in AllVectors(p, |vectors|) && e in AllVectors(p, |vectors|) && c in AllVectors(p, |us|)
      && rel(d, c) && rel(e, c)
      ensures d == e
    {
      ResiduesDetermine(p, f, Q, us, vectors, c, d, e);
    }
    Injection(AllVectors(p, |vectors|), AllVectors(p, |us|), rel);
    VectorCount(p, |us|);
    VectorCount(p, |vectors|);
    PowerOrder(p, |vectors|, |us|);
  }

  // ----- comaximal irreducible factors make a square-free product -----

  // an irreducible divisor of an irreducible polynomial is divided by it
  lemma SameIrreducible<F(!new)>(K: Ring<F>, q: seq<F>, u: seq<F>)
    requires IsField(K) && IrreduciblePoly(K, q) && IrreduciblePoly(K, u) && Divides(PolyRing(K), q, u)
    ensures Divides(PolyRing(K), u, q)
  {
    hide PMul, IsField;
    FieldParts(K);
    FieldIsDomain(K);
    PolyRingIsRing(K);
    var k :| IsPoly(K, k) && PMul(K, k, q) == u;
    NonZeroFactors(K, k, q, u);
    PMulLen(K, k, q);
    FullDivisor(K, u, q);
  }

  lemma PrimeFactorOf<F(!new)>(K: Ring<F>, q: seq<F>, us: seq<seq<F>>) returns (i: nat)
    requires IsField(K) && IrreduciblePoly(K, q) && NonConstants(K, us)
    requires Divides(PolyRing(K), q, Prod(PolyRing(K), us))
    ensures i < |us| && Divides(PolyRing(K), q, us[i])
  {
    hide PMul, Divides, Comax, Prod, IsField;
    var P := PolyRing(K);
    FieldParts(K);
    PolyRingIsRing(K);
    Families(K, us);
    if forall k :: 0 <= k < |us| ==> !Divides(P, q, us[k]) {
      forall k | 0 <= k < |us| ensures Comax(P, q, us[k]) { IrreducibleComax(K, q, us[k]); }
      ComaxProd(P, q, us);
      ProdHas(P, us);
      ComaxMultiple(K, q, Prod(P, us));
      assert false;
    }
    i :| i < |us| && Divides(P, q, us[i]);
  }

  /** A product of pairwise comaximal irreducible polynomials is square-free. */
  lemma IrreduciblesSquareFree<F(!new)>(K: Ring<F>, us: seq<seq<F>>)
    requires IsField(K) && NonConstants(K, us) && PairwiseComax(PolyRing(K), us)
    requires forall i :: 0 <= i < |us| ==> IrreduciblePoly(K, us[i])
    ensures SquareFree(K, Prod(PolyRing(K), us))
  {
    hide PMul, Prod, IsField, Divides, PairwiseComax, Irreducible;
    forall e | IsPoly(K, e) && |e| >= 2 ensures !Divides(PolyRing(K), PMul(K, e, e), Prod(PolyRing(K), us)) {
      NoSquare(K, us, e);
    }
  }

  lemma NoSquare<F(!new)>(K: Ring<F>, us: seq<seq<F>>, e: seq<F>)
    requires IsField(K) && NonConstants(K, us) && PairwiseComax(PolyRing(K), us) && IsPoly(K, e) && |e| >= 2
    requires forall i :: 0 <= i < |us| ==> IrreduciblePoly(K, us[i])
    ensures !Divides(PolyRing(K), PMul(K, e, e), Prod(PolyRing(K), us))
  {
    hide PMul, Prod, IsField, Divides, Comax, Irreducible;
    var P := PolyRing(K);
    FieldParts(K);
    FieldIsDomain(K);
    PolyRingIsDomain(K);
    PolyRingIsRing(K);
    Families(K, us);
    PMulPoly(K, e, e);
    if Divides(P, PMul(K, e, e), Prod(P, us)) {
      var q := IrreducibleFactor(K, e);
      DividesSelf(P, e);
      DividesMul(P, e, e, e);
      DividesTrans(P, q, e, PMul(K, e, e));
      DividesTrans(P, q, PMul(K, e, e), Prod(P, us));
      var i := PrimeFactorOf(K, q, us);
      SameIrreducible(K, q, us[i]);
      DividesTrans(P, us[i], q, e);
      SquareDivides(P, us[i], e, e);
      DividesTrans(P, PMul(K, us[i], us[i]), PMul(K, e, e), Prod(P, us));
      OtherFactors(K, us, i);
    }
  }

  // no factor of a comaximal family divides the product twice
  lemma OtherFactors<F(!new)>(K: Ring<F>, us: seq<seq<F>>, i: nat)
    requires IsField(K) && NonConstants(K, us) && PairwiseComax(PolyRing(K), us) && i < |us|
    ensures !Divides(PolyRing(K), PMul(K, us[i], us[i]), Prod(PolyRing(K), us))
  {
    hide PMul, Prod, IsField, Divides, Comax;
    var P := PolyRing(K);
    FieldParts(K);
    FieldIsDomain(K);
    PolyRingIsDomain(K);
    PolyRingIsRing(K);
    Families(K, us);
    var rest := us[..i] + us[i + 1..];
    ProdExtract(P, us, i);
    ProdHas(P, rest);
    forall k | 0 <= k < |rest| ensures Comax(P, us[i], rest[k]) {
      if k < i { ComaxSym(P, us[k], us[i]); }
    }
    ComaxProd(P, us[i], rest);
    if Divides(P, PMul(K, us[i], us[i]), Prod(P, us)) {
      PowerDividesCancel(P, us[i], us[i], Prod(P, rest));
      ComaxMultiple(K, us[i], Prod(P, rest));
    }
  }

  // ----- the factorization -----

  lemma AllIrreducible(p: nat, f: seq<int>, Q: Matrix<int>, vectors: seq<seq<int>>, us: seq<seq<int>>)
    requires Prime(p) && FixedSpace(p, f, Q, vectors) && SquareFree(Fp(p), f)
    requires NonConstants(Fp(p), us) && Prod(PolyRing(Fp(p)), us) == f
    requires |us| >= |vectors| || AllStuck(p, vectors, us)
    ensures forall i :: 0 <= i < |us| ==> IrreduciblePoly(Fp(p), us[i])
  {
    hide IsField, FixedSpace, SquareFree, Prod, PMul, Norm, Stuck;
    FpIsField(p);
    forall i | 0 <= i < |us| ensures IrreduciblePoly(Fp(p), us[i]) {
      forall a, b {:trigger PMul(Fp(p), a, b)} | IsPoly(Fp(p), a) && IsPoly(Fp(p), b) && PMul(Fp(p), a, b) == us[i]
        ensures |a| == 1 || |b| == 1
      {
        NoProperSplit(p, f, Q, vectors, us, i, a, b);
        FieldParts(Fp(p));
        NonZeroFactors(Fp(p), a, b, us[i]);
      }
    }
  }

  // a linear polynomial is irreducible
  lemma LinearIrreducible<F(!new)>(K: Ring<F>, f: seq<F>)
    requires IsField(K) && IsPoly(K, f) && |f| == 2
    ensures IrreduciblePoly(K, f)
  {
    hide IsField, PMul;
    FieldIsDomain(K);
    FieldParts(K);
    forall a, b {:trigger PMul(K, a, b)} | IsPoly(K, a) && IsPoly(K, b) && PMul(K, a, b) == f
      ensures |a| == 1 || |b| == 1
    {
      NonZeroFactors(K, a, b, f);
      PMulLen(K, a, b);
    }
  }

  /** The fixed space of the matrix of f has dimension k. */
  ghost predicate FixedDimension(p: nat, f: seq<int>, k: nat)
    requires p > 1
  {
    exists Q, vectors :: FixedSpace(p, f, Q, vectors) && |vectors| == k
  }

  // what a finished factorization satisfies, whichever way the loop ended
  lemma Finished(p: nat, f: seq<int>, Q: Matrix<int>, vectors: seq<seq<int>>, us: seq<seq<int>>)
    requires Prime(p) && FixedSpace(p, f, Q, vectors)
    requires NonConstants(Fp(p), us) && PairwiseComax(PolyRing(Fp(p)), us) && Prod(PolyRing(Fp(p)), us) == f
    requires |us| >= |vectors| || AllStuck(p, vectors, us)
    ensures FixedDimension(p, f, |us|)
    ensures SquareFree(Fp(p), f) <==> forall i :: 0 <= i < |us| ==> IrreduciblePoly(Fp(p), us[i])
  {
    hide IsField, FixedSpace, SquareFree, Prod, PMul, Norm, Stuck, NonConstants, PairwiseComax, IrreduciblePoly;
    FpIsField(p);
    DimensionBound(p, f, Q, us, vectors);
    if |us| < |vectors| { StuckBound(p, f, Q, us, vectors); }
    if SquareFree(Fp(p), f) { AllIrreducible(p, f, Q, vectors, us); }
    if forall i :: 0 <= i < |us| ==> IrreduciblePoly(Fp(p), us[i]) { IrreduciblesSquareFree(Fp(p), us); }
  }

  /** The monic form of f0 modulo p, split into non-constant, pairwise comaximal factors, one for every
      basis vector of the fixed space; all are irreducible exactly when that form is square-free. */
  method Factor(p: int, f0: seq<int>) returns (factors: seq<seq<int>>)
    requires Prime(p)
    ensures var f := MonicForm(p, f0);
      && IsPoly(Fp(p), f) && (f != [] ==> f[|f| - 1] == 1)
      && (f == [] <==> forall i :: 0 <= i < |f0| ==> f0[i] % p == 0)
      && (f != [] ==> exists c {:trigger Scale(Fp(p), c, f)} ::
            0 < c < p && Norm(Fp(p), Residues(p, f0)) == Scale(Fp(p), c, f))
    ensures |MonicForm(p, f0)| <= 1 ==> factors == []
    ensures |MonicForm(p, f0)| > 1 ==> (
      && NonConstants(Fp(p), factors) && PairwiseComax(PolyRing(Fp(p)), factors)
      && Prod(PolyRing(Fp(p)), factors) == MonicForm(p, f0) && AllMonic(Fp(p), factors))
    ensures |MonicForm(p, f0)| > 1 ==>
      (SquareFree(Fp(p), MonicForm(p, f0)) <==> forall i :: 0 <= i < |factors| ==> IrreduciblePoly(Fp(p), factors[i]))
    ensures |MonicForm(p, f0)| > 2 ==> FixedDimension(p, MonicForm(p, f0), |factors|)
  {
    hide IsField, FpMod, Norm, Prod, PolyRing, Scale, IsPowerMatrix, Stuck, NonConstants, IsPoly, SquareFree,
         IrreduciblePoly, IsBasis, MinusIdentity, Unit, Fixed, FixedDimension, MonicForm, HasRank, SpansFixed;
    var v := MakeMonic(p, f0);
    if |v| <= 1 { return []; }
    FpIsField(p);
    OneFactor(p, v);
    Whole(p, v);
    if |v| == 2 {
      LinearIrreducible(Fp(p), v);
      IrreduciblesSquareFree(Fp(p), [v]);
      return [v];
    }
    var Q := BuildMatrix(p, v);
    var basis, vectors := NullSpaceOf(p, v, Q);
    if |basis| == 1 {
      Finished(p, v, Q, vectors, [v]);
      return [v];
    }
    forall b | 0 <= b < |basis| ensures Fixed(p, v, basis[b]) { BasisFixed(p, v, Q, vectors, b); }
    factors := Split(p, v, basis);
    Finished(p, v, Q, vectors, factors);
  }

  // ----- an input that is not square-free -----

  lemma TwoIsPrime()
    ensures Prime(2)
  {
    forall d | d > 1 && Div(d, 2) ensures d == 2 { DivBound(d, 2); }
  }

  lemma SquareModTwo()
    ensures IsPoly(Fp(2), [0, 1]) && IsPoly(Fp(2), [0, 0, 1]) && PMul(Fp(2), [0, 1], [0, 1]) == [0, 0, 1]
  {
    TwoIsPrime();
    FpIsField(2);
    FieldIsDomain(Fp(2));
    SquareOfX(Fp(2));
  }

  lemma MonicFormOfSquare()
    ensures MonicForm(2, [0, 0, 1]) == [0, 0, 1]
  {
    hide IsField, Norm, Scale;
    TwoIsPrime();
    FpIsField(2);
    SquareModTwo();
    assert Residues(2, [0, 0, 1]) == [0, 0, 1];
    NormOfPoly(Fp(2), [0, 0, 1]);
    MonicFormIs(2, [0, 0, 1], [0, 0, 1]);
    FieldParts(Fp(2));
    InverseOne(Fp(2));
    ScaleOne(Fp(2), [0, 0, 1]);
  }

  // the matrix of x^2: the rows of 1 and of x^2 modulo x^2
  lemma MatrixOfSquare()
    ensures IsPowerMatrix(2, [0, 0, 1], 2, [[1, 0], [0, 0]])
  {
    hide PolyRing, CongBy, XPower, FpMod, ModInverse;
    var (K, Q) := (Fp(2), [[1, 0], [0, 0]]);
    RowsOfSquare();
    assert Norm(K, [1, 0]) == [1] && Norm(K, [0, 0]) == [] by { assert [1, 0][1..] == [0] && [0, 0][1..] == [0]; }
    assert Unit(K, 2, 0) == [1, 0];
    forall i: nat | i < 2 ensures CongBy(PolyRing(K), [0, 0, 1], Norm(K, Q[i]), XPower(2, i)) {}
  }

  lemma RowsOfSquare()
    ensures CongBy(PolyRing(Fp(2)), [0, 0, 1], [1], XPower(2, 0))
    ensures CongBy(PolyRing(Fp(2)), [0, 0, 1], [], XPower(2, 1))
  {
    hide PMul, PAdd, PNeg, IsField, IsRing, FpMod, ModInverse;
    var (K, P, f) := (Fp(2), PolyRing(Fp(2)), [0, 0, 1]);
    TwoIsPrime();
    FpIsField(2);
    FieldParts(K);
    PolyRingIsRing(K);
    SquareModTwo();
    SquarePower(P, [0, 1]);
    assert P.one == [1] && X(K) == [0, 1] && XPower(2, 0) == [1] && XPower(2, 1) == f;
    CongSelf(P, f, [1]);
    DividesSelf(P, f);
    SubZero(P, f);
    CongSym(P, f, f, []);
  }

  lemma SquarePower<F(!new)>(R: Ring<F>, x: F)
    requires IsRing(R) && R.has(x)
    ensures Power(R, x, 0) == R.one && Power(R, x, 2) == R.mul(x, x)
  {
    MulOne(R, x);
    assert Power(R, x, 1) == R.mul(x, Power(R, x, 0));
  }

  lemma MinusOfSquare()
    ensures MinusIdentity(Fp(2), [[1, 0], [0, 0]], 2) == [[0, 0], [0, 1]]
  {
    var (K, Q) := (Fp(2), [[1, 0], [0, 0]]);
    assert Unit(K, 2, 0) == [1, 0] && Unit(K, 2, 1) == [0, 1];
    var A := MinusIdentity(K, Q, 2);
    assert Column(Q, 2, 0) == [1, 0] && Column(Q, 2, 1) == [0, 0];
    assert Sub(K, 1, K.mul(1, 1)) == 0 && Sub(K, 0, K.mul(1, 0)) == 0 && Sub(K, 0, K.mul(1, 1)) == 1;
    assert A[0] == [0, 0] && A[1] == [0, 1];
  }

  // its fixed vectors are the multiples of 1
  lemma BasisOfSquare()
    ensures IsBasis(Fp(2), [[0, 0], [0, 1]], 2, [[1, 0]])
  {
    hide FpMod, ModInverse, Combo, InKernel;
    var (K, A) := (Fp(2), [[0, 0], [0, 1]]);
    forall y | IsVector(K, y, 2) ensures InKernel(K, A, y) <==> y[1] == 0 { KernelOfSquare(y); }
    forall c | IsVector(K, c, 1) ensures Combo(K, [[1, 0]], c, 2) == [c[0], 0] { ComboOfSquare(c); }
    forall y | IsVector(K, y, 2) && InKernel(K, A, y)
      ensures exists c {:trigger Combo(K, [[1, 0]], c, 2)} :: IsVector(K, c, 1) && Combo(K, [[1, 0]], c, 2) == y
    {
      assert IsVector(K, [y[0]], 1) && Combo(K, [[1, 0]], [y[0]], 2) == y;
    }
  }

  lemma KernelOfSquare(y: seq<int>)
    requires IsVector(Fp(2), y, 2)
    ensures InKernel(Fp(2), [[0, 0], [0, 1]], y) <==> y[1] == 0
  {
    var (K, A) := (Fp(2), [[0, 0], [0, 1]]);
    DotTwo(K, 0, 0, y);
    DotTwo(K, 0, 1, y);
    assert K.mul(0, y[0]) == 0 && K.mul(0, y[1]) == 0 && K.mul(1, y[1]) == y[1];
    assert A[0] == [0, 0] && A[1] == [0, 1];
  }

  lemma DotTwo<F>(K: Ring<F>, u: F, v: F, y: seq<F>)
    requires |y| == 2
    ensures Dot(K, [u, v], y) == K.add(K.mul(u, y[0]), K.add(K.mul(v, y[1]), K.zero))
  {
    assert [u, v][1..] == [v] && [v][1..] == [] && y[1..] == [y[1]] && [y[1]][1..] == [];
    assert Dot(K, [v], [y[1]]) == K.add(K.mul(v, y[1]), Dot(K, [], []));
  }

  lemma ComboOfSquare(c: seq<int>)
    requires IsVector(Fp(2), c, 1)
    ensures Combo(Fp(2), [[1, 0]], c, 2) == [c[0], 0]
  {
    assert [[1, 0]][1..] == [] && c[1..] == [];
  }

  /** A null space of dimension one, and yet reducible. */
  lemma DimensionOfSquare()
    ensures FixedDimension(2, [0, 0, 1], 1) && !IrreduciblePoly(Fp(2), [0, 0, 1])
  {
    hide IsPowerMatrix, IsBasis, MinusIdentity;
    SquareModTwo();
    MatrixOfSquare();
    MinusOfSquare();
    BasisOfSquare();
    assert Unit(Fp(2), 2, 0) == [1, 0];
    assert FixedSpace(2, [0, 0, 1], [[1, 0], [0, 0]], [[1, 0]]);
    assert |[0, 1]| == 2;
  }

  /** For x^2 modulo 2 the promise fails: it is its own monic form and not square-free, so whatever pairwise
      comaximal factors are returned for it, one of them is reducible. */
  lemma ReducibleFactor(us: seq<seq<int>>)
    ensures Prime(2) && MonicForm(2, [0, 0, 1]) == [0, 0, 1] && !SquareFree(Fp(2), [0, 0, 1])
    ensures NonConstants(Fp(2), us) && PairwiseComax(PolyRing(Fp(2)), us) && Prod(PolyRing(Fp(2)), us) == [0, 0, 1]
      ==> exists i :: 0 <= i < |us| && !IrreduciblePoly(Fp(2), us[i])
  {
    hide IsField, MonicForm, Prod, PMul, IrreduciblePoly, NonConstants, PairwiseComax;
    TwoIsPrime();
    FpIsField(2);
    SquareModTwo();
    MonicFormOfSquare();
    PolyRingIsRing(Fp(2)) by { FieldParts(Fp(2)); }
    DividesSelf(PolyRing(Fp(2)), [0, 0, 1]);
    assert |[0, 1]| >= 2;
    if forall i :: 0 <= i < |us| ==> IrreduciblePoly(Fp(2), us[i]) {
      if NonConstants(Fp(2), us) && PairwiseComax(PolyRing(Fp(2)), us) && Prod(PolyRing(Fp(2)), us) == [0, 0, 1] {
        IrreduciblesSquareFree(Fp(2), us);
      }
    }
  }

  lemma BasisFixed(p: nat, f: seq<int>, Q: Matrix<int>, vectors: seq<seq<int>>, t: nat)
    requires Prime(p) && FixedSpace(p, f, Q, vectors) && t < |vectors|
    ensures Fixed(p, f, Norm(Fp(p), vectors[t]))
  {
    BasisSolves(p, f, Q, vectors, t);
  }
}
