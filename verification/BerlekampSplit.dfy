/** Splitting a polynomial modulo p with the fixed vectors of its matrix. */
module BerlekampSplit {
  import opened Rings
  import opened Polys
  import opened Vectors
  import opened Division
  import opened Comaximal
  import opened Numbers
  import opened PrimeField
  import opened Berlekamp
  import opened FixedVectors
  import opened Congruence
  import opened BerlekampCoprime
  import ChineseRemainder
  import LinearAlgebra
  import NullSpace
  import Tower
  import TowerLoops

  /** The greatest common divisor of g and h - s is trivial: constant, or as long as g. */
  ghost predicate Trivial<F(!new)>(K: Ring<F>, g: seq<F>, h: seq<F>, s: F) {
    exists d :: IsGcd(K, g, PSub(K, h, Const(K, s)), d) && (|d| <= 1 || |d| >= |g|)
  }

  /** h does not split g. */
  ghost predicate Stuck(p: int, g: seq<int>, h: seq<int>)
    requires p > 1
  {
    |g| <= 2 || forall s {:trigger Trivial(Fp(p), g, h, s)} :: 0 <= s < p ==> Trivial(Fp(p), g, h, s)
  }

  method SubScalar<F(!new,==)>(K: Ring<F>, h: seq<F>, s: F) returns (r: seq<F>)
    requires IsRing(K) && IsPoly(K, h) && K.has(s)
    ensures r == PSub(K, h, Const(K, s)) && IsPoly(K, r)
  {
    var v := if h == [] then [K.zero] else h;
    v := v[0 := Sub(K, v[0], s)];
    ConsPoly(K, s, []);
    PNegPoly(K, Const(K, s));
    PAddPoly(K, h, PNeg(K, Const(K, s)));
    forall i: nat ensures Coeff(K, v, i) == Coeff(K, PSub(K, h, Const(K, s)), i) {
      CoeffSub(K, h, Const(K, s), i);
      NegZero(K);
      AddZero(K, Coeff(K, h, i));
    }
    NormOf(K, v, PSub(K, h, Const(K, s)));
    r := StripTrailing(K, v);
  }

  // ----- products of non-constant factors -----

  ghost predicate NonConstants<F(!new)>(K: Ring<F>, gs: seq<seq<F>>) {
    forall i :: 0 <= i < |gs| ==> IsPoly(K, gs[i]) && |gs[i]| >= 2
  }

  ghost predicate Monic<F(!new)>(K: Ring<F>, g: seq<F>) {
    g != [] && g[|g| - 1] == K.one
  }

  ghost predicate AllMonic<F(!new)>(K: Ring<F>, gs: seq<seq<F>>) {
    forall i :: 0 <= i < |gs| ==> Monic(K, gs[i])
  }

  // the cofactor of a monic divisor of a monic polynomial is monic
  lemma CofactorMonic<F(!new)>(K: Ring<F>, g: seq<F>, d: seq<F>, q: seq<F>)
    requires IsDomain(K) && IsPoly(K, d) && IsPoly(K, q) && d != [] && q != [] && PMul(K, q, d) == g
    ensures Monic(K, d) && Monic(K, g) ==> AllMonic(K, [d, q])
  {
    hide PMul;
    PMulLen(K, q, d);
    DomainParts(K, q[|q| - 1]) by { assert K.has(q[|q| - 1]); }
  }

  lemma DomainParts<F(!new)>(K: Ring<F>, c: F)
    requires IsDomain(K) && K.has(c)
    ensures K.mul(c, K.one) == c
  {
    MulOne(K, c);
    MulComm(K, c, K.one);
  }

  /** Each factor takes at least one of the degree. */
  lemma {:induction false} CountBound<F(!new)>(K: Ring<F>, gs: seq<seq<F>>)
    requires IsDomain(K) && NonConstants(K, gs)
    ensures IsPoly(K, Prod(PolyRing(K), gs)) && |Prod(PolyRing(K), gs)| >= |gs| + 1
  {
    PolyRingIsRing(K);
    if gs == [] {
    } else {
      CountBound(K, gs[1..]);
      PMulPoly(K, gs[0], Prod(PolyRing(K), gs[1..]));
      PMulLen(K, gs[0], Prod(PolyRing(K), gs[1..]));
    }
  }

  // a proper monic divisor and its cofactor are both non-constant
  lemma SplitFactor<F(!new)>(K: Ring<F>, g: seq<F>, d: seq<F>, q: seq<F>)
    requires IsDomain(K) && IsPoly(K, g) && IsPoly(K, d) && IsPoly(K, q) && PMul(K, q, d) == g
    requires 1 < |d| < |g|
    ensures |q| >= 2 && NonConstants(K, [d, q]) && PMul(K, d, q) == g
  {
    hide PMul;
    if q != [] { PMulLen(K, q, d); }
    PMulComm(K, d, q);
    EmptyProduct(K, d);
  }

  lemma EmptyProduct<F(!new)>(K: Ring<F>, d: seq<F>)
    ensures PMul(K, [], d) == []
  {}

  /** The state inside one pass over the factors: what is done, and what is still to do. */
  ghost predicate Passing<F(!new)>(K: Ring<F>, f: seq<F>, next: seq<seq<F>>, rest: seq<seq<F>>) {
    && NonConstants(K, next) && NonConstants(K, rest) && PairwiseComax(PolyRing(K), next + rest)
    && PMul(K, Prod(PolyRing(K), next), Prod(PolyRing(K), rest)) == f
  }

  lemma PassStart<F(!new)>(K: Ring<F>, f: seq<F>, gs: seq<seq<F>>)
    requires IsRing(K) && NonConstants(K, gs) && Prod(PolyRing(K), gs) == f && PairwiseComax(PolyRing(K), gs)
    ensures Passing(K, f, [], gs)
  {
    assert [] + gs == gs;
    PolyRingIsRing(K);
    ProdHas(PolyRing(K), gs);
    MulOne(PolyRing(K), f);
  }

  /** What one factor becomes: itself, or two comaximal factors. */
  ghost predicate Parts<F(!new)>(K: Ring<F>, g: seq<F>, parts: seq<seq<F>>) {
    && NonConstants(K, parts)
    && (parts == [g] || (|parts| == 2 && PMul(K, parts[0], parts[1]) == g && Comax(PolyRing(K), parts[0], parts[1])))
  }

  lemma PassStep<F(!new)>(K: Ring<F>, f: seq<F>, next: seq<seq<F>>, rest: seq<seq<F>>, parts: seq<seq<F>>)
    requires IsRing(K) && Passing(K, f, next, rest) && rest != [] && Parts(K, rest[0], parts)
    ensures Passing(K, f, next + parts, rest[1..])
  {
    hide IsPoly, PMul, PAdd, IsRing, Comax, Prod, PairwiseComax, Refined;
    PolyRingIsRing(K);
    var P := PolyRing(K);
    Families(K, next + rest);
    if parts == [rest[0]] {
      assert next + parts + rest[1..] == next + rest;
    } else {
      assert next + parts + rest[1..] == Refined(next + rest, |next|, parts[0], parts[1]) by {
        RefinedIs(next, rest, parts);
      }
      RefinedProd(P, next + rest, |next|, parts[0], parts[1]);
      RefinedComax(P, next + rest, |next|, parts[0], parts[1]);
    }
    Families(K, next);
    Families(K, rest);
    Families(K, next + parts);
    Families(K, rest[1..]);
    ProdConcat(P, next, rest);
    ProdConcat(P, next + parts, rest[1..]);
  }

  lemma RefinedIs<F>(next: seq<F>, rest: seq<F>, parts: seq<F>)
    requires rest != [] && |parts| == 2
    ensures next + parts + rest[1..] == Refined(next + rest, |next|, parts[0], parts[1])
  {
    assert (next + rest)[..|next|] == next && (next + rest)[|next| + 1..] == rest[1..];
    assert [parts[0], parts[1]] == parts;
  }

  lemma Families<F(!new)>(K: Ring<F>, gs: seq<seq<F>>)
    requires NonConstants(K, gs)
    ensures Family(PolyRing(K), gs)
  {}

  lemma PassEnd<F(!new)>(K: Ring<F>, f: seq<F>, next: seq<seq<F>>)
    requires IsRing(K) && Passing(K, f, next, [])
    ensures NonConstants(K, next) && Prod(PolyRing(K), next) == f && PairwiseComax(PolyRing(K), next)
  {
    PolyRingIsRing(K);
    assert next + [] == next;
    Families(K, next);
    ProdHas(PolyRing(K), next);
    MulOne(PolyRing(K), Prod(PolyRing(K), next));
  }

  // ----- the loops -----

  /** h^p == h modulo g */
  ghost predicate Fixed(p: nat, g: seq<int>, h: seq<int>)
    requires p > 1
  {
    CongBy(PolyRing(Fp(p)), g, Power(PolyRing(Fp(p)), h, p), h)
  }

  lemma SplitApart(p: nat, g: seq<int>, h: seq<int>, s: nat, d: seq<int>, q: seq<int>)
    requires Prime(p) && IsPoly(Fp(p), g) && IsPoly(Fp(p), h) && IsPoly(Fp(p), q) && s < p && Fixed(p, g, h)
    requires IsGcd(Fp(p), g, PSub(Fp(p), h, Const(Fp(p), s)), d) && d != [] && PMul(Fp(p), q, d) == g
    ensures Comax(PolyRing(Fp(p)), d, q)
  {
    hide Power, PMul, PAdd, Divides, IsGcd, CongBy, Comax, IsField;
    SplitComax(p, g, h, s, d, q);
  }

  // h is fixed modulo every factor of f
  lemma FixedFactor(p: nat, f: seq<int>, gs: seq<seq<int>>, i: nat, h: seq<int>)
    requires Prime(p) && IsPoly(Fp(p), h) && NonConstants(Fp(p), gs) && Prod(PolyRing(Fp(p)), gs) == f
    requires i < |gs| && Fixed(p, f, h)
    ensures Fixed(p, gs[i], h)
  {
    hide Power, PMul, PAdd, Divides, IsField, FpMod, ModInverse, Prod;
    FpIsField(p);
    PolyRingIsRing(Fp(p));
    var P := PolyRing(Fp(p));
    Families(Fp(p), gs);
    ChineseRemainder.FactorDivides(P, gs, i);
    PowerHas(P, h, p);
    DividesTrans(P, gs[i], f, Sub(P, Power(P, h, p), h));
  }

  /** Tries every residue s on one factor. */
  method SplitOne(p: int, g: seq<int>, h: seq<int>) returns (parts: seq<seq<int>>)
    requires Prime(p) && IsPoly(Fp(p), g) && |g| >= 2 && IsPoly(Fp(p), h) && Fixed(p, g, h)
    ensures Parts(Fp(p), g, parts)
    ensures |parts| == 2 || (parts == [g] && Stuck(p, g, h))
    ensures Monic(Fp(p), g) ==> AllMonic(Fp(p), parts)
  {
    hide IsField, Trivial, IsGcd, FpMod, Prod, PolyRing, PMul, Comax, Fixed;
    FpIsField(p);
    parts := [g];
    if |g| <= 2 { return; }
    var s := 0;
    while s < p
      invariant 0 <= s <= p
      invariant forall t {:trigger Trivial(Fp(p), g, h, t)} :: 0 <= t < s ==> Trivial(Fp(p), g, h, t)
    {
      var hs := SubScalar(Fp(p), h, s);
      var d := PolyGcd(Fp(p), g, hs);
      if 1 < |d| < |g| {
        GcdShape(Fp(p), g, hs, d);
        var q := ExactQuotient(Fp(p), g, d);
        SplitFactor(Fp(p), g, d, q);
        SplitApart(p, g, h, s, d, q);
        CofactorMonic(Fp(p), g, d, q);
        return [d, q];
      }
      TrivialHere(Fp(p), g, h, s, d);
      s := s + 1;
    }
  }

  lemma Whole(p: int, g: seq<int>)
    requires Prime(p) && IsPoly(Fp(p), g)
    ensures Prod(PolyRing(Fp(p)), [g]) == g
  {
    FpIsField(p);
    PolyRingIsRing(Fp(p));
    ProdSingle(PolyRing(Fp(p)), g);
  }

  lemma GcdShape<F(!new)>(K: Ring<F>, a: seq<F>, b: seq<F>, g: seq<F>)
    requires IsGcd(K, a, b, g)
    ensures IsPoly(K, g) && Divides(PolyRing(K), g, a) && (g != [] ==> Monic(K, g))
  {}

  lemma TrivialHere<F(!new)>(K: Ring<F>, g: seq<F>, h: seq<F>, s: F, d: seq<F>)
    requires IsGcd(K, g, PSub(K, h, Const(K, s)), d) && (|d| <= 1 || |d| >= |g|)
    ensures Trivial(K, g, h, s)
  {}

  /** One pass of one basis vector over all factors. */
  method SplitAll(p: int, f: seq<int>, gs: seq<seq<int>>, h: seq<int>) returns (next: seq<seq<int>>, progress: bool)
    requires Prime(p) && IsPoly(Fp(p), h) && NonConstants(Fp(p), gs) && Prod(PolyRing(Fp(p)), gs) == f
    requires PairwiseComax(PolyRing(Fp(p)), gs) && Fixed(p, f, h)
    ensures NonConstants(Fp(p), next) && Prod(PolyRing(Fp(p)), next) == f && PairwiseComax(PolyRing(Fp(p)), next)
    ensures |next| >= |gs| && (progress ==> |next| > |gs|)
    ensures !progress ==> next == gs && forall i :: 0 <= i < |gs| ==> Stuck(p, gs[i], h)
    ensures AllMonic(Fp(p), gs) ==> AllMonic(Fp(p), next)
  {
    hide IsField, Stuck, FpMod, Prod, PolyRing, Passing, Fixed, Parts, PairwiseComax, ModInverse;
    FpIsField(p);
    var K := Fp(p);
    PassStart(K, f, gs);
    next, progress := [], false;
    for i := 0 to |gs|
      invariant Passing(K, f, next, gs[i..])
      invariant AllMonic(K, gs) ==> AllMonic(K, next)
      invariant |next| >= i && (progress ==> |next| > i)
      invariant !progress ==> next == gs[..i] && forall k :: 0 <= k < i ==> Stuck(p, gs[k], h)
    {
      FixedFactor(p, f, gs, i, h);
      var parts := SplitOne(p, gs[i], h);
      PassStep(K, f, next, gs[i..], parts);
      assert gs[i..][1..] == gs[i + 1..];
      if |parts| == 2 { progress := true; }
      next := next + parts;
    }
    assert gs[|gs|..] == [];
    PassEnd(K, f, next);
  }

  /** Rounds over the basis until enough factors are found or a whole round splits nothing. */
  method Split(p: int, f: seq<int>, basis: seq<seq<int>>) returns (factors: seq<seq<int>>)
    requires Prime(p) && IsPoly(Fp(p), f) && |f| >= 2
    requires forall b :: 0 <= b < |basis| ==> IsPoly(Fp(p), basis[b]) && Fixed(p, f, basis[b])
    ensures NonConstants(Fp(p), factors) && Prod(PolyRing(Fp(p)), factors) == f
    ensures PairwiseComax(PolyRing(Fp(p)), factors)
    ensures |factors| >= |basis|
         || forall i, b :: 0 <= i < |factors| && 1 <= b < |basis| ==> Stuck(p, factors[i], basis[b])
    ensures Monic(Fp(p), f) ==> AllMonic(Fp(p), factors)
  {
    hide IsField, Stuck, FpMod, Prod, PolyRing, NonConstants, Fixed, Comax, ModInverse;
    FpIsField(p);
    factors := [f];
    Whole(p, f);
    OneFactor(p, f);
    var progress := true;
    while progress && |factors| < |basis|
      invariant NonConstants(Fp(p), factors) && Prod(PolyRing(Fp(p)), factors) == f
          && PairwiseComax(PolyRing(Fp(p)), factors)
      invariant |factors| >= 1 && (Monic(Fp(p), f) ==> AllMonic(Fp(p), factors))
      invariant progress || |factors| >= |basis|
        || forall i, b :: 0 <= i < |factors| && 1 <= b < |basis| ==> Stuck(p, factors[i], basis[b])
      decreases |f| - |factors|, progress
    {
      progress := false;
      ghost var before := |factors|;
      CountBound(Fp(p), factors);
      var bi := 1;
      while bi < |basis| && |factors| < |basis|
        invariant 1 <= bi <= |basis|
        invariant NonConstants(Fp(p), factors) && Prod(PolyRing(Fp(p)), factors) == f
          && PairwiseComax(PolyRing(Fp(p)), factors)
        invariant |factors| >= before && (progress ==> |factors| > before)
        invariant Monic(Fp(p), f) ==> AllMonic(Fp(p), factors)
        invariant !progress ==>
          forall i, b :: 0 <= i < |factors| && 1 <= b < bi ==> Stuck(p, factors[i], basis[b])
        decreases |basis| - bi
      {
        var next, more := SplitAll(p, f, factors, basis[bi]);
        factors := next;
        if more { progress := true; }
        bi := bi + 1;
      }
      CountBound(Fp(p), factors);
    }
  }

  lemma OneFactor(p: int, f: seq<int>)
    requires Prime(p) && IsPoly(Fp(p), f) && |f| >= 2
    ensures NonConstants(Fp(p), [f])
  {}

  /** The fixed vectors of the matrix of f, as polynomials. */
  method NullSpaceOf(p: int, f: seq<int>, Q: LinearAlgebra.Matrix<int>)
    returns (basis: seq<seq<int>>, vectors: seq<seq<int>>)
    requires Prime(p) && |f| >= 2 && IsPowerMatrix(p, f, |f| - 1, Q)
    ensures |Q| == |f| - 1 && forall j :: 0 <= j < |Q| ==> |Q[j]| == |Q|
    ensures NullSpace.IsBasis(Fp(p), MinusIdentity(Fp(p), Q, |Q|), |Q|, vectors) && SpansFixed(Fp(p), Q, |Q|, vectors)
    ensures |vectors| <= |Q| && HasRank(Fp(p), MinusIdentity(Fp(p), Q, |Q|), |Q|, |Q| - |vectors|)
    ensures |basis| == |vectors| > 0 && forall t :: 0 <= t < |basis| ==>
      IsPoly(Fp(p), basis[t]) && basis[t] == Norm(Fp(p), vectors[t])
    ensures vectors[0] == Unit(Fp(p), |Q|, 0)
  {
    hide IsField, FpMod, Norm, IsPowerMatrix, NullSpace.IsBasis, Unit, MinusIdentity, HasRank, SpansFixed;
    FpIsField(p);
    var K := Fp(p);
    MatrixShape(p, f, Q);
    var vs := FixedBasis(K, Q, |Q|);
    vectors := vs;
    BasisVectors(K, Q, vs);
    basis := [];
    for t := 0 to |vs|
      invariant |basis| == t
      invariant forall k :: 0 <= k < t ==> IsPoly(K, basis[k]) && basis[k] == Norm(K, vs[k])
    {
      assert LinearAlgebra.IsVector(K, vs[t], |Q|);
      var h := StripTrailing(K, vs[t]);
      basis := basis + [h];
    }
  }

  lemma MatrixShape(p: int, f: seq<int>, Q: LinearAlgebra.Matrix<int>)
    requires p > 1 && |f| >= 2 && IsPowerMatrix(p, f, |f| - 1, Q)
    ensures LinearAlgebra.IsMatrix(Fp(p), Q, |Q|, |Q|) && |Q| == |f| - 1 && Q[0] == Unit(Fp(p), |Q|, 0)
  {}

  lemma BasisVectors<F(!new)>(K: Ring<F>, Q: LinearAlgebra.Matrix<F>, vs: seq<seq<F>>)
    requires forall j :: 0 <= j < |Q| ==> |Q[j]| == |Q|
    requires NullSpace.IsBasis(K, MinusIdentity(K, Q, |Q|), |Q|, vs)
    ensures forall t :: 0 <= t < |vs| ==> LinearAlgebra.IsVector(K, vs[t], |Q|)
  {}

  /** f0 modulo p, divided by its leading coefficient; empty when p divides every coefficient. */
  function MonicForm(p: int, f0: seq<int>): seq<int>
    requires p > 1
  {
    match Tower.Monic(Fp(p), Norm(Fp(p), Residues(p, f0)))
    case None => []
    case Some(f) => f
  }

  // the two ways the monic form comes about
  lemma MonicFormIs(p: int, f0: seq<int>, g: seq<int>)
    requires Prime(p) && IsPoly(Fp(p), g) && g == Norm(Fp(p), Residues(p, f0))
    ensures g == [] ==> MonicForm(p, f0) == []
    ensures g != [] ==> (
      && Fp(p).inverse(g[|g| - 1]).Some?
      && MonicForm(p, f0) == Scale(Fp(p), Fp(p).inverse(g[|g| - 1]).value, g))
  {
    hide IsField, FpMod, ModInverse, Norm, Scale;
    FpIsField(p);
    if g != [] { Leading(Fp(p), g); }
  }

  /** The coefficients reduced modulo p and divided by the leading one. */
  method MakeMonic(p: int, f0: seq<int>) returns (f: seq<int>)
    requires Prime(p)
    ensures f == MonicForm(p, f0)
    ensures IsPoly(Fp(p), f) && (f != [] ==> f[|f| - 1] == 1)
    ensures f == [] <==> forall i :: 0 <= i < |f0| ==> f0[i] % p == 0
    ensures f != [] ==> exists c {:trigger Scale(Fp(p), c, f)} ::
      0 < c < p && Norm(Fp(p), Residues(p, f0)) == Scale(Fp(p), c, f)
  {
    hide IsField, FpMod, Norm, Scale, MonicForm, ModInverse;
    FpIsField(p);
    var K := Fp(p);
    ResiduesIn(p, f0);
    var g := StripTrailing(K, Residues(p, f0));
    ZeroResidues(p, f0, g);
    MonicFormIs(p, f0, g);
    if g == [] { return g; }
    var lead := g[|g| - 1];
    MonicOf(p, g);
    f := TowerLoops.ScaleAll(K, g, K.inverse(lead).value);
    NormSame(K, f, Scale(K, K.inverse(lead).value, g));
  }

  lemma ZeroResidues(p: int, f: seq<int>, g: seq<int>)
    requires Prime(p) && IsPoly(Fp(p), g) && |g| <= |f|
    requires forall i: nat :: Coeff(Fp(p), g, i) == Coeff(Fp(p), Residues(p, f), i)
    ensures g == [] <==> forall i :: 0 <= i < |f| ==> f[i] % p == 0
  {
    forall i | 0 <= i < |f| ensures Coeff(Fp(p), g, i) == f[i] % p {}
    if g != [] { assert Coeff(Fp(p), g, |g| - 1) == f[|g| - 1] % p; }
  }

  // the lead times the monic form is the polynomial
  lemma MonicOf(p: int, g: seq<int>)
    requires Prime(p) && IsPoly(Fp(p), g) && g != []
    ensures var (K, c) := (Fp(p), g[|g| - 1]);
      && K.inverse(c).Some? && 0 < c < p
      && var m := Scale(K, K.inverse(c).value, g);
         IsPoly(K, m) && |m| == |g| && m[|m| - 1] == 1 && Scale(K, c, m) == g
  {
    FpIsField(p);
    var (K, c) := (Fp(p), g[|g| - 1]);
    Leading(K, g);
    var inv := K.inverse(c).value;
    ScaleTop(K, inv, g);
    ScalePoly(K, inv, g);
    MulComm(K, inv, c);
    ScaleScale(K, c, inv, g);
    ScaleOne(K, g);
  }
}
