/** x^n - x as a product: when n elements of a domain satisfy c^n == c, every element x has
    x^n - x == (x - c_1) ... (x - c_n). */
module FermatProduct {
  import opened Rings
  import opened Polys
  import opened Vectors
  import opened Division
  import opened Roots
  import opened Comaximal
  import opened Numbers
  import opened PrimeField
  import opened Berlekamp
  import opened BerlekampTheory

  // ----- monic polynomials -----

  ghost predicate IsMonic<F(!new)>(R: Ring<F>, q: seq<F>, n: nat) {
    IsPoly(R, q) && |q| == n + 1 && q[n] == R.one
  }

  lemma MonicMul<F(!new)>(R: Ring<F>, a: seq<F>, m: nat, b: seq<F>, n: nat)
    requires IsRing(R) && IsMonic(R, a, m) && IsMonic(R, b, n)
    ensures IsMonic(R, PMul(R, a, b), m + n)
  {
    hide PMul;
    MulOne(R, R.one);
    PMulTop(R, a, b);
    PMulPoly(R, a, b);
  }

  lemma {:induction false} MonicPower<F(!new)>(R: Ring<F>, n: nat)
    requires IsRing(R)
    ensures IsMonic(R, Power(PolyRing(R), X(R), n), n)
  {
    hide PMul;
    if n == 0 {
      OneIsPoly(R);
    } else {
      MonicPower(R, n - 1);
      MonicMul(R, X(R), 1, Power(PolyRing(R), X(R), n - 1), n - 1);
    }
  }

  ghost function Linears<F>(R: Ring<F>, cs: seq<F>): (ls: seq<seq<F>>)
    ensures |ls| == |cs| && forall i :: 0 <= i < |cs| ==> ls[i] == Linear(R, cs[i])
  {
    seq(|cs|, i requires 0 <= i < |cs| => Linear(R, cs[i]))
  }

  lemma {:induction false} MonicProduct<F(!new)>(R: Ring<F>, cs: seq<F>)
    requires IsRing(R) && AllIn(R, cs)
    ensures IsMonic(R, Prod(PolyRing(R), Linears(R, cs)), |cs|)
  {
    hide PMul;
    if cs == [] {
      OneIsPoly(R);
    } else {
      MonicProduct(R, cs[1..]);
      assert Linears(R, cs)[1..] == Linears(R, cs[1..]);
      EvalLinear(R, cs[0], R.zero);
      MonicMul(R, Linear(R, cs[0]), 1, Prod(PolyRing(R), Linears(R, cs[1..])), |cs| - 1);
    }
  }

  // ----- their values -----

  lemma EvalX<F(!new)>(R: Ring<F>, x: F)
    requires IsRing(R) && R.has(x)
    ensures IsPoly(R, X(R)) && Eval(R, X(R), x) == x
  {
    assert X(R)[1..] == [R.one];
    EvalOne(R, x);
    MulOne(R, x);
    AddZero(R, x);
  }

  lemma {:induction false} EvalPower<F(!new)>(R: Ring<F>, q: seq<F>, n: nat, x: F)
    requires IsRing(R) && IsPoly(R, q) && R.has(x)
    ensures Eval(R, Power(PolyRing(R), q, n), x) == Power(R, Eval(R, q, x), n)
  {
    hide PMul;
    PolyRingIsRing(R);
    if n == 0 {
      OneIsPoly(R);
      EvalOne(R, x);
    } else {
      EvalPower(R, q, n - 1, x);
      PowerHas(PolyRing(R), q, n - 1);
      EvalMul(R, q, Power(PolyRing(R), q, n - 1), x);
    }
  }

  lemma EvalOne<F(!new)>(R: Ring<F>, x: F)
    requires IsRing(R) && R.has(x)
    ensures Eval(R, [R.one], x) == R.one
  {
    assert [R.one][1..] == [];
    MulZero(R, x);
    AddZero(R, R.one);
  }

  ghost function Differences<F>(R: Ring<F>, x: F, cs: seq<F>): (ds: seq<F>)
    ensures |ds| == |cs| && forall i :: 0 <= i < |cs| ==> ds[i] == Sub(R, x, cs[i])
  {
    seq(|cs|, i requires 0 <= i < |cs| => Sub(R, x, cs[i]))
  }

  lemma {:induction false} EvalProduct<F(!new)>(R: Ring<F>, cs: seq<F>, x: F)
    requires IsRing(R) && AllIn(R, cs) && R.has(x)
    ensures Eval(R, Prod(PolyRing(R), Linears(R, cs)), x) == Prod(R, Differences(R, x, cs))
  {
    hide PMul, Eval;
    if cs == [] {
      OneIsPoly(R);
      EvalOne(R, x);
    } else {
      var T := Prod(PolyRing(R), Linears(R, cs[1..]));
      EvalProduct(R, cs[1..], x);
      MonicProduct(R, cs[1..]);
      assert Linears(R, cs)[1..] == Linears(R, cs[1..]);
      assert Differences(R, x, cs)[1..] == Differences(R, x, cs[1..]);
      EvalLinear(R, cs[0], x);
      EvalMul(R, Linear(R, cs[0]), T, x);
    }
  }

  lemma {:induction false} ZeroFactor<F(!new)>(R: Ring<F>, ds: seq<F>, i: nat)
    requires IsRing(R) && Family(R, ds) && i < |ds| && ds[i] == R.zero
    ensures Prod(R, ds) == R.zero
  {
    ProdHas(R, ds[1..]);
    if i == 0 {
      MulZero(R, Prod(R, ds[1..]));
    } else {
      ZeroFactor(R, ds[1..], i - 1);
      MulZero(R, ds[0]);
    }
  }

  // ----- the identity -----

  /** X^n - (X - c_1) ... (X - c_n) - X */
  ghost function Gap<F(!new)>(R: Ring<F>, cs: seq<F>): seq<F> {
    PSub(R, PSub(R, Power(PolyRing(R), X(R), |cs|), Prod(PolyRing(R), Linears(R, cs))), X(R))
  }

  lemma GapIsShort<F(!new)>(R: Ring<F>, cs: seq<F>)
    requires IsRing(R) && AllIn(R, cs) && |cs| >= 2
    ensures IsPoly(R, Gap(R, cs)) && |Gap(R, cs)| <= |cs|
  {
    hide PMul, PAdd, Power, Prod;
    var (A, B) := (Power(PolyRing(R), X(R), |cs|), Prod(PolyRing(R), Linears(R, cs)));
    MonicPower(R, |cs|);
    MonicProduct(R, cs);
    PSubTop(R, A, B);
    PNegPoly(R, B);
    PAddPoly(R, A, PNeg(R, B));
    XIsPoly(R);
    PNegPoly(R, X(R));
    PAddPoly(R, PSub(R, A, B), PNeg(R, X(R)));
    PAddNoLonger(R, PSub(R, A, B), PNeg(R, X(R)), |cs|);
  }

  lemma GapValue<F(!new)>(R: Ring<F>, cs: seq<F>, x: F)
    requires IsRing(R) && AllIn(R, cs) && R.has(x)
    ensures R.has(Power(R, x, |cs|)) && R.has(Prod(R, Differences(R, x, cs)))
    ensures Eval(R, Gap(R, cs), x) == Sub(R, Sub(R, Power(R, x, |cs|), Prod(R, Differences(R, x, cs))), x)
  {
    hide PMul, PAdd, Power, Prod, Eval, PNeg;
    var (A, B) := (Power(PolyRing(R), X(R), |cs|), Prod(PolyRing(R), Linears(R, cs)));
    MonicPower(R, |cs|);
    MonicProduct(R, cs);
    EvalX(R, x);
    EvalPower(R, X(R), |cs|, x);
    EvalProduct(R, cs, x);
    EvalSub(R, A, B, x);
    EvalSub(R, PSub(R, A, B), X(R), x);
    PowerHas(R, x, |cs|);
    ProdHas(R, Differences(R, x, cs));
  }

  lemma GapVanishes<F(!new)>(R: Ring<F>, cs: seq<F>)
    requires IsDomain(R) && AllIn(R, cs) && |cs| >= 2 && Distinct(cs)
    requires forall i :: 0 <= i < |cs| ==> Power(R, cs[i], |cs|) == cs[i]
    ensures Gap(R, cs) == []
  {
    hide Gap, Power, Prod, Eval, IsRing;
    DomainIsRing(R);
    GapIsShort(R, cs);
    forall i | 0 <= i < |cs| ensures Eval(R, Gap(R, cs), cs[i]) == R.zero {
      GapValue(R, cs, cs[i]);
      RootOfGap(R, cs, i);
    }
    if Gap(R, cs) != [] { FewRoots(R, Gap(R, cs), cs); }
  }

  lemma DomainIsRing<F(!new)>(R: Ring<F>)
    requires IsDomain(R)
    ensures IsRing(R)
  {}

  lemma RootOfGap<F(!new)>(R: Ring<F>, cs: seq<F>, i: nat)
    requires IsRing(R) && AllIn(R, cs) && i < |cs| && Power(R, cs[i], |cs|) == cs[i]
    ensures Sub(R, Sub(R, Power(R, cs[i], |cs|), Prod(R, Differences(R, cs[i], cs))), cs[i]) == R.zero
  {
    hide Power, Prod;
    var c := cs[i];
    var ds := Differences(R, c, cs);
    SubSelf(R, c, c);
    ZeroFactor(R, ds, i);
    NegZero(R);
    AddZero(R, c);
  }

  /** x^n - x is the product of the x - c_i. */
  lemma PowerMinusSelf<F(!new)>(R: Ring<F>, cs: seq<F>, x: F)
    requires IsDomain(R) && AllIn(R, cs) && |cs| >= 2 && Distinct(cs) && R.has(x)
    requires forall i :: 0 <= i < |cs| ==> Power(R, cs[i], |cs|) == cs[i]
    ensures Sub(R, Power(R, x, |cs|), x) == Prod(R, Differences(R, x, cs))
  {
    hide Gap, Power, Prod, IsDomain;
    DomainIsRing(R);
    GapVanishes(R, cs);
    GapValue(R, cs, x);
    var (a, b) := (Power(R, x, |cs|), Prod(R, Differences(R, x, cs)));
    // (a - b) - x == 0, so a == x + b
    SubSelf(R, Sub(R, a, b), x);
    SubSelf(R, a, b);
    SubOfSum(R, x, b, a);
  }

  // ----- residues as constants -----

  ghost function Constants(p: nat): (cs: seq<seq<int>>)
    requires p > 1
    ensures |cs| == p && forall s :: 0 <= s < p ==> cs[s] == Const(Fp(p), s)
  {
    seq(p, s requires 0 <= s < p => Const(Fp(p), s))
  }

  lemma ResidueIn(p: nat, s: nat)
    requires p > 1 && s < p
    ensures Fp(p).has(s)
  {}

  /** h^p - h is the product of h - s over all residues s. */
  lemma FermatForPolynomials(p: nat, h: seq<int>)
    requires Prime(p) && IsPoly(Fp(p), h)
    ensures Sub(PolyRing(Fp(p)), Power(PolyRing(Fp(p)), h, p), h)
         == Prod(PolyRing(Fp(p)), Differences(PolyRing(Fp(p)), h, Constants(p)))
  {
    hide Power, Prod, IsField, FpMod, ModInverse, Fp, IsRing, IsDomain;
    FpIsField(p);
    PolyRingIsDomain(Fp(p));
    forall s | 0 <= s < p
      ensures IsPoly(Fp(p), Constants(p)[s]) && Power(PolyRing(Fp(p)), Constants(p)[s], p) == Constants(p)[s]
    {
      ResidueIn(p, s);
      ConstOfResidue(p, s);
    }
    PowerMinusSelf(PolyRing(Fp(p)), Constants(p), h);
  }
}
