/** Why the two parts of a Berlekamp split have no common factor. */
module BerlekampCoprime {
  import opened Rings
  import opened Polys
  import opened Division
  import opened Comaximal
  import opened Congruence
  import opened ChineseRemainder
  import opened Numbers
  import opened PrimeField
  import opened Berlekamp
  import opened FermatProduct
  import BerlekampTheory
  import opened Factors

  // x - c and x - e are comaximal when e - c is a unit
  lemma UnitApart<F(!new)>(R: Ring<F>, x: F, c: F, e: F, i: F)
    requires IsRing(R) && R.has(x) && R.has(c) && R.has(e) && R.has(i) && R.mul(i, Sub(R, e, c)) == R.one
    ensures Comax(R, Sub(R, x, c), Sub(R, x, e))
  {
    var (A, B, u) := (Sub(R, x, c), Sub(R, x, e), Sub(R, e, c));
    SubSelf(R, x, c);
    SubSelf(R, x, e);
    SubSelf(R, e, c);
    // B + u == A, because both sides plus c are x
    AddAssoc(R, B, u, c);
    AddComm(R, R.add(B, u), c);
    AddComm(R, A, c);
    AddCancel(R, c, R.add(B, u), A);
    SubOfSum(R, B, u, A);
    MulSub(R, i, A, B);
    MulNeg(R, i, B);
    ComaxIntro(R, i, A, R.neg(i), B);
  }

  lemma ConstantsApart<F(!new)>(K: Ring<F>, h: seq<F>, s: F, t: F)
    requires IsField(K) && IsPoly(K, h) && K.has(s) && K.has(t) && s != t
    ensures Comax(PolyRing(K), PSub(K, h, Const(K, s)), PSub(K, h, Const(K, t)))
  {
    hide PMul, PAdd;
    var P := PolyRing(K);
    PolyRingIsRing(K);
    FieldIsDomain(K);
    var (c, e) := (Const(K, s), Const(K, t));
    ConsPoly(K, s, []);
    ConsPoly(K, t, []);
    var u := PSub(K, e, c);
    PNegPoly(K, c);
    PAddPoly(K, e, PNeg(K, c));
    BerlekampTheory.PAddNoLonger(K, e, PNeg(K, c), 1);
    assert Coeff(K, e, 0) == t && Coeff(K, c, 0) == s;
    SubSelf(P, e, c);
    OneIsPoly(K);
    ConstantDivides(K, u, [K.one]);
    var i :| P.has(i) && P.mul(i, u) == P.one;
    UnitApart(P, h, c, e, i);
  }

  /** When g divides x w with x and w comaximal, the gcd of g and x is comaximal with its cofactor. */
  lemma GcdCofactor<F(!new)>(R: Ring<F>, g: F, x: F, w: F, d: F, q: F)
    requires IsDomain(R) && R.has(g) && R.has(x) && R.has(w) && R.has(d) && R.has(q) && d != R.zero
    requires Comax(R, x, w) && Divides(R, g, R.mul(x, w)) && Divides(R, d, x) && InIdeal(R, g, x, d)
    requires R.mul(q, d) == g
    ensures Comax(R, d, q)
  {
    hide Comax;
    var e :| R.has(e) && R.mul(e, d) == x;
    CofactorsApart(R, g, x, d, q, e);
    // q d divides e d w, so q divides e w, and then w
    MulComm(R, e, d);
    MulAssoc(R, d, e, w);
    PowerDividesCancel(R, d, q, R.mul(e, w));
    ComaxDivides(R, q, e, w);
    ComaxSym(R, x, w);
    ComaxDivisor(R, w, d, x);
    ComaxSym(R, w, d);
    ComaxDivisor(R, d, q, w);
  }

  // q and e are what is left of g and x after their gcd
  lemma CofactorsApart<F(!new)>(R: Ring<F>, g: F, x: F, d: F, q: F, e: F)
    requires IsDomain(R) && R.has(g) && R.has(x) && R.has(d) && R.has(q) && R.has(e) && d != R.zero
    requires InIdeal(R, g, x, d) && R.mul(q, d) == g && R.mul(e, d) == x
    ensures Comax(R, q, e)
  {
    var s, t :| R.has(s) && R.has(t) && Comb(R, s, g, t, x) == d;
    MulAssoc(R, s, q, d);
    MulAssoc(R, t, e, d);
    DistrRight(R, R.mul(s, q), R.mul(t, e), d);
    MulOne(R, d);
    MulComm(R, Comb(R, s, q, t, e), d);
    CancelLeft(R, d, Comb(R, s, q, t, e), R.one);
    ComaxIntro(R, s, q, t, e);
  }

  lemma DifferencesHas(p: nat, h: seq<int>)
    requires Prime(p) && IsPoly(Fp(p), h)
    ensures Family(PolyRing(Fp(p)), Differences(PolyRing(Fp(p)), h, Constants(p)))
  {
    hide PAdd, FpMod, ModInverse, IsField;
    var K := Fp(p);
    FpIsField(p);
    forall s | 0 <= s < p ensures IsPoly(K, PSub(K, h, Const(K, s))) {
      ConsPoly(K, s, []);
      PNegPoly(K, Const(K, s));
      PAddPoly(K, h, PNeg(K, Const(K, s)));
    }
  }

  // h^p - h is h - s times something comaximal with h - s
  lemma OtherResidues(p: nat, h: seq<int>, s: nat) returns (w: seq<int>)
    requires Prime(p) && IsPoly(Fp(p), h) && s < p
    ensures IsPoly(Fp(p), PSub(Fp(p), h, Const(Fp(p), s))) && IsPoly(Fp(p), w)
    ensures Comax(PolyRing(Fp(p)), PSub(Fp(p), h, Const(Fp(p), s)), w)
    ensures Sub(PolyRing(Fp(p)), Power(PolyRing(Fp(p)), h, p), h) == PMul(Fp(p), PSub(Fp(p), h, Const(Fp(p), s)), w)
  {
    hide IsField, Power, PMul, PAdd, PNeg, Prod, Comax, FpMod, ModInverse, IsPoly;
    var (K, P) := (Fp(p), PolyRing(Fp(p)));
    FpIsField(p);
    PolyRingIsRing(K);
    var ds := Differences(P, h, Constants(p));
    var rest := ds[..s] + ds[s + 1..];
    DifferencesHas(p, h);
    FermatForPolynomials(p, h);
    ProdExtract(P, ds, s);
    ProdHas(P, rest);
    forall k | 0 <= k < |rest| ensures Comax(P, ds[s], rest[k]) {
      ConstantsApart(K, h, s, if k < s then k else k + 1);
    }
    ComaxProd(P, ds[s], rest);
    w := Prod(P, rest);
  }

  /** Split by h with h^p == h, the gcd with h - s and its cofactor are comaximal. */
  lemma SplitComax(p: nat, g: seq<int>, h: seq<int>, s: nat, d: seq<int>, q: seq<int>)
    requires Prime(p) && IsPoly(Fp(p), g) && IsPoly(Fp(p), h) && IsPoly(Fp(p), q) && s < p
    requires CongBy(PolyRing(Fp(p)), g, Power(PolyRing(Fp(p)), h, p), h)
    requires IsGcd(Fp(p), g, PSub(Fp(p), h, Const(Fp(p), s)), d) && d != [] && PMul(Fp(p), q, d) == g
    ensures Comax(PolyRing(Fp(p)), d, q)
  {
    hide IsField, Power, PMul, PAdd, PNeg, Comax, Divides, InIdeal, FpMod, ModInverse, IsPoly;
    FpIsField(p);
    PolyRingIsDomain(Fp(p));
    var w := OtherResidues(p, h, s);
    GcdCofactor(PolyRing(Fp(p)), g, PSub(Fp(p), h, Const(Fp(p), s)), w, d, q);
  }

  // ----- one factor of a family replaced by two -----

  function Refined<F>(us: seq<F>, i: nat, a: F, b: F): (r: seq<F>)
    requires i < |us|
    ensures |r| == |us| + 1 && r[i] == a && r[i + 1] == b
  {
    us[..i] + [a, b] + us[i + 1..]
  }

  lemma TwoForOne<F(!new)>(R: Ring<F>, a: F, b: F, tail: seq<F>)
    requires IsRing(R) && Family(R, tail) && R.has(a) && R.has(b)
    ensures Family(R, [a, b] + tail) && Family(R, [R.mul(a, b)] + tail)
    ensures Prod(R, [a, b] + tail) == Prod(R, [R.mul(a, b)] + tail)
  {
    assert ([a, b] + tail)[1..] == [b] + tail && ([b] + tail)[1..] == tail;
    assert ([R.mul(a, b)] + tail)[1..] == tail;
    ProdHas(R, tail);
    MulAssoc(R, a, b, Prod(R, tail));
  }

  lemma RefinedProd<F(!new)>(R: Ring<F>, us: seq<F>, i: nat, a: F, b: F)
    requires IsRing(R) && Family(R, us) && i < |us| && R.has(a) && R.has(b) && R.mul(a, b) == us[i]
    ensures Prod(R, Refined(us, i, a, b)) == Prod(R, us)
  {
    hide IsRing, Prod;
    var (head, tail) := (us[..i], us[i + 1..]);
    assert us == head + ([us[i]] + tail);
    assert Refined(us, i, a, b) == head + ([a, b] + tail);
    TwoForOne(R, a, b, tail);
    ProdConcat(R, head, [us[i]] + tail);
    ProdConcat(R, head, [a, b] + tail);
  }

  // each member of the refined family divides a member of the family
  lemma RefinedPart<F(!new)>(R: Ring<F>, us: seq<F>, i: nat, a: F, b: F, j: nat)
    requires IsRing(R) && Family(R, us) && i < |us| && R.has(a) && R.has(b) && R.mul(a, b) == us[i] && j <= |us|
    ensures R.has(Refined(us, i, a, b)[j])
    ensures Divides(R, Refined(us, i, a, b)[j], us[if j <= i then j else j - 1])
  {
    DividesSelf(R, a);
    DividesSelf(R, b);
    DividesMul(R, a, a, b);
    DividesMul(R, b, b, a);
    if j < i || j > i + 1 { DividesSelf(R, us[if j <= i then j else j - 1]); }
  }

  lemma ComaxDivisors<F(!new)>(R: Ring<F>, a: F, d: F, b: F, e: F)
    requires IsRing(R) && R.has(a) && R.has(d) && R.has(b) && R.has(e)
    requires Comax(R, a, b) && Divides(R, d, a) && Divides(R, e, b)
    ensures Comax(R, d, e)
  {
    hide Comax, Divides;
    ComaxDivisor(R, a, e, b);
    ComaxSym(R, a, e);
    ComaxDivisor(R, e, d, a);
    ComaxSym(R, e, d);
  }

  /** Splitting one member into comaximal parts keeps a family pairwise comaximal. */
  lemma RefinedComax<F(!new)>(R: Ring<F>, us: seq<F>, i: nat, a: F, b: F)
    requires IsRing(R) && Family(R, us) && i < |us| && R.has(a) && R.has(b) && R.mul(a, b) == us[i]
    requires PairwiseComax(R, us) && Comax(R, a, b)
    ensures PairwiseComax(R, Refined(us, i, a, b))
  {
    hide Comax, Divides, Refined;
    var ws := Refined(us, i, a, b);
    forall j, k | 0 <= j < k < |ws| ensures Comax(R, ws[j], ws[k]) {
      if j != i || k != i + 1 {
        RefinedPart(R, us, i, a, b, j);
        RefinedPart(R, us, i, a, b, k);
        ComaxDivisors(R, us[if j <= i then j else j - 1], ws[j], us[if k <= i then k else k - 1], ws[k]);
      }
    }
  }
}
