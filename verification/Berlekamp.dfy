/** Berlekamp's algorithm: the matrix of p-th powers, its fixed vectors, and splitting by greatest
    common divisors. */
module Berlekamp {
  import opened Rings
  import opened Polys
  import opened Vectors
  import opened Division
  import opened Comaximal
  import opened Congruence
  import opened Numbers
  import opened PrimeField
  import LinearAlgebra
  import opened FixedVectors
  import TowerLoops

  // ----- polynomials over a field, reduced in place -----

  // subtracting f x^shift b is subtracting a multiple of b
  lemma RowIsMultiple<F(!new)>(K: Ring<F>, b: seq<F>, f: F, shift: nat)
    requires IsRing(K) && IsPoly(K, b) && K.has(f)
    ensures IsPoly(K, ShiftN(K, shift, Const(K, f)))
    ensures ShiftN(K, shift, Scale(K, f, b)) == PMul(K, ShiftN(K, shift, Const(K, f)), b)
  {
    ConsPoly(K, f, []);
    CoeffShiftN(K, shift, Const(K, f), 0);
    ConstMul(K, f, b);
    ShiftNMul(K, shift, Const(K, f), b);
  }

  /** Reduces a modulo b, one leading term at a time. */
  method ReduceBy<F(!new,==)>(K: Ring<F>, a: seq<F>, b: seq<F>) returns (r: seq<F>)
    requires IsField(K) && IsPoly(K, a) && IsPoly(K, b) && b != []
    ensures IsPoly(K, r) && |r| < |b| && CongBy(PolyRing(K), b, r, a)
    ensures |a| < |b| ==> r == a
  {
    hide IsField, IsPoly, CongBy;
    Leading(K, b);
    var inv := K.inverse(b[|b| - 1]).value;
    ghost var P := PolyRing(K);
    CongSelf(P, b, a);
    r := a;
    while r != [] && |r| >= |b|
      invariant IsPoly(K, r) && CongBy(P, b, r, a)
      invariant |a| < |b| ==> r == a
      decreases |r|
    {
      Leading(K, r);
      var shift := |r| - |b|;
      var fac := K.mul(r[|r| - 1], inv);
      TowerLoops.TopFactor(K, b[|b| - 1], inv, r[|r| - 1]);
      ghost var before := r;
      r := TowerLoops.SubtractRow(K, r, b, fac, shift);
      ReduceStep(K, a, before, b, fac, shift);
    }
  }

  // what is needed of a field and its polynomials, each time round
  lemma Leading<F(!new)>(K: Ring<F>, b: seq<F>)
    requires IsField(K) && IsPoly(K, b) && b != []
    ensures IsRing(K) && IsRing(PolyRing(K)) && K.has(b[|b| - 1]) && b[|b| - 1] != K.zero
    ensures K.inverse(b[|b| - 1]).Some? && Inverts(K, b[|b| - 1], K.inverse(b[|b| - 1]).value)
    ensures K.has(K.inverse(b[|b| - 1]).value)
    ensures forall c :: K.has(c) ==> K.has(K.mul(c, K.inverse(b[|b| - 1]).value))
  {
    PolyRingIsRing(K);
  }

  lemma ReduceStep<F(!new)>(K: Ring<F>, a: seq<F>, r: seq<F>, b: seq<F>, f: F, shift: nat)
    requires IsRing(K) && IsPoly(K, a) && IsPoly(K, r) && IsPoly(K, b) && K.has(f) && CongBy(PolyRing(K), b, r, a)
    ensures CongBy(PolyRing(K), b, PSub(K, r, ShiftN(K, shift, Scale(K, f, b))), a)
  {
    PolyRingIsRing(K);
    var P := PolyRing(K);
    RowIsMultiple(K, b, f, shift);
    var q := ShiftN(K, shift, Const(K, f));
    CongReduce(P, b, r, q);
    CongTrans(P, b, Sub(P, r, P.mul(q, b)), r, a);
  }

  /** The monic greatest common divisor: a common divisor that is a combination. */
  ghost predicate IsGcd<F(!new)>(K: Ring<F>, a: seq<F>, b: seq<F>, g: seq<F>) {
    var P := PolyRing(K);
    && IsPoly(K, g) && Divides(P, g, a) && Divides(P, g, b) && InIdeal(P, a, b, g)
    && (g == [] || g[|g| - 1] == K.one)
  }

  // (a, b) generates what (A, B) does
  ghost predicate SameIdeal<F(!new)>(P: Ring<F>, A: F, B: F, a: F, b: F) {
    && P.has(a) && P.has(b) && InIdeal(P, A, B, a) && InIdeal(P, A, B, b)
    && forall d :: P.has(d) && Divides(P, d, a) && Divides(P, d, b) ==> Divides(P, d, A) && Divides(P, d, B)
  }

  lemma SameIdealStep<F(!new)>(P: Ring<F>, A: F, B: F, a: F, b: F, r: F)
    requires IsRing(P) && P.has(A) && P.has(B) && P.has(r) && SameIdeal(P, A, B, a, b) && CongBy(P, b, r, a)
    ensures SameIdeal(P, A, B, b, r)
  {
    var q :| P.has(q) && P.mul(q, b) == Sub(P, r, a);
    // r == a + q b == a - (-q) b
    var nq := P.neg(q);
    MulNeg(P, q, b);
    NegNeg(P, P.mul(q, b));
    SubSelf(P, r, a);
    AddComm(P, a, Sub(P, r, a));
    assert r == Sub(P, a, P.mul(nq, b));
    IdealStep(P, A, B, a, nq, b);
    forall d | P.has(d) && Divides(P, d, b) && Divides(P, d, r) ensures Divides(P, d, A) && Divides(P, d, B) {
      DividesMul(P, d, b, q);
      DividesSub(P, d, r, P.mul(q, b));
      SubSelf(P, r, P.mul(q, b));
      BackToDividend(P, r, a, P.mul(q, b));
    }
  }

  lemma BackToDividend<F(!new)>(P: Ring<F>, r: F, a: F, x: F)
    requires IsRing(P) && P.has(r) && P.has(a) && P.has(x) && x == Sub(P, r, a)
    ensures a == Sub(P, r, x)
  {
    SubSelf(P, r, a);
    SubOfSum(P, x, a, r);
  }

  lemma SameIdealEnd<F(!new)>(P: Ring<F>, A: F, B: F, a: F)
    requires IsRing(P) && P.has(A) && P.has(B) && SameIdeal(P, A, B, a, P.zero)
    ensures Divides(P, a, A) && Divides(P, a, B) && InIdeal(P, A, B, a)
  {
    DividesSelf(P, a);
    DividesZero(P, a);
  }

  lemma MonicGcd<F(!new)>(K: Ring<F>, A: seq<F>, B: seq<F>, a: seq<F>, inv: F)
    requires IsField(K) && IsPoly(K, A) && IsPoly(K, B) && IsPoly(K, a) && a != []
    requires Divides(PolyRing(K), a, A) && Divides(PolyRing(K), a, B) && InIdeal(PolyRing(K), A, B, a)
    requires Inverts(K, a[|a| - 1], inv)
    ensures IsGcd(K, A, B, Scale(K, inv, a))
  {
    PolyRingIsRing(K);
    var P := PolyRing(K);
    var (c, u, g) := (a[|a| - 1], Const(K, inv), Scale(K, inv, a));
    ConsPoly(K, inv, []);
    ConstMul(K, inv, a);
    IdealTimes(P, A, B, u, a);
    ScalePoly(K, inv, a);
    MulComm(K, c, inv);
    ScaleTop(K, inv, a);
    // a == c g
    ScaleScale(K, c, inv, a);
    ScaleOne(K, a);
    ConsPoly(K, c, []);
    ConstMul(K, c, g);
    DividesIntro(P, Const(K, c), g, a);
    DividesTrans(P, g, a, A);
    DividesTrans(P, g, a, B);
  }

  method PolyGcd<F(!new,==)>(K: Ring<F>, a0: seq<F>, b0: seq<F>) returns (g: seq<F>)
    requires IsField(K) && IsPoly(K, a0) && IsPoly(K, b0)
    ensures IsGcd(K, a0, b0, g)
  {
    hide IsField, IsPoly, CongBy, SameIdeal, IsGcd, PolyRing;
    var a, b := a0, b0;
    ghost var P := PolyRing(K);
    SameIdealStart(K, a0, b0);
    while b != []
      invariant IsPoly(K, a) && IsPoly(K, b) && SameIdeal(P, a0, b0, a, b)
      decreases |b|
    {
      var r := ReduceBy(K, a, b);
      GcdStep(K, a0, b0, a, b, r);
      a, b := b, r;
    }
    GcdEnd(K, a0, b0, a);
    if a != [] {
      Leading(K, a);
      var inv := K.inverse(a[|a| - 1]).value;
      MonicGcd(K, a0, b0, a, inv);
      ScalePolyLen(K, inv, a);
      var v := TowerLoops.ScaleAll(K, a, inv);
      NormSame(K, v, Scale(K, inv, a));
      a := v;
    }
    g := a;
  }

  lemma SameIdealStart<F(!new)>(K: Ring<F>, a: seq<F>, b: seq<F>)
    requires IsField(K) && IsPoly(K, a) && IsPoly(K, b)
    ensures SameIdeal(PolyRing(K), a, b, a, b)
  {
    PolyRingIsRing(K);
    IdealGenerators(PolyRing(K), a, b);
  }

  lemma GcdStep<F(!new)>(K: Ring<F>, A: seq<F>, B: seq<F>, a: seq<F>, b: seq<F>, r: seq<F>)
    requires IsField(K) && IsPoly(K, A) && IsPoly(K, B) && IsPoly(K, r)
    requires SameIdeal(PolyRing(K), A, B, a, b) && CongBy(PolyRing(K), b, r, a)
    ensures SameIdeal(PolyRing(K), A, B, b, r)
  {
    hide SameIdeal, CongBy;
    PolyRingIsRing(K);
    SameIdealStep(PolyRing(K), A, B, a, b, r);
  }

  lemma GcdEnd<F(!new)>(K: Ring<F>, A: seq<F>, B: seq<F>, a: seq<F>)
    requires IsField(K) && IsPoly(K, A) && IsPoly(K, B) && SameIdeal(PolyRing(K), A, B, a, [])
    ensures Divides(PolyRing(K), a, A) && Divides(PolyRing(K), a, B) && InIdeal(PolyRing(K), A, B, a)
    ensures a == [] ==> IsGcd(K, A, B, a)
  {
    PolyRingIsRing(K);
    SameIdealEnd(PolyRing(K), A, B, a);
  }

  lemma ScalePolyLen<F(!new)>(K: Ring<F>, c: F, a: seq<F>)
    requires IsRing(K) && K.has(c) && IsPoly(K, a) && a != [] && Inverts(K, a[|a| - 1], c)
    ensures |Scale(K, c, a)| == |a| && IsPoly(K, Scale(K, c, a))
  {
    MulComm(K, a[|a| - 1], c);
    ScaleTop(K, c, a);
    ScalePoly(K, c, a);
  }

  // a vector as long as its polynomial is its polynomial
  lemma NormSame<F(!new)>(K: Ring<F>, v: seq<F>, p: seq<F>)
    requires IsRing(K) && AllIn(K, v) && Norm(K, v) == p && |v| == |p|
    ensures v == p
  {
    NormIs(K, v);
    forall i | 0 <= i < |v| ensures v[i] == p[i] { assert Coeff(K, p, i) == Coeff(K, v, i); }
  }

  /** The quotient of g by a divisor. */
  method ExactQuotient<F(!new,==)>(K: Ring<F>, g: seq<F>, d: seq<F>) returns (q: seq<F>)
    requires IsField(K) && IsPoly(K, g) && IsPoly(K, d) && d != [] && Divides(PolyRing(K), d, g)
    ensures IsPoly(K, q) && PMul(K, q, d) == g
  {
    hide IsField, IsPoly, Divides;
    Leading(K, d);
    if |g| < |d| {
      ShorterMultiple(K, g, d);
      return [];
    }
    var rem;
    q, rem := TowerLoops.Eliminate(K, g, d, K.inverse(d[|d| - 1]).value);
    ExactRemainder(K, g, d, q, rem);
  }

  lemma ShorterMultiple<F(!new)>(K: Ring<F>, g: seq<F>, d: seq<F>)
    requires IsField(K) && IsPoly(K, g) && IsPoly(K, d) && Divides(PolyRing(K), d, g) && |g| < |d|
    ensures g == [] && PMul(K, [], d) == [] && IsPoly(K, [])
  {
    FieldIsDomain(K);
    var q :| IsPoly(K, q) && PMul(K, q, d) == g;
    if q != [] { PMulLen(K, q, d); }
  }

  lemma ExactRemainder<F(!new)>(K: Ring<F>, g: seq<F>, d: seq<F>, q: seq<F>, rem: seq<F>)
    requires IsField(K) && IsPoly(K, g) && IsPoly(K, d) && d != [] && Divides(PolyRing(K), d, g)
    requires IsQuotient(K, g, d, Quotient(q, rem))
    ensures IsPoly(K, q) && PMul(K, q, d) == g
  {
    PolyRingIsRing(K);
    var e :| IsPoly(K, e) && PMul(K, e, d) == g;
    AddZero(PolyRing(K), g);
    Leading(K, d);
    assert IsQuotient(K, g, d, Quotient(e, []));
    DivisionUnique(K, g, d, Quotient(q, rem), Quotient(e, []));
  }

  // ----- powers of x modulo f -----

  function X<F>(K: Ring<F>): seq<F> {
    [K.zero, K.one]
  }

  lemma XIsPoly<F(!new)>(K: Ring<F>)
    requires IsRing(K)
    ensures IsPoly(K, X(K))
  {}

  method MulModPoly<F(!new,==)>(K: Ring<F>, a: seq<F>, b: seq<F>, f: seq<F>) returns (r: seq<F>)
    requires IsField(K) && IsPoly(K, a) && IsPoly(K, b) && IsPoly(K, f) && f != []
    ensures IsPoly(K, r) && |r| < |f| && CongBy(PolyRing(K), f, r, PMul(K, a, b))
  {
    hide IsField, CongBy;
    Leading(K, f);
    PMulPoly(K, a, b);
    NormOfPoly(K, a);
    NormOfPoly(K, b);
    var m := TowerLoops.PolyMul(K, a, b);
    NormOfPoly(K, PMul(K, a, b));
    m := StripTrailing(K, m);
    r := ReduceBy(K, m, f);
  }

  ghost predicate PowerLoop<F(!new)>(P: Ring<F>, f: F, result: F, base: F, e: nat, target: F) {
    P.has(result) && P.has(base) && CongBy(P, f, P.mul(result, Power(P, base, e)), target)
  }

  lemma PowerLoopStep<F(!new)>(P: Ring<F>, f: F, result: F, base: F, e: nat, target: F, result': F, base': F)
    requires IsRing(P) && P.has(f) && P.has(target) && P.has(result') && P.has(base') && e > 0
    requires PowerLoop(P, f, result, base, e, target) && CongBy(P, f, base', P.mul(base, base))
    requires if e % 2 != 0 then CongBy(P, f, result', P.mul(result, base)) else result' == result
    ensures PowerLoop(P, f, result', base', e / 2, target)
  {
    var k := e / 2;
    var w := Power(P, P.mul(base, base), k);
    var r := if e % 2 != 0 then P.mul(result, base) else result;
    PowerHas(P, P.mul(base, base), k);
    PowerHas(P, base', k);
    PowerHas(P, base, e);
    TowerLoops.PowerHalves(P, base, k);
    MulAssoc(P, result, base, w);
    assert P.mul(r, w) == P.mul(result, Power(P, base, e));
    CongSelf(P, f, result);
    CongPower(P, f, base', P.mul(base, base), k);
    CongTimes(P, f, result', r, Power(P, base', k), w);
    CongTrans(P, f, P.mul(result', Power(P, base', k)), P.mul(r, w), target);
  }

  lemma PowerLoopEnd<F(!new)>(P: Ring<F>, f: F, result: F, base: F, target: F)
    requires IsRing(P) && PowerLoop(P, f, result, base, 0, target)
    ensures CongBy(P, f, result, target)
  {
    MulOne(P, result);
  }

  /** x^e modulo f, by squaring. */
  method PowerMod<F(!new,==)>(K: Ring<F>, e0: nat, f: seq<F>) returns (result: seq<F>)
    requires IsField(K) && IsPoly(K, f) && |f| >= 2
    ensures IsPoly(K, result) && |result| < |f|
    ensures CongBy(PolyRing(K), f, result, Power(PolyRing(K), X(K), e0))
    ensures e0 == 0 ==> result == [K.one]
  {
    hide IsField, CongBy, PowerLoop;
    Leading(K, f);
    ghost var P := PolyRing(K);
    ghost var target := Power(P, X(K), e0);
    XIsPoly(K);
    PowerHas(P, X(K), e0);
    OneIsPoly(K);
    var base := X(K);
    CongSelf(P, f, base);
    if |base| >= |f| {
      base := MulModPoly(K, [K.one], base, f);
      MulOne(P, X(K));
    }
    result := [K.one];
    PowerStart(P, f, base, X(K), e0);
    var e := e0;
    while e != 0
      invariant IsPoly(K, result) && IsPoly(K, base) && |result| < |f|
      invariant PowerLoop(P, f, result, base, e, target)
      invariant e0 == 0 ==> e == 0 && result == [K.one]
    {
      ghost var (result0, base0) := (result, base);
      if e % 2 != 0 { result := MulModPoly(K, result, base, f); }
      base := MulModPoly(K, base, base, f);
      PowerLoopStep(P, f, result0, base0, e, target, result, base);
      e := e / 2;
    }
    PowerLoopEnd(P, f, result, base, target);
  }

  lemma OneIsPoly<F(!new)>(K: Ring<F>)
    requires IsRing(K)
    ensures IsPoly(K, [K.one]) && PolyRing(K).one == [K.one]
  {}

  lemma PowerStart<F(!new)>(P: Ring<F>, f: F, base: F, x: F, e: nat)
    requires IsRing(P) && P.has(f) && P.has(base) && P.has(x) && CongBy(P, f, base, x)
    ensures PowerLoop(P, f, P.one, base, e, Power(P, x, e))
  {
    PowerHas(P, base, e);
    CongPower(P, f, base, x, e);
    MulOne(P, Power(P, base, e));
  }

  /** x^(p i) */
  ghost function XPower(p: int, i: nat): seq<int>
    requires p > 1
  {
    NatProduct(p, i);
    Power(PolyRing(Fp(p)), X(Fp(p)), p * i)
  }

  lemma NatProduct(p: int, i: nat)
    requires p > 1
    ensures p * i >= 0
  {}

  /** Row i holds the coefficients of x^(p i) modulo f. */
  ghost predicate IsPowerMatrix(p: int, f: seq<int>, n: nat, Q: LinearAlgebra.Matrix<int>)
    requires p > 1
  {
    var (K, P) := (Fp(p), PolyRing(Fp(p)));
    && LinearAlgebra.IsMatrix(K, Q, n, n)
    && (forall i: nat :: i < n ==> CongBy(P, f, Norm(K, Q[i]), XPower(p, i)))
    && (n > 0 ==> Q[0] == Unit(K, n, 0))
  }

  method BuildMatrix(p: int, f: seq<int>) returns (Q: LinearAlgebra.Matrix<int>)
    requires Prime(p) && IsPoly(Fp(p), f) && |f| >= 2
    ensures IsPowerMatrix(p, f, |f| - 1, Q)
  {
    hide IsField, CongBy, Norm, Power, FpMod, IsPoly, PolyRing;
    FpIsField(p);
    var K := Fp(p);
    ghost var P := PolyRing(K);
    var n := |f| - 1;
    Q := [];
    for i := 0 to n
      invariant |Q| == i && forall k: nat :: k < i ==>
        LinearAlgebra.IsVector(K, Q[k], n) && CongBy(P, f, Norm(K, Q[k]), XPower(p, k))
      invariant i > 0 ==> Q[0] == Unit(K, n, 0)
    {
      NatProduct(p, i);
      var row := PowerMod(K, p * i, f);
      var padded := Pad(K, row, n);
      if i == 0 { assert padded == Unit(K, n, 0); }
      Q := Q + [padded];
    }
  }

  /** The coefficients of row, filled up with zeros. */
  method Pad<F(!new,==)>(K: Ring<F>, row: seq<F>, n: nat) returns (v: seq<F>)
    requires IsRing(K) && IsPoly(K, row) && |row| <= n
    ensures LinearAlgebra.IsVector(K, v, n) && Norm(K, v) == row
    ensures forall j :: 0 <= j < n ==> v[j] == if j < |row| then row[j] else K.zero
  {
    v := Zeros(K, n);
    var j := 0;
    while j < |row| && j < n
      invariant 0 <= j <= |row| && |v| == n
      invariant forall k :: 0 <= k < n ==> v[k] == if k < j then row[k] else K.zero
    {
      v := v[j := row[j]];
      j := j + 1;
    }
    NormOf(K, v, row);
  }
}
