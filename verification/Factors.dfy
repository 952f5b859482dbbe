/** Irreducible factors, the formal derivative, and square-freeness over a field of characteristic
    zero. */
module Factors {
  import opened Rings
  import opened Polys
  import opened Vectors
  import opened Division
  import opened Euclid
  import opened Comaximal
  import opened Diophantine

  // ----- the formal derivative -----

  function Derivative<F(==)>(K: Ring<F>, p: seq<F>): seq<F> {
    if p == [] then [] else PAdd(K, p[1..], Shift(K, Derivative(K, p[1..])))
  }

  lemma {:induction false} DerivativePoly<F(!new)>(K: Ring<F>, p: seq<F>)
    requires IsRing(K) && IsPoly(K, p)
    ensures IsPoly(K, Derivative(K, p))
  {
    if p != [] {
      DerivativePoly(K, p[1..]);
      ConsPoly(K, K.zero, Derivative(K, p[1..]));
      PAddPoly(K, p[1..], Shift(K, Derivative(K, p[1..])));
    }
  }

  lemma DerivativeCons<F(!new)>(K: Ring<F>, c: F, t: seq<F>)
    requires IsRing(K) && IsPoly(K, t)
    ensures Derivative(K, Cons(K, c, t)) == PAdd(K, t, Shift(K, Derivative(K, t)))
  {
    if c == K.zero && t == [] {
    } else {
      assert ([c] + t)[1..] == t;
    }
  }

  lemma {:induction false} DerivativeAdd<F(!new)>(K: Ring<F>, p: seq<F>, q: seq<F>)
    requires IsRing(K) && IsPoly(K, p) && IsPoly(K, q)
    ensures Derivative(K, PAdd(K, p, q)) == PAdd(K, Derivative(K, p), Derivative(K, q))
  {
    DerivativePoly(K, p);
    DerivativePoly(K, q);
    if p != [] && q != [] {
      var (s, t) := (p[1..], q[1..]);
      DerivativeAdd(K, s, t);
      PAddPoly(K, s, t);
      DerivativeCons(K, K.add(p[0], q[0]), PAdd(K, s, t));
      DerivativePoly(K, s);
      DerivativePoly(K, t);
      ShiftAdd(K, Derivative(K, s), Derivative(K, t));
      ConsPoly(K, K.zero, Derivative(K, s));
      ConsPoly(K, K.zero, Derivative(K, t));
      PAddSwap(K, s, t, Shift(K, Derivative(K, s)), Shift(K, Derivative(K, t)));
    }
  }

  lemma {:induction false} DerivativeScale<F(!new)>(K: Ring<F>, c: F, p: seq<F>)
    requires IsRing(K) && K.has(c) && IsPoly(K, p)
    ensures Derivative(K, Scale(K, c, p)) == Scale(K, c, Derivative(K, p))
  {
    if p != [] {
      var t := p[1..];
      DerivativeScale(K, c, t);
      ScalePoly(K, c, t);
      DerivativeCons(K, K.mul(c, p[0]), Scale(K, c, t));
      DerivativePoly(K, t);
      ScaleShift(K, c, Derivative(K, t));
      ConsPoly(K, K.zero, Derivative(K, t));
      ScaleAdd(K, c, t, Shift(K, Derivative(K, t)));
    }
  }

  // a + (b + (c + d)) == (b + c) + (a + d)
  lemma Regroup<F(!new)>(R: Ring<F>, a: F, b: F, c: F, d: F)
    requires IsRing(R) && R.has(a) && R.has(b) && R.has(c) && R.has(d)
    ensures R.add(a, R.add(b, R.add(c, d))) == R.add(R.add(b, c), R.add(a, d))
  {
    AddAssoc(R, b, c, d);
    AddAssoc(R, a, R.add(b, c), d);
    AddComm(R, a, R.add(b, c));
    AddAssoc(R, R.add(b, c), a, d);
  }

  /** The product rule. */
  lemma {:induction false} DerivativeMul<F(!new)>(K: Ring<F>, p: seq<F>, q: seq<F>)
    requires IsRing(K) && IsPoly(K, p) && IsPoly(K, q)
    ensures Derivative(K, PMul(K, p, q)) == PAdd(K, PMul(K, Derivative(K, p), q), PMul(K, p, Derivative(K, q)))
  {
    if p != [] {
      DerivativeMul(K, p[1..], q);
      ProductRuleStep(K, p[0], p[1..], q);
      assert p == Cons(K, p[0], p[1..]);
    }
  }

  lemma ProductRuleStep<F(!new)>(K: Ring<F>, c: F, t: seq<F>, q: seq<F>)
    requires IsRing(K) && K.has(c) && IsPoly(K, t) && IsPoly(K, q)
    requires Derivative(K, PMul(K, t, q)) == PAdd(K, PMul(K, Derivative(K, t), q), PMul(K, t, Derivative(K, q)))
    ensures var p := Cons(K, c, t);
            Derivative(K, PMul(K, p, q)) == PAdd(K, PMul(K, Derivative(K, p), q), PMul(K, p, Derivative(K, q)))
  {
    PolyRingIsRing(K);
    var P := PolyRing(K);
    DerivativePoly(K, t);
    DerivativePoly(K, q);
    var (dt, dq) := (Derivative(K, t), Derivative(K, q));
    var (tq, a, b) := (PMul(K, t, q), PMul(K, dt, q), PMul(K, t, dq));
    PMulPoly(K, t, q);
    PMulPoly(K, dt, q);
    PMulPoly(K, t, dq);
    ScalePoly(K, c, q);
    ScalePoly(K, c, dq);
    ConsPoly(K, K.zero, tq);
    ConsPoly(K, K.zero, a);
    ConsPoly(K, K.zero, b);
    ConsPoly(K, K.zero, dt);
    var lhs := PAdd(K, Scale(K, c, dq), PAdd(K, tq, PAdd(K, Shift(K, a), Shift(K, b))));
    assert Derivative(K, PMul(K, Cons(K, c, t), q)) == lhs by {
      MulCons(K, c, t, q);
      DerivativeAdd(K, Scale(K, c, q), Shift(K, tq));
      DerivativeScale(K, c, q);
      DerivativeCons(K, K.zero, tq);
      ShiftAdd(K, a, b);
    }
    assert PMul(K, Derivative(K, Cons(K, c, t)), q) == PAdd(K, tq, Shift(K, a)) by {
      DerivativeCons(K, c, t);
      PDistrRight(K, t, Shift(K, dt), q);
      ShiftMul(K, dt, q);
    }
    MulCons(K, c, t, dq);
    Regroup(P, Scale(K, c, dq), tq, Shift(K, a), Shift(K, b));
  }

  lemma {:induction false} MultipleOfCoeff<F(!new)>(K: Ring<F>, p: seq<F>, i: nat)
    requires IsRing(K) && IsPoly(K, p)
    ensures Coeff(K, Derivative(K, p), i) == Multiple(K, i + 1, Coeff(K, p, i + 1))
  {
    if p == [] {
      MultipleZero(K, i + 1);
    } else {
      var t := p[1..];
      var d := Derivative(K, t);
      DerivativePoly(K, t);
      ConsPoly(K, K.zero, d);
      CoeffAdd(K, t, Shift(K, d), i);
      assert Coeff(K, t, i) == Coeff(K, p, i + 1);
      if i > 0 {
        MultipleOfCoeff(K, t, i - 1);
        assert Coeff(K, Shift(K, d), i) == Coeff(K, d, i - 1);
      } else {
        assert Coeff(K, Shift(K, d), 0) == K.zero;
      }
    }
  }

  lemma {:induction false} MultipleZero<F(!new)>(K: Ring<F>, n: nat)
    requires IsRing(K)
    ensures Multiple(K, n, K.zero) == K.zero
  {
    if n > 0 {
      MultipleZero(K, n - 1);
      AddZero(K, K.zero);
    }
  }

  /** Characteristic zero: no positive multiple of one vanishes. */
  ghost predicate Char0<F(!new)>(K: Ring<F>) {
    forall n: nat {:trigger Multiple(K, n, K.one)} :: n > 0 ==> Multiple(K, n, K.one) != K.zero
  }

  /** In characteristic zero the derivative of a non-constant polynomial is shorter but not zero. */
  lemma DerivativeLen<F(!new)>(K: Ring<F>, p: seq<F>)
    requires IsField(K) && Char0(K) && IsPoly(K, p) && |p| >= 2
    ensures IsPoly(K, Derivative(K, p)) && Derivative(K, p) != [] && |Derivative(K, p)| < |p|
  {
    FieldIsDomain(K);
    DerivativePoly(K, p);
    var (d, n) := (Derivative(K, p), |p| - 1);
    MultipleOfCoeff(K, p, n - 1);
    MultipleMul(K, n, K.one, p[n]);
    MulOne(K, p[n]);
    MultipleHas(K, n, K.one);
    assert Coeff(K, d, n - 1) != K.zero;
    if |d| >= |p| {
      MultipleOfCoeff(K, p, |d| - 1);
      MultipleZero(K, |d|);
    }
  }

  lemma {:induction false} MultipleIsScale<F(!new)>(K: Ring<F>, n: nat, p: seq<F>)
    requires IsRing(K) && IsPoly(K, p)
    ensures K.has(Multiple(K, n, K.one))
    ensures Multiple(PolyRing(K), n, p) == Scale(K, Multiple(K, n, K.one), p)
  {
    MultipleHas(K, n, K.one);
    if n == 0 {
      ScaleZero(K, p);
    } else {
      MultipleIsScale(K, n - 1, p);
      AddScale(K, K.one, Multiple(K, n - 1, K.one), p);
      ScaleOne(K, p);
    }
  }

  // d (p q) + p (e (q d)) == (e+1) ((p q) d)
  lemma PowerRuleStep<F(!new)>(R: Ring<F>, p: F, q: F, d: F, e: nat)
    requires IsRing(R) && R.has(p) && R.has(q) && R.has(d)
    ensures R.add(R.mul(d, R.mul(p, q)), R.mul(p, Multiple(R, e, R.mul(q, d))))
         == Multiple(R, e + 1, R.mul(R.mul(p, q), d))
  {
    MultipleTimes(R, e, p, R.mul(q, d));
    MulAssoc(R, p, q, d);
    MulComm(R, d, R.mul(p, q));
  }

  /** D(p^(e+1)) == (e+1) p^e D(p) */
  lemma {:induction false} DerivativePower<F(!new)>(K: Ring<F>, p: seq<F>, e: nat)
    requires IsRing(K) && IsPoly(K, p)
    ensures var P := PolyRing(K);
            Derivative(K, Power(P, p, e + 1)) == Multiple(P, e + 1, P.mul(Power(P, p, e), Derivative(K, p)))
  {
    hide PMul, PAdd, Scale, Cons, Derivative;
    PolyRingIsRing(K);
    var P := PolyRing(K);
    var dp := Derivative(K, p);
    DerivativePoly(K, p);
    if e == 0 {
      MulOne(P, p);
      MulOne(P, dp);
      AddZero(P, dp);
      assert Power(P, p, 1) == p;
      assert Multiple(P, 1, P.mul(P.one, dp)) == dp;
    } else {
      var q := Power(P, p, e - 1);
      PowerHas(P, p, e - 1);
      DerivativePower(K, p, e - 1);
      DerivativeMul(K, p, P.mul(p, q));
      PowerRuleStep(P, p, q, dp, e);
      assert Power(P, p, e) == P.mul(p, q);
    }
  }

  // ----- irreducible factors -----

  ghost predicate IrreduciblePoly<F(!new)>(K: Ring<F>, p: seq<F>) {
    IsPoly(K, p) && Irreducible(K, p)
  }

  lemma {:induction false} IrreducibleFactor<F(!new)>(K: Ring<F>, f: seq<F>) returns (p: seq<F>)
    requires IsField(K) && IsPoly(K, f) && |f| >= 2
    ensures IrreduciblePoly(K, p) && Divides(PolyRing(K), p, f)
    decreases |f|
  {
    PolyRingIsRing(K);
    var P := PolyRing(K);
    if Irreducible(K, f) {
      DividesSelf(P, f);
      p := f;
    } else {
      var a, b :| IsPoly(K, a) && IsPoly(K, b) && PMul(K, a, b) == f && |a| != 1 && |b| != 1;
      FieldIsDomain(K);
      PMulPoly(K, a, b);
      PMulLen(K, a, b);
      p := IrreducibleFactor(K, a);
      DividesMul(P, p, a, b);
    }
  }

  // constants divide everything
  lemma ConstantDivides<F(!new)>(K: Ring<F>, u: seq<F>, a: seq<F>)
    requires IsField(K) && IsPoly(K, u) && |u| == 1 && IsPoly(K, a)
    ensures Divides(PolyRing(K), u, a)
  {
    PolyRingIsRing(K);
    var P := PolyRing(K);
    var i := Const(K, K.inverse(u[0]).value);
    ConstMul(K, u[0], i);
    assert Const(K, u[0]) == u;
    assert P.inverse(u) == Some(i);
    MulAssoc(P, a, i, u);
    MulComm(P, i, u);
    MulOne(P, a);
    DividesIntro(P, P.mul(a, i), u, a);
  }

  lemma IrreducibleComax<F(!new)>(K: Ring<F>, p: seq<F>, a: seq<F>)
    requires IsField(K) && IrreduciblePoly(K, p) && IsPoly(K, a) && !Divides(PolyRing(K), p, a)
    ensures Comax(PolyRing(K), p, a)
  {
    PolyRingIsRing(K);
    var P := PolyRing(K);
    var r := GcdTriple(K, p, a);
    GcdTripleCorrect(K, p, a);
    ConstantGcd(K, p, a, r);
    var h :| P.has(h) && P.mul(h, r.g) == p;
    if |r.g| != 1 {
      // h is a constant, so p divides the gcd, and a
      ConstantDivides(K, h, P.one);
      var k :| P.has(k) && P.mul(k, h) == P.one;
      MulAssoc(P, k, h, r.g);
      MulOne(P, r.g);
      DividesIntro(P, k, p, r.g);
      DividesTrans(P, p, r.g, a);
    }
  }

  /** Euclid's lemma for irreducible polynomials. */
  lemma IrreducibleDivides<F(!new)>(K: Ring<F>, p: seq<F>, a: seq<F>, b: seq<F>)
    requires IsField(K) && IrreduciblePoly(K, p) && IsPoly(K, a) && IsPoly(K, b)
    requires Divides(PolyRing(K), p, PMul(K, a, b))
    ensures Divides(PolyRing(K), p, a) || Divides(PolyRing(K), p, b)
  {
    PolyRingIsRing(K);
    if !Divides(PolyRing(K), p, a) {
      IrreducibleComax(K, p, a);
      ComaxDivides(PolyRing(K), p, a, b);
    }
  }

  ghost predicate NoCommonFactor<F(!new)>(K: Ring<F>, a: seq<F>, b: seq<F>) {
    forall p {:trigger IrreduciblePoly(K, p)} ::
      IrreduciblePoly(K, p) ==> !(Divides(PolyRing(K), p, a) && Divides(PolyRing(K), p, b))
  }

  lemma NoCommonFactorComax<F(!new)>(K: Ring<F>, a: seq<F>, b: seq<F>)
    requires IsField(K) && IsPoly(K, a) && IsPoly(K, b) && a != [] && NoCommonFactor(K, a, b)
    ensures Comax(PolyRing(K), a, b)
  {
    PolyRingIsRing(K);
    var P := PolyRing(K);
    FieldIsDomain(K);
    var r := GcdTriple(K, a, b);
    GcdTripleCorrect(K, a, b);
    ConstantGcd(K, a, b, r);
    DivisorLen(K, r.g, a);
    if |r.g| >= 2 {
      var p := IrreducibleFactor(K, r.g);
      DividesTrans(P, p, r.g, a);
      DividesTrans(P, p, r.g, b);
    }
  }

  /** No square of a non-constant polynomial divides f. */
  ghost predicate SquareFree<F(!new)>(K: Ring<F>, f: seq<F>) {
    forall d {:trigger PMul(K, d, d)} :: IsPoly(K, d) && |d| >= 2 ==> !Divides(PolyRing(K), PMul(K, d, d), f)
  }

  /** Every irreducible factor of g divides w. */
  ghost predicate RadicalIn<F(!new)>(K: Ring<F>, g: seq<F>, w: seq<F>) {
    forall p {:trigger IrreduciblePoly(K, p)} ::
      IrreduciblePoly(K, p) && Divides(PolyRing(K), p, g) ==> Divides(PolyRing(K), p, w)
  }

  lemma SquareFreeDivisor<F(!new)>(K: Ring<F>, d: seq<F>, f: seq<F>)
    requires IsRing(K) && IsPoly(K, d) && IsPoly(K, f) && SquareFree(K, f) && Divides(PolyRing(K), d, f)
    ensures SquareFree(K, d)
  {
    PolyRingIsRing(K);
    forall e | IsPoly(K, e) && |e| >= 2 && Divides(PolyRing(K), PMul(K, e, e), d) ensures false {
      PMulPoly(K, e, e);
      DividesTrans(PolyRing(K), PMul(K, e, e), d, f);
    }
  }

  lemma SquareDivides<F(!new)>(R: Ring<F>, p: F, z: F, y: F)
    requires IsRing(R) && R.has(p) && R.has(z) && R.has(y) && Divides(R, p, z) && Divides(R, p, y)
    ensures Divides(R, R.mul(p, p), R.mul(z, y))
  {
    var a :| R.has(a) && R.mul(a, p) == z;
    var b :| R.has(b) && R.mul(b, p) == y;
    MulFour(R, a, p, b, p);
    DividesIntro(R, R.mul(a, b), R.mul(p, p), R.mul(z, y));
  }

  /** The two factors of a square-free product are comaximal. */
  lemma SquareFreeSplits<F(!new)>(K: Ring<F>, z: seq<F>, y: seq<F>)
    requires IsField(K) && IsPoly(K, z) && IsPoly(K, y) && z != [] && SquareFree(K, PMul(K, z, y))
    ensures Comax(PolyRing(K), z, y)
  {
    PolyRingIsRing(K);
    forall p | IrreduciblePoly(K, p) && Divides(PolyRing(K), p, z) && Divides(PolyRing(K), p, y) ensures false {
      SquareDivides(PolyRing(K), p, z, y);
    }
    NoCommonFactorComax(K, z, y);
  }

  lemma QuotientShorter<F(!new)>(K: Ring<F>, q: seq<F>, p: seq<F>)
    requires IsField(K) && IsPoly(K, q) && IsPoly(K, p) && |p| >= 2 && PMul(K, q, p) != []
    ensures q != [] && |q| < |PMul(K, q, p)|
  {
    FieldIsDomain(K);
    PMulPoly(K, q, p);
    if q != [] { PMulLen(K, q, p); }
  }

  lemma PowerTimes<F(!new)>(R: Ring<F>, p: F, e: nat, u: F, q: F)
    requires IsRing(R) && R.has(p) && R.has(u) && q == R.mul(Power(R, p, e), u)
    ensures R.mul(q, p) == R.mul(Power(R, p, e + 1), u)
  {
    PowerHas(R, p, e);
    MulComm(R, q, p);
    MulAssoc(R, p, Power(R, p, e), u);
  }

  /** f == p^e u with p not dividing u. */
  lemma {:induction false} Multiplicity<F(!new)>(K: Ring<F>, p: seq<F>, f: seq<F>) returns (e: nat, u: seq<F>)
    requires IsField(K) && IsPoly(K, p) && |p| >= 2 && IsPoly(K, f) && f != []
    ensures IsPoly(K, u) && f == PMul(K, Power(PolyRing(K), p, e), u) && !Divides(PolyRing(K), p, u)
    decreases |f|
  {
    hide PMul, PAdd, Scale, Cons;
    PolyRingIsRing(K);
    var P := PolyRing(K);
    if !Divides(P, p, f) {
      e, u := 0, f;
      MulOne(P, f);
    } else {
      var q :| P.has(q) && P.mul(q, p) == f;
      QuotientShorter(K, q, p);
      var e';
      e', u := Multiplicity(K, p, q);
      e := e' + 1;
      PowerTimes(P, p, e', u, q);
    }
  }

  // (n (q d)) u + (p q) d' == q ((n d) u + p d')
  lemma DerivativeFactor<F(!new)>(R: Ring<F>, n: nat, q: F, d: F, u: F, p: F, d': F)
    requires IsRing(R) && R.has(q) && R.has(d) && R.has(u) && R.has(p) && R.has(d')
    ensures R.has(Multiple(R, n, d))
    ensures R.add(R.mul(Multiple(R, n, R.mul(q, d)), u), R.mul(R.mul(p, q), d'))
         == R.mul(q, R.add(R.mul(Multiple(R, n, d), u), R.mul(p, d')))
  {
    MultipleHas(R, n, d);
    MultipleTimes(R, n, q, d);
    MulAssoc(R, q, Multiple(R, n, d), u);
    MulComm(R, p, q);
    MulAssoc(R, q, p, d');
    Distr(R, q, R.mul(Multiple(R, n, d), u), R.mul(p, d'));
  }

  // if p divides w + p d, it divides w
  lemma DividesFirst<F(!new)>(R: Ring<F>, p: F, w: F, d: F)
    requires IsRing(R) && R.has(p) && R.has(w) && R.has(d) && Divides(R, p, R.add(w, R.mul(p, d)))
    ensures Divides(R, p, w)
  {
    DividesSelf(R, p);
    DividesMul(R, p, p, d);
    DividesSub(R, p, R.add(w, R.mul(p, d)), R.mul(p, d));
    AddComm(R, w, R.mul(p, d));
    SubOfSum(R, R.mul(p, d), w, R.add(w, R.mul(p, d)));
  }

  // D(p^(e+1) u) == p^e v, where v is not divisible by p unless u is
  lemma DerivativeAt<F(!new)>(K: Ring<F>, p: seq<F>, e: nat, u: seq<F>) returns (v: seq<F>)
    requires IsField(K) && Char0(K) && IrreduciblePoly(K, p) && IsPoly(K, u) && !Divides(PolyRing(K), p, u)
    ensures IsPoly(K, v) && !Divides(PolyRing(K), p, v)
    ensures Derivative(K, PMul(K, Power(PolyRing(K), p, e + 1), u)) == PMul(K, Power(PolyRing(K), p, e), v)
  {
    hide PMul, PAdd, Scale, Cons, Derivative, Multiple;
    PolyRingIsRing(K);
    var P := PolyRing(K);
    DerivativePoly(K, p);
    DerivativePoly(K, u);
    var (dp, du) := (Derivative(K, p), Derivative(K, u));
    var (q, n) := (Power(P, p, e), e + 1);
    PowerHas(P, p, e);
    PowerHas(P, p, n);
    DerivativeFactor(P, n, q, dp, u, p, du);
    var w := P.mul(Multiple(P, n, dp), u);
    v := P.add(w, P.mul(p, du));
    DerivativeMul(K, Power(P, p, n), u);
    DerivativePower(K, p, e);
    if Divides(P, p, v) {
      DividesFirst(P, p, w, du);
      MultipleNotDivisible(K, p, n, u);
    }
  }

  // n (q a) == q (n a)
  lemma MultipleTimes<F(!new)>(R: Ring<F>, n: nat, q: F, a: F)
    requires IsRing(R) && R.has(q) && R.has(a)
    ensures Multiple(R, n, R.mul(q, a)) == R.mul(q, Multiple(R, n, a))
  {
    MultipleMul(R, n, a, q);
    MulComm(R, q, a);
    MultipleHas(R, n, a);
    MulComm(R, q, Multiple(R, n, a));
  }

  // an irreducible p divides no n p' u unless it divides u
  lemma MultipleNotDivisible<F(!new)>(K: Ring<F>, p: seq<F>, n: nat, u: seq<F>)
    requires IsField(K) && Char0(K) && IrreduciblePoly(K, p) && IsPoly(K, u) && n > 0
    requires Divides(PolyRing(K), p, PMul(K, Multiple(PolyRing(K), n, Derivative(K, p)), u))
    ensures Divides(PolyRing(K), p, u)
  {
    FieldIsDomain(K);
    DerivativeLen(K, p);
    var dp := Derivative(K, p);
    MultipleIsScale(K, n, dp);
    var m := Multiple(K, n, K.one);
    ScaleLen(K, m, dp);
    ScalePoly(K, m, dp);
    IrreducibleDivides(K, p, Scale(K, m, dp), u);
    if Divides(PolyRing(K), p, Scale(K, m, dp)) {
      DivisorLen(K, p, Scale(K, m, dp));
    }
  }

  lemma PowerDividesCancel<F(!new)>(R: Ring<F>, q: F, p: F, u: F)
    requires IsDomain(R) && R.has(q) && R.has(p) && R.has(u) && q != R.zero
    requires Divides(R, R.mul(p, q), R.mul(q, u))
    ensures Divides(R, p, u)
  {
    var k :| R.has(k) && R.mul(k, R.mul(p, q)) == R.mul(q, u);
    MulAssoc(R, k, p, q);
    MulComm(R, R.mul(k, p), q);
    CancelLeft(R, q, R.mul(k, p), u);
    DividesIntro(R, k, p, u);
  }

  lemma {:induction false} PowerNonZero<F(!new)>(R: Ring<F>, p: F, n: nat)
    requires IsDomain(R) && R.has(p) && p != R.zero
    ensures R.has(Power(R, p, n)) && Power(R, p, n) != R.zero
  {
    if n > 0 { PowerNonZero(R, p, n - 1); }
  }

  /** g is a greatest common divisor of f and its derivative, w is the cofactor. */
  ghost predicate DerivativeGcd<F(!new)>(K: Ring<F>, f: seq<F>, g: seq<F>, w: seq<F>) {
    var P := PolyRing(K);
    && IsPoly(K, f) && f != [] && IsPoly(K, g) && IsPoly(K, w) && PMul(K, w, g) == f
    && Divides(P, g, Derivative(K, f)) && InIdeal(P, f, Derivative(K, f), g)
  }

  // q divides (p q) u and q v, and so every combination of them
  lemma PowerDividesGcd<F(!new)>(R: Ring<F>, q: F, p: F, u: F, v: F, f: F, d: F, g: F)
    requires IsRing(R) && R.has(q) && R.has(p) && R.has(u) && R.has(v) && R.has(f) && R.has(d)
    requires f == R.mul(R.mul(p, q), u) && d == R.mul(q, v) && InIdeal(R, f, d, g)
    ensures Divides(R, q, g)
  {
    DividesSelf(R, q);
    DividesMul(R, q, q, p);
    DividesMul(R, q, R.mul(p, q), u);
    DividesMul(R, q, q, v);
    IdealDivisor(R, f, d, q, g);
  }

  lemma CofactorAt<F(!new)>(K: Ring<F>, f: seq<F>, g: seq<F>, w: seq<F>, p: seq<F>)
    requires IsField(K) && Char0(K) && DerivativeGcd(K, f, g, w) && IrreduciblePoly(K, p)
    requires Divides(PolyRing(K), p, f)
    ensures Divides(PolyRing(K), p, w) && !Divides(PolyRing(K), PMul(K, p, p), w)
  {
    hide PMul, PAdd, Scale, Cons, Derivative, Divides;
    PolyRingIsRing(K);
    var P := PolyRing(K);
    var n, u := Multiplicity(K, p, f);
    MulOne(P, u);
    assert n > 0;
    var e: nat := n - 1;
    var q := Power(P, p, e);
    PowerHas(P, p, e);
    var v := DerivativeAt(K, p, e, u);
    DerivativePoly(K, f);
    PowerDividesGcd(P, q, p, u, v, f, Derivative(K, f), g);
    if !Divides(P, p, w) { CofactorMissed(K, f, g, w, p, e, u, v); }
    if Divides(P, P.mul(p, p), w) { CofactorTwice(K, f, g, w, p, e, u); }
  }

  // p^(e+1) would divide g, and so the derivative
  lemma CofactorMissed<F(!new)>(K: Ring<F>, f: seq<F>, g: seq<F>, w: seq<F>, p: seq<F>, e: nat, u: seq<F>, v: seq<F>)
    requires IsField(K) && DerivativeGcd(K, f, g, w) && IrreduciblePoly(K, p) && IsPoly(K, u) && IsPoly(K, v)
    requires f == PMul(K, Power(PolyRing(K), p, e + 1), u)
    requires Derivative(K, f) == PMul(K, Power(PolyRing(K), p, e), v)
    requires !Divides(PolyRing(K), p, w)
    ensures Divides(PolyRing(K), p, v)
  {
    FieldIsDomain(K);
    PolyRingIsDomain(K);
    PolyRingIsRing(K);
    var P := PolyRing(K);
    var q' := Power(P, p, e + 1);
    PowerNonZero(P, p, e);
    PowerNonZero(P, p, e + 1);
    IrreducibleComax(K, p, w);
    ComaxPower(P, p, w, e + 1);
    MulComm(P, q', u);
    DividesIntro(P, u, q', f);
    ComaxDivides(P, q', w, g);
    DerivativePoly(K, f);
    DividesTrans(P, q', g, Derivative(K, f));
    PowerDividesCancel(P, Power(P, p, e), p, v);
  }

  // p^(e+2) would divide f
  lemma CofactorTwice<F(!new)>(K: Ring<F>, f: seq<F>, g: seq<F>, w: seq<F>, p: seq<F>, e: nat, u: seq<F>)
    requires IsField(K) && DerivativeGcd(K, f, g, w) && IrreduciblePoly(K, p) && IsPoly(K, u)
    requires f == PMul(K, Power(PolyRing(K), p, e + 1), u)
    requires Divides(PolyRing(K), Power(PolyRing(K), p, e), g) && Divides(PolyRing(K), PMul(K, p, p), w)
    ensures Divides(PolyRing(K), p, u)
  {
    FieldIsDomain(K);
    PolyRingIsDomain(K);
    var P := PolyRing(K);
    var (q, q') := (Power(P, p, e), Power(P, p, e + 1));
    assert q' == P.mul(p, q);
    PowerNonZero(P, p, e);
    PowerNonZero(P, p, e + 1);
    CofactorOfSquare(P, p, q, q', u, f, g, w);
  }

  // w == a p p and g == b q make f == w g a multiple of p (p q), and f == (p q) u
  lemma CofactorOfSquare<F(!new)>(R: Ring<F>, p: F, q: F, q': F, u: F, f: F, g: F, w: F)
    requires IsDomain(R) && R.has(p) && R.has(q) && R.has(q') && R.has(u) && q' == R.mul(p, q) && q' != R.zero
    requires f == R.mul(w, g) && f == R.mul(q', u) && Divides(R, R.mul(p, p), w) && Divides(R, q, g)
    ensures Divides(R, p, u)
  {
    var a :| R.has(a) && R.mul(a, R.mul(p, p)) == w;
    var b :| R.has(b) && R.mul(b, q) == g;
    MulFour(R, a, R.mul(p, p), b, q);
    MulAssoc(R, p, p, q);
    DividesIntro(R, R.mul(a, b), R.mul(p, q'), f);
    PowerDividesCancel(R, q', p, u);
  }

  /** The cofactor of gcd(f, f') is square-free, and has every irreducible factor of f. */
  lemma DerivativeCofactor<F(!new)>(K: Ring<F>, f: seq<F>, g: seq<F>, w: seq<F>)
    requires IsField(K) && Char0(K) && DerivativeGcd(K, f, g, w)
    ensures SquareFree(K, w) && RadicalIn(K, f, w) && RadicalIn(K, g, w)
  {
    PolyRingIsRing(K);
    var P := PolyRing(K);
    forall p | IrreduciblePoly(K, p) && Divides(P, p, f) ensures Divides(P, p, w) {
      CofactorAt(K, f, g, w, p);
    }
    forall p | IrreduciblePoly(K, p) && Divides(P, p, g) ensures Divides(P, p, w) {
      DividesMul(P, p, g, w);
      CofactorAt(K, f, g, w, p);
    }
    forall d | IsPoly(K, d) && |d| >= 2 && Divides(P, PMul(K, d, d), w) ensures false {
      SquareInCofactor(K, f, g, w, d);
    }
  }

  lemma SquareInCofactor<F(!new)>(K: Ring<F>, f: seq<F>, g: seq<F>, w: seq<F>, d: seq<F>)
    requires IsField(K) && Char0(K) && DerivativeGcd(K, f, g, w) && IsPoly(K, d) && |d| >= 2
    ensures !Divides(PolyRing(K), PMul(K, d, d), w)
  {
    if Divides(PolyRing(K), PMul(K, d, d), w) {
      PolyRingIsRing(K);
      var P := PolyRing(K);
      var p := IrreducibleFactor(K, d);
      SquareDivides(P, p, d, d);
      PMulPoly(K, d, d);
      PMulPoly(K, p, p);
      DividesTrans(P, PMul(K, p, p), PMul(K, d, d), w);
      DividesSelf(P, p);
      DividesMul(P, p, p, p);
      DividesTrans(P, p, PMul(K, p, p), w);
      DividesMul(P, p, w, g);
      CofactorAt(K, f, g, w, p);
    }
  }
}
