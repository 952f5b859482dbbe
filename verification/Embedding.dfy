/** Integer polynomials as polynomials over the rationals. */
module Embedding {
  import opened Rings
  import opened Polys
  import opened Division
  import opened IntPolys
  import opened Factors
  import opened Euclid
  import Interpolation

  function Rat(p: IntPoly): seq<real> {
    Interpolation.ToReals(p)
  }

  lemma RatPoly(p: IntPoly)
    requires IsIntPoly(p)
    ensures IsPoly(Rationals(), Rat(p)) && |Rat(p)| == |p|
  {}

  lemma RatCons(c: int, t: IntPoly)
    ensures Rat(Cons(Integers(), c, t)) == Cons(Rationals(), c as real, Rat(t))
  {
    assert Rat([c] + t) == [c as real] + Rat(t);
  }

  lemma RatTail(p: IntPoly)
    requires p != []
    ensures Rat(p)[0] == p[0] as real && Rat(p)[1..] == Rat(p[1..])
  {}

  lemma RatInjective(p: IntPoly, q: IntPoly)
    requires Rat(p) == Rat(q)
    ensures p == q
  {
    forall i | 0 <= i < |p| ensures p[i] == q[i] {
      assert Rat(p)[i] == Rat(q)[i];
    }
  }

  lemma {:induction false} RatAdd(p: IntPoly, q: IntPoly)
    ensures Rat(PAdd(Integers(), p, q)) == PAdd(Rationals(), Rat(p), Rat(q))
  {
    if p != [] && q != [] {
      RatAdd(p[1..], q[1..]);
      RatTail(p);
      RatTail(q);
      RatCons(p[0] + q[0], PAdd(Integers(), p[1..], q[1..]));
    }
  }

  lemma ScaleUnfold(c: int, p: IntPoly)
    requires p != []
    ensures ScaleBy(c, p) == Cons(Integers(), c * p[0], ScaleBy(c, p[1..]))
  {
    assert Integers().mul(c, p[0]) == c * p[0];
  }

  lemma RealScaleUnfold(c: real, p: seq<real>)
    requires p != []
    ensures Scale(Rationals(), c, p) == Cons(Rationals(), Rationals().mul(c, p[0]), Scale(Rationals(), c, p[1..]))
  {}

  lemma RatHead(c: int, p: IntPoly)
    requires p != []
    ensures Rat(p) != [] && Rationals().mul(c as real, Rat(p)[0]) == (c * p[0]) as real
  {
    RatTail(p);
    ProductAsReal(c, p[0]);
    RealMul(c as real, p[0] as real);
  }

  lemma RealMul(a: real, b: real)
    ensures Rationals().mul(a, b) == a * b
  {}

  lemma {:induction false} RatScale(c: int, p: IntPoly)
    ensures Rat(ScaleBy(c, p)) == Scale(Rationals(), c as real, Rat(p))
  {
    if p != [] {
      RatScale(c, p[1..]);
      RatTail(p);
      RatHead(c, p);
      RatCons(c * p[0], ScaleBy(c, p[1..]));
      ScaleUnfold(c, p);
      assert Rat(p) != [];
      RealScaleUnfold(c as real, Rat(p));
    } else {
      assert Rat(p) == [];
    }
  }

  lemma ProductAsReal(a: int, b: int)
    ensures (a * b) as real == (a as real) * (b as real)
  {}

  lemma RatShift(p: IntPoly)
    ensures Rat(Shift(Integers(), p)) == Shift(Rationals(), Rat(p))
  {
    RatCons(0, p);
  }

  lemma {:induction false} RatMul(p: IntPoly, q: IntPoly)
    ensures Rat(Times(p, q)) == PMul(Rationals(), Rat(p), Rat(q))
  {
    hide Scale, PAdd, Cons;
    if p != [] {
      var t := p[1..];
      RatMul(t, q);
      RatTail(p);
      RatMulStep(p[0], t, q);
    }
  }

  lemma RatMulStep(c: int, t: IntPoly, q: IntPoly)
    requires Rat(Times(t, q)) == PMul(Rationals(), Rat(t), Rat(q))
    ensures Rat(PAdd(Integers(), ScaleBy(c, q), Shift(Integers(), Times(t, q))))
         == PAdd(Rationals(), Scale(Rationals(), c as real, Rat(q)),
                 Shift(Rationals(), PMul(Rationals(), Rat(t), Rat(q))))
  {
    RatScale(c, q);
    RatShift(Times(t, q));
    RatAdd(ScaleBy(c, q), Shift(Integers(), Times(t, q)));
  }

  lemma TimesPoly(p: IntPoly, q: IntPoly)
    requires IsIntPoly(p) && IsIntPoly(q)
    ensures IsIntPoly(Times(p, q))
  {
    IntegersAreDomain();
    PMulPoly(Integers(), p, q);
  }

  lemma {:induction false} RatDerivative(p: IntPoly)
    ensures Rat(Derivative(Integers(), p)) == Derivative(Rationals(), Rat(p))
  {
    hide PAdd, Cons;
    if p != [] {
      var t := p[1..];
      var d := Derivative(Integers(), t);
      RatDerivative(t);
      RatShift(d);
      RatAdd(t, Shift(Integers(), d));
      RatTail(p);
      assert Rat(p) != [];
    } else {
      assert Rat(p) == [];
    }
  }

  lemma {:induction false} RationalMultiple(n: nat)
    ensures Multiple(Rationals(), n, 1.0) == n as real
  {
    if n > 0 { RationalMultiple(n - 1); }
  }

  lemma RationalsChar0()
    ensures Char0(Rationals())
  {
    forall n: nat | n > 0 ensures Multiple(Rationals(), n, Rationals().one) != Rationals().zero {
      RationalMultiple(n);
    }
  }

  // ----- equality up to a non-zero constant -----

  ghost predicate Similar<F(!new)>(K: Ring<F>, a: seq<F>, b: seq<F>) {
    exists c {:trigger Scale(K, c, b)} :: K.has(c) && c != K.zero && a == Scale(K, c, b)
  }

  lemma SimilarIntro<F(!new)>(K: Ring<F>, c: F, a: seq<F>, b: seq<F>)
    requires K.has(c) && c != K.zero && a == Scale(K, c, b)
    ensures Similar(K, a, b)
  {}

  lemma SimilarRefl<F(!new)>(K: Ring<F>, a: seq<F>)
    requires IsRing(K) && IsPoly(K, a)
    ensures Similar(K, a, a)
  {
    ScaleOne(K, a);
    SimilarIntro(K, K.one, a, a);
  }

  lemma SimilarSym<F(!new)>(K: Ring<F>, a: seq<F>, b: seq<F>)
    requires IsField(K) && IsPoly(K, b) && Similar(K, a, b)
    ensures Similar(K, b, a)
  {
    var c :| K.has(c) && c != K.zero && a == Scale(K, c, b);
    var i := K.inverse(c).value;
    ScaleScale(K, i, c, b);
    MulComm(K, c, i);
    ScaleOne(K, b);
    UnitTimesNonZero(K, c, K.one);
    MulZero(K, c);
    SimilarIntro(K, i, b, a);
  }

  lemma SimilarTrans<F(!new)>(K: Ring<F>, a: seq<F>, b: seq<F>, c: seq<F>)
    requires IsField(K) && IsPoly(K, c) && Similar(K, a, b) && Similar(K, b, c)
    ensures Similar(K, a, c)
  {
    FieldIsDomain(K);
    var x :| K.has(x) && x != K.zero && a == Scale(K, x, b);
    var y :| K.has(y) && y != K.zero && b == Scale(K, y, c);
    ScaleScale(K, x, y, c);
    SimilarIntro(K, K.mul(x, y), a, c);
  }

  lemma SimilarMul<F(!new)>(K: Ring<F>, a: seq<F>, b: seq<F>, c: seq<F>, d: seq<F>)
    requires IsField(K) && IsPoly(K, b) && IsPoly(K, d) && Similar(K, a, b) && Similar(K, c, d)
    ensures Similar(K, PMul(K, a, c), PMul(K, b, d))
  {
    FieldIsDomain(K);
    var x :| K.has(x) && x != K.zero && a == Scale(K, x, b);
    var y :| K.has(y) && y != K.zero && c == Scale(K, y, d);
    ScalePoly(K, y, d);
    PMulPoly(K, b, d);
    ScaleMul(K, x, b, c);
    PMulComm(K, b, c);
    ScaleMul(K, y, d, b);
    PMulComm(K, d, b);
    ScaleScale(K, x, y, PMul(K, b, d));
    SimilarIntro(K, K.mul(x, y), PMul(K, a, c), PMul(K, b, d));
  }

  lemma {:induction false} SimilarPower<F(!new)>(K: Ring<F>, a: seq<F>, b: seq<F>, n: nat)
    requires IsField(K) && IsPoly(K, a) && IsPoly(K, b) && Similar(K, a, b)
    ensures Similar(K, Power(PolyRing(K), a, n), Power(PolyRing(K), b, n))
  {
    hide PMul, Similar;
    PolyRingIsRing(K);
    var P := PolyRing(K);
    if n == 0 {
      SimilarRefl(K, P.one);
    } else {
      SimilarPower(K, a, b, n - 1);
      PowerHas(P, b, n - 1);
      SimilarMul(K, a, b, Power(P, a, n - 1), Power(P, b, n - 1));
    }
  }

  /** Similar polynomials divide, and are divided by, the same polynomials. */
  lemma SimilarDivides<F(!new)>(K: Ring<F>, a: seq<F>, b: seq<F>)
    requires IsField(K) && IsPoly(K, a) && IsPoly(K, b) && Similar(K, a, b)
    ensures |a| == |b|
    ensures Divides(PolyRing(K), a, b) && Divides(PolyRing(K), b, a)
  {
    SimilarSym(K, a, b);
    SimilarDividesOne(K, a, b);
    SimilarDividesOne(K, b, a);
  }

  lemma SimilarDividesOne<F(!new)>(K: Ring<F>, a: seq<F>, b: seq<F>)
    requires IsField(K) && IsPoly(K, a) && IsPoly(K, b) && Similar(K, a, b)
    ensures |a| == |b| && Divides(PolyRing(K), b, a)
  {
    FieldIsDomain(K);
    var c :| K.has(c) && c != K.zero && a == Scale(K, c, b);
    ScaleLen(K, c, b);
    ConstMul(K, c, b);
    DividesIntro(PolyRing(K), Const(K, c), b, a);
  }

  // ----- divisibility over the rationals, stated on integers -----

  lemma ScaledSimilar(f: IntPoly, l: int, h: IntPoly)
    requires IsIntPoly(f) && IsIntPoly(h) && l != 0 && ScaleBy(l, f) == h
    ensures Similar(Rationals(), Rat(h), Rat(f))
  {
    RatScale(l, f);
    SimilarIntro(Rationals(), l as real, Rat(h), Rat(f));
  }

  // h == q g and h ~ f make g a divisor of f
  lemma SimilarProduct<F(!new)>(K: Ring<F>, f: seq<F>, g: seq<F>, h: seq<F>, q: seq<F>)
    requires IsField(K) && IsPoly(K, f) && IsPoly(K, g) && IsPoly(K, h) && IsPoly(K, q)
    requires Similar(K, h, f) && PMul(K, q, g) == h
    ensures Divides(PolyRing(K), g, f)
  {
    PolyRingIsRing(K);
    SimilarDivides(K, h, f);
    DividesIntro(PolyRing(K), q, g, h);
    DividesTrans(PolyRing(K), g, h, f);
  }

  lemma OverQForward(f: IntPoly, g: IntPoly)
    requires IsIntPoly(f) && IsIntPoly(g) && DividesOverQ(f, g)
    ensures Divides(PolyRing(Rationals()), Rat(g), Rat(f))
  {
    RationalsAreField();
    var m, q :| m != 0 && IsIntPoly(q) && ScaleBy(m, f) == Times(q, g);
    RatMul(q, g);
    TimesPoly(q, g);
    ScaledSimilar(f, m, Times(q, g));
    RatPoly(f); RatPoly(g); RatPoly(q); RatPoly(Times(q, g));
    SimilarProduct(Rationals(), Rat(f), Rat(g), Rat(Times(q, g)), Rat(q));
  }

  // a pseudo-division, seen over the rationals
  lemma RatState(f: IntPoly, g: IntPoly, l: int, quo: IntPoly, rem: IntPoly)
    requires IsIntPoly(f) && IsIntPoly(g) && PseudoState(f, g, l, quo, rem)
    ensures PAdd(Rationals(), PMul(Rationals(), Rat(quo), Rat(g)), Rat(rem)) == Rat(ScaleBy(l, f))
    ensures Rat(ScaleBy(l, f)) == Scale(Rationals(), l as real, Rat(f)) && IsIntPoly(ScaleBy(l, f))
  {
    RatMul(quo, g);
    RatAdd(Times(quo, g), rem);
    RatScale(l, f);
    IntegersAreDomain();
    ScalePoly(Integers(), l, f);
  }

  // h == q g + r with r shorter than the divisor g of f ~ h
  lemma ShortRemainder<F(!new)>(K: Ring<F>, f: seq<F>, g: seq<F>, h: seq<F>, q: seq<F>, r: seq<F>)
    requires IsField(K) && IsPoly(K, f) && IsPoly(K, g) && IsPoly(K, h) && IsPoly(K, q) && IsPoly(K, r)
    requires Similar(K, h, f) && PAdd(K, PMul(K, q, g), r) == h && |r| < |g| && Divides(PolyRing(K), g, f)
    ensures r == []
  {
    hide PMul, PAdd, Similar, Divides, IsRing, IsDomain;
    PolyRingIsRing(K);
    SimilarDivides(K, h, f);
    DividesTrans(PolyRing(K), g, f, h);
    DividesRest(PolyRing(K), g, h, q, r);
    FieldIsDomain(K);
    if r != [] { DivisorLen(K, g, r); }
  }

  lemma DividesRest<F(!new)>(R: Ring<F>, g: F, h: F, q: F, r: F)
    requires IsRing(R) && R.has(g) && R.has(h) && R.has(q) && R.has(r)
    requires R.add(R.mul(q, g), r) == h && Divides(R, g, h)
    ensures Divides(R, g, r)
  {
    DividesSelf(R, g);
    DividesMul(R, g, g, q);
    DividesSub(R, g, h, R.mul(q, g));
    SubOfSum(R, R.mul(q, g), r, h);
  }

  // a remainder shorter than the divisor vanishes when the division is exact over the rationals
  lemma RatRemainderVanishes(f: IntPoly, g: IntPoly, l: int, quo: IntPoly, rem: IntPoly)
    requires IsIntPoly(f) && IsIntPoly(g) && g != [] && PseudoState(f, g, l, quo, rem) && |rem| < |g|
    requires Divides(PolyRing(Rationals()), Rat(g), Rat(f))
    ensures rem == []
  {
    RationalsAreField();
    RatState(f, g, l, quo, rem);
    var h := ScaleBy(l, f);
    ScaledSimilar(f, l, h);
    RatPoly(f); RatPoly(g); RatPoly(h); RatPoly(quo); RatPoly(rem);
    ShortRemainder(Rationals(), Rat(f), Rat(g), Rat(h), Rat(quo), Rat(rem));
  }
}
