/** What division, subtraction and inversion in one rung of a tower mean. */
module TowerDivision {
  import opened Rings
  import opened Polys
  import opened Division
  import opened Euclid
  import opened Tower
  import opened Comaximal

  /** Subtraction is undone by addition. */
  lemma MinusUndone<F(!new)>(K: Ring<F>, m: seq<F>, a: AlgebraicElement<F>, b: AlgebraicElement<F>)
    requires IsRing(K) && IsMinPoly(K, m) && IsElement(K, m, a) && IsElement(K, m, b)
    ensures IsElement(K, m, Minus(K, a, b)) && Plus(K, Minus(K, a, b), b) == a
  {
    hide PAdd, PNeg;
    RungIsRing(K, m);
    PNegPoly(K, b.value);
    PNegSameLength(K, b.value);
    MakeReduces(K, PNeg(K, b.value), m);
    assert Minus(K, a, b) == Plus(K, a, Negate(K, b));
    PlusIs(K, m, a, Negate(K, b));
    SubSelf(Rung(K, m), a, b);
  }

  lemma PNegSameLength<F>(K: Ring<F>, p: seq<F>)
    ensures |PNeg(K, p)| == |p|
  {}

  /** Division is undone by multiplication, over any lawful coefficients and for any modulus. */
  lemma DivisionUndone<F(!new)>(K: Ring<F>, m: seq<F>, a: AlgebraicElement<F>, b: AlgebraicElement<F>)
    requires IsRing(K) && IsMinPoly(K, m) && IsElement(K, m, a) && IsElement(K, m, b) && DividedBy(K, a, b).Some?
    ensures IsElement(K, m, DividedBy(K, a, b).value) && Times(K, DividedBy(K, a, b).value, b) == a
  {
    RungIsRing(K, m);
    InverseCorrect(K, m, b);
    var (R, i) := (Rung(K, m), Inverse(K, b).value);
    RungClosed(K, m);
    TimesIs(K, m, a, i);
    MulAssoc(R, a, i, b);
    MulComm(R, i, b);
    MulOne(R, a);
  }

  /** Inversion succeeds exactly when the element has no factor in common with the minimal polynomial. */
  lemma InverseIff<F(!new)>(K: Ring<F>, m: seq<F>, a: AlgebraicElement<F>)
    requires IsField(K) && IsMinPoly(K, m) && IsElement(K, m, a)
    ensures Inverse(K, a).Some? <==> Comax(PolyRing(K), a.value, m)
  {
    hide PMul;
    FieldIsDomain(K);
    ExtGcdCorrect(K, a.value, m);
    var r := ExtGcd(K, a.value, m).value;
    ConstantGcd(K, a.value, m, r);
    if a.value == [] && Comax(PolyRing(K), [], m) { ZeroIsNotComaximal(K, m); }
  }

  /** Division succeeds exactly for divisors that are inverted: over a field those comaximal with the minimal
      polynomial, and when that is irreducible all but zero. */
  lemma DivisionIff<F(!new)>(K: Ring<F>, m: seq<F>, a: AlgebraicElement<F>, b: AlgebraicElement<F>)
    requires IsRing(K) && IsMinPoly(K, m) && IsElement(K, m, a) && IsElement(K, m, b)
    ensures DividedBy(K, a, b).Some? <==> Inverse(K, b).Some?
    ensures IsField(K) ==> (DividedBy(K, a, b).Some? <==> Comax(PolyRing(K), b.value, m))
    ensures IsField(K) && Irreducible(K, m) ==> (DividedBy(K, a, b).Some? <==> b.value != [])
  {
    hide PMul, Times;
    if IsField(K) {
      InverseIff(K, m, b);
      if Irreducible(K, m) && b.value != [] { NonZeroInverts(K, m, b); }
    }
  }

  /** Over a field there is nothing else to fail for: division succeeds whenever some element times the divisor
      is one, and the quotient is the only element that gives the dividend back. */
  lemma DivisionComplete<F(!new)>(K: Ring<F>, m: seq<F>, a: AlgebraicElement<F>, b: AlgebraicElement<F>,
                                  i: AlgebraicElement<F>)
    requires IsField(K) && IsMinPoly(K, m) && IsElement(K, m, a) && IsElement(K, m, b) && IsElement(K, m, i)
    requires Times(K, b, i) == Rung(K, m).one
    ensures DividedBy(K, a, b).Some?
    ensures forall q :: IsElement(K, m, q) && Times(K, q, b) == a ==> DividedBy(K, a, b).value == q
  {
    hide PMul, Times, Comax;
    FieldIsDomain(K);
    UnitIsComaximal(K, m, b, i);
    InverseIff(K, m, b);
    DivisionUndone(K, m, a, b);
    RungIsRing(K, m);
    RungClosed(K, m);
    var d := DividedBy(K, a, b).value;
    forall q | IsElement(K, m, q) && Times(K, q, b) == a ensures d == q { CancelUnit(Rung(K, m), q, d, b, i); }
  }

  // q b == d b with b a unit
  lemma CancelUnit<F(!new)>(R: Ring<F>, q: F, d: F, b: F, i: F)
    requires IsRing(R) && R.has(q) && R.has(d) && R.has(b) && R.has(i) && R.mul(b, i) == R.one
    requires R.mul(q, b) == R.mul(d, b)
    ensures q == d
  {
    MulAssoc(R, q, b, i);
    MulAssoc(R, d, b, i);
    MulOne(R, q);
    MulOne(R, d);
    MulComm(R, q, R.one);
    MulComm(R, d, R.one);
  }

  // b i == 1 modulo m
  lemma UnitIsComaximal<F(!new)>(K: Ring<F>, m: seq<F>, b: AlgebraicElement<F>, i: AlgebraicElement<F>)
    requires IsField(K) && IsMinPoly(K, m) && IsElement(K, m, b) && IsElement(K, m, i)
    requires Times(K, b, i) == Rung(K, m).one
    ensures Comax(PolyRing(K), b.value, m)
  {
    hide PMul, PAdd, PNeg, IsField;
    FieldIsDomain(K);
    PolyRingIsRing(K);
    RungClosed(K, m);
    TimesIs(K, m, b, i);
    var (P, p) := (PolyRing(K), PMul(K, b.value, i.value));
    PMulPoly(K, b.value, i.value);
    MakeReduces(K, p, m);
    var (q, r) := (DivMod(K, p, m).value.quo, DivMod(K, p, m).value.rem);
    assert r == [K.one] == P.one;
    assert P.add(P.mul(q, m), r) == p;
    // 1 == i b - q m
    AddComm(P, P.mul(q, m), P.one);
    MulComm(P, b.value, i.value);
    ComaxFromSum(P, i.value, b.value, q, m);
  }

  lemma ComaxFromSum<F(!new)>(P: Ring<F>, s: F, b: F, q: F, m: F)
    requires IsRing(P) && P.has(s) && P.has(b) && P.has(q) && P.has(m)
    requires P.mul(s, b) == P.add(P.one, P.mul(q, m))
    ensures Comax(P, b, m)
  {
    var x := P.mul(q, m);
    MulNeg(P, q, m);
    AddAssoc(P, P.one, x, P.neg(x));
    AddNeg(P, x);
    AddZero(P, P.one);
    ComaxIntro(P, s, b, P.neg(q), m);
  }

  lemma ZeroIsNotComaximal<F(!new)>(K: Ring<F>, m: seq<F>)
    requires IsField(K) && IsPoly(K, m) && |m| >= 2
    ensures !Comax(PolyRing(K), [], m)
  {
    hide PMul, PAdd;
    PolyRingIsRing(K);
    FieldIsDomain(K);
    var P := PolyRing(K);
    ConsPoly(K, K.one, []);
    if Comax(P, [], m) {
      MulOne(P, m);
      DividesZero(P, m);
      ComaxSym(P, [], m);
      MulZero(P, P.one);
      ComaxDivides(P, m, [], P.one);
      DivisorLen(K, m, P.one);
    }
  }
}
