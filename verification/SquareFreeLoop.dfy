/** Square-free decomposition of an integer polynomial, and the integer gcd it runs on. */
module SquareFreeLoop {
  import opened Rings
  import opened Polys
  import opened Vectors
  import opened Division
  import opened Comaximal
  import opened Factors
  import opened Numbers
  import opened Powers
  import opened IntPolys
  import opened Embedding
  import opened SquareFreeTheory

  ghost function P(): Ring<seq<real>> {
    PolyRing(Rationals())
  }

  // ----- formal derivative -----

  lemma {:induction false} IntegerMultiple(n: nat, a: int)
    ensures Multiple(Integers(), n, a) == n * a
  {
    if n > 0 { IntegerMultiple(n - 1, a); }
  }

  method FormalDerivative(p: IntPoly) returns (d: IntPoly)
    requires IsIntPoly(p)
    ensures d == Derivative(Integers(), p) && IsIntPoly(d)
    ensures forall i: nat :: Coeff(Integers(), d, i) == Coeff(Integers(), p, i + 1) * (i + 1)
  {
    hide Norm;
    IntegersAreDomain();
    DerivativePoly(Integers(), p);
    if |p| <= 1 {
      assert |p| == 1 ==> p[1..] == [];
      return [];
    }
    d := Zeros(Integers(), |p| - 1);
    for degree := 1 to |p|
      invariant |d| == |p| - 1
      invariant forall k :: 0 <= k < |d| ==> d[k] == if k + 1 < degree then p[k + 1] * (k + 1) else 0
    {
      d := d[degree - 1 := p[degree] * degree];
    }
    DerivativeEntries(p, d);
    d := StripTrailing(Integers(), d);
  }

  lemma DerivativeEntries(p: IntPoly, d: seq<int>)
    requires IsIntPoly(p) && |d| == |p| - 1 && forall k :: 0 <= k < |d| ==> d[k] == p[k + 1] * (k + 1)
    ensures AllIn(Integers(), d) && Norm(Integers(), d) == Derivative(Integers(), p)
  {
    hide Derivative, Norm, IsRing, IsDomain;
    IntegersAreDomain();
    DerivativePoly(Integers(), p);
    forall i: nat ensures Coeff(Integers(), d, i) == Coeff(Integers(), Derivative(Integers(), p), i) {
      DerivativeEntry(p, i);
    }
    NormOf(Integers(), d, Derivative(Integers(), p));
  }

  lemma DerivativeEntry(p: IntPoly, i: nat)
    requires IsIntPoly(p)
    ensures Coeff(Integers(), Derivative(Integers(), p), i) == if i + 1 < |p| then p[i + 1] * (i + 1) else 0
  {
    hide Derivative, Multiple, IsIntPoly, IsRing;
    IntegersAreDomain();
    IntPolyIs(p);
    MultipleOfCoeff(Integers(), p, i);
    IntegerMultiple(i + 1, Coeff(Integers(), p, i + 1));
    if i + 1 < |p| { SwapFactors(p[i + 1], i + 1); }
  }

  lemma IntPolyIs(p: IntPoly)
    ensures IsIntPoly(p) <==> IsPoly(Integers(), p)
  {}

  lemma SwapFactors(a: int, b: int)
    ensures a * b == b * a
  {}

  // ----- pseudo-remainder -----

  lemma ScaleShort(c: int, r: IntPoly)
    requires IsIntPoly(r)
    ensures |ScaleBy(c, r)| <= |r|
  {
    IntegersAreDomain();
    ScalePoly(Integers(), c, r);
  }

  /** The pseudo-remainder: the remainder of lc(g)^(deg f - deg g + 1) f by g. */
  method PseudoRemainder(f: IntPoly, g: IntPoly) returns (r: IntPoly, ghost l: int, ghost quo: IntPoly)
    requires IsIntPoly(f) && IsIntPoly(g)
    ensures g == [] ==> r == []
    ensures g != [] ==> PseudoState(f, g, l, quo, r) && |r| < |g|
    ensures g != [] ==> l == if |f| < |g| then 1 else IPow(g[|g| - 1], |f| - |g| + 1)
  {
    hide Times, ScaleBy, PAdd, StepQuotient, StepRemainder;
    l, quo := 1, [];
    PseudoStart(f, g);
    if g == [] { return [], l, quo; }
    if |f| < |g| { return f, l, quo; }
    var delta := |f| - |g|;
    var lead := g[|g| - 1];
    r := f;
    var steps: nat := 0;
    while |r| >= |g|
      invariant PseudoState(f, g, l, quo, r) && l == IPow(lead, steps)
      invariant |r| + steps <= |f| && steps <= delta + 1
      decreases |r|
    {
      PseudoStep(f, g, l, quo, r);
      l, quo, r := lead * l, StepQuotient(g, quo, r), StepRemainder(g, r);
      steps := steps + 1;
    }
    if steps <= delta {
      var c := IPow(lead, delta + 1 - steps);
      IPowNonZero(lead, delta + 1 - steps);
      ScaledState(f, g, l, quo, r, c);
      IPowAdd(lead, delta + 1 - steps, steps);
      ScaleShort(c, r);
      l, quo, r := c * l, ScaleBy(c, quo), ScaleBy(c, r);
    }
  }

  // ----- gcd over the rationals -----

  /** Whatever divides x and y divides A and B. */
  ghost predicate CommonDivisors<F(!new)>(R: Ring<F>, x: F, y: F, A: F, B: F) {
    forall d {:trigger Divides(R, d, x)} {:trigger Divides(R, d, y)} ::
      R.has(d) && Divides(R, d, x) && Divides(R, d, y) ==> Divides(R, d, A) && Divides(R, d, B)
  }

  lemma IdealSimilar<F(!new)>(K: Ring<F>, a: seq<F>, b: seq<F>, x: seq<F>, y: seq<F>)
    requires IsField(K) && IsPoly(K, a) && IsPoly(K, b) && IsPoly(K, x) && IsPoly(K, y)
    requires InIdeal(PolyRing(K), a, b, x) && Similar(K, x, y)
    ensures InIdeal(PolyRing(K), a, b, y)
  {
    PolyRingIsRing(K);
    SimilarDivides(K, x, y);
    var q :| IsPoly(K, q) && PMul(K, q, x) == y;
    IdealTimes(PolyRing(K), a, b, q, x);
  }

  /** One round of the remainder sequence, seen over a field: h ~ x, h == q y + r, r ~ r'. */
  lemma GcdRound<F(!new)>(K: Ring<F>, A: seq<F>, B: seq<F>, x: seq<F>, y: seq<F>, h: seq<F>, q: seq<F>,
                          r: seq<F>, r': seq<F>)
    requires IsField(K) && IsPoly(K, A) && IsPoly(K, B) && IsPoly(K, x) && IsPoly(K, y)
    requires IsPoly(K, h) && IsPoly(K, q) && IsPoly(K, r) && IsPoly(K, r')
    requires Similar(K, h, x) && PAdd(K, PMul(K, q, y), r) == h && Similar(K, r, r')
    requires InIdeal(PolyRing(K), A, B, x) && InIdeal(PolyRing(K), A, B, y)
    requires CommonDivisors(PolyRing(K), x, y, A, B)
    ensures InIdeal(PolyRing(K), A, B, r') && CommonDivisors(PolyRing(K), y, r', A, B)
  {
    hide PMul, PAdd, Similar, InIdeal, Divides, Scale;
    PolyRingIsRing(K);
    var R := PolyRing(K);
    SimilarSym(K, h, x);
    IdealSimilar(K, A, B, x, h);
    IdealStep(R, A, B, h, q, y);
    SubOfSum(R, R.mul(q, y), r, h);
    IdealSimilar(K, A, B, r, r');
    SimilarDivides(K, h, x);
    SimilarDivides(K, r, r');
    forall d | R.has(d) && Divides(R, d, y) && Divides(R, d, r') ensures Divides(R, d, A) && Divides(R, d, B) {
      DividesTrans(R, d, r', r);
      DividesMul(R, d, y, q);
      DividesAdd(R, d, R.mul(q, y), r);
      DividesTrans(R, d, h, x);
    }
  }

  /** g is a greatest common divisor of a and b over the rationals: a common divisor and a combination. */
  ghost predicate GcdOverQ(a: IntPoly, b: IntPoly, g: IntPoly) {
    && IsIntPoly(g)
    && Divides(P(), Rat(g), Rat(a)) && Divides(P(), Rat(g), Rat(b))
    && InIdeal(P(), Rat(a), Rat(b), Rat(g))
  }

  lemma PrimitiveSimilar(p: IntPoly, r: IntPoly, c: int)
    requires IsIntPoly(p) && IsIntPoly(r) && c != 0 && ScaleBy(c, r) == p
    ensures Similar(Rationals(), Rat(p), Rat(r)) && Similar(Rationals(), Rat(r), Rat(p))
  {
    RationalsAreField();
    ScaledSimilar(r, c, p);
    SimilarSym(Rationals(), Rat(p), Rat(r));
  }

  /** What the remainder sequence keeps. */
  ghost predicate Sequence(a: IntPoly, b: IntPoly, x: IntPoly, y: IntPoly) {
    && IsIntPoly(x) && IsIntPoly(y)
    && InIdeal(P(), Rat(a), Rat(b), Rat(x)) && InIdeal(P(), Rat(a), Rat(b), Rat(y))
    && CommonDivisors(P(), Rat(x), Rat(y), Rat(a), Rat(b))
  }

  lemma StartSequence<F(!new)>(K: Ring<F>, A: seq<F>, B: seq<F>, x: seq<F>, y: seq<F>)
    requires IsField(K) && IsPoly(K, A) && IsPoly(K, B) && IsPoly(K, x) && IsPoly(K, y)
    requires Similar(K, A, x) && Similar(K, B, y)
    ensures InIdeal(PolyRing(K), A, B, x) && InIdeal(PolyRing(K), A, B, y)
    ensures CommonDivisors(PolyRing(K), x, y, A, B)
  {
    hide Similar, InIdeal, Divides;
    PolyRingIsRing(K);
    var R := PolyRing(K);
    IdealGenerators(R, A, B);
    IdealSimilar(K, A, B, A, x);
    IdealSimilar(K, A, B, B, y);
    SimilarDivides(K, A, x);
    SimilarDivides(K, B, y);
    forall e | R.has(e) && Divides(R, e, x) && Divides(R, e, y) ensures Divides(R, e, A) && Divides(R, e, B) {
      DividesTrans(R, e, x, A);
      DividesTrans(R, e, y, B);
    }
  }

  lemma SequenceStarts(a: IntPoly, b: IntPoly, x: IntPoly, y: IntPoly, c: int, d: int)
    requires IsIntPoly(a) && IsIntPoly(b) && IsIntPoly(x) && IsIntPoly(y)
    requires c != 0 && d != 0 && ScaleBy(c, x) == a && ScaleBy(d, y) == b
    ensures Sequence(a, b, x, y)
  {
    RationalsAreField();
    PrimitiveSimilar(a, x, c);
    PrimitiveSimilar(b, y, d);
    RatPoly(a); RatPoly(b); RatPoly(x); RatPoly(y);
    StartSequence(Rationals(), Rat(a), Rat(b), Rat(x), Rat(y));
  }

  lemma SequenceStep(a: IntPoly, b: IntPoly, x: IntPoly, y: IntPoly, l: int, quo: IntPoly, rem: IntPoly,
                     r: IntPoly, c: int)
    requires IsIntPoly(a) && IsIntPoly(b) && Sequence(a, b, x, y) && PseudoState(x, y, l, quo, rem)
    requires IsIntPoly(r) && c != 0 && ScaleBy(c, r) == rem
    ensures Sequence(a, b, y, r)
  {
    RationalsAreField();
    var h := ScaleBy(l, x);
    RatState(x, y, l, quo, rem);
    ScaledSimilar(x, l, h);
    PrimitiveSimilar(rem, r, c);
    RatPoly(a); RatPoly(b); RatPoly(x); RatPoly(y); RatPoly(h); RatPoly(quo); RatPoly(rem); RatPoly(r);
    GcdRound(Rationals(), Rat(a), Rat(b), Rat(x), Rat(y), Rat(h), Rat(quo), Rat(rem), Rat(r));
  }

  lemma SequenceEnds(a: IntPoly, b: IntPoly, x: IntPoly)
    requires IsIntPoly(a) && IsIntPoly(b) && Sequence(a, b, x, [])
    ensures GcdOverQ(a, b, x)
  {
    RationalsAreField();
    PolyRingIsRing(Rationals());
    RatPoly(x);
    DividesSelf(P(), Rat(x));
    DividesZero(P(), Rat(x));
    assert Rat([]) == [];
  }

  lemma SequenceSwap(a: IntPoly, b: IntPoly, x: IntPoly, y: IntPoly)
    requires Sequence(a, b, x, y)
    ensures Sequence(a, b, y, x)
  {}

  /** The gcd by a primitive polynomial remainder sequence. */
  method GcdPrimitive(a: IntPoly, b: IntPoly) returns (g: IntPoly)
    requires IsIntPoly(a) && IsIntPoly(b)
    ensures GcdOverQ(a, b, g)
    ensures a != [] || b != [] ==> Primitive(g) && g[|g| - 1] > 0
  {
    hide Sequence, GcdOverQ;
    ghost var c, d;
    var lhs, rhs;
    lhs, c := PrimitivePart(a);
    rhs, d := PrimitivePart(b);
    SequenceStarts(a, b, lhs, rhs, c, d);
    if lhs == [] {
      SequenceSwap(a, b, lhs, rhs);
      SequenceEnds(a, b, rhs);
      return rhs;
    }
    if rhs == [] {
      SequenceEnds(a, b, lhs);
      return lhs;
    }
    while rhs != []
      invariant Sequence(a, b, lhs, rhs) && IsIntPoly(lhs) && IsIntPoly(rhs) && lhs != []
      decreases |rhs|
    {
      ghost var l, quo, e;
      var rem, r;
      rem, l, quo := PseudoRemainder(lhs, rhs);
      r, e := PrimitivePart(rem);
      SequenceStep(a, b, lhs, rhs, l, quo, rem, r, e);
      lhs, rhs := rhs, r;
    }
    g, c := PrimitivePart(lhs);
    GcdSimilar(a, b, lhs, g, c);
  }

  lemma GcdSimilar(a: IntPoly, b: IntPoly, x: IntPoly, g: IntPoly, c: int)
    requires IsIntPoly(a) && IsIntPoly(b) && Sequence(a, b, x, []) && IsIntPoly(g) && c != 0 && ScaleBy(c, g) == x
    ensures GcdOverQ(a, b, g)
  {
    SequenceEnds(a, b, x);
    RationalsAreField();
    PolyRingIsRing(Rationals());
    PrimitiveSimilar(x, g, c);
    RatPoly(a); RatPoly(b); RatPoly(x); RatPoly(g);
    IdealSimilar(Rationals(), Rat(a), Rat(b), Rat(x), Rat(g));
    SimilarDivides(Rationals(), Rat(x), Rat(g));
    DividesTrans(P(), Rat(g), Rat(x), Rat(a));
    DividesTrans(P(), Rat(g), Rat(x), Rat(b));
  }

  // ----- exact division up to constants -----

  lemma {:induction false} PseudoDivisionExists(f: IntPoly, g: IntPoly, l: int, quo: IntPoly, rem: IntPoly)
    returns (l': int, quo': IntPoly, rem': IntPoly)
    requires IsIntPoly(f) && IsIntPoly(g) && g != [] && PseudoState(f, g, l, quo, rem)
    ensures PseudoState(f, g, l', quo', rem') && |rem'| < |g|
    decreases |rem|
  {
    if |rem| < |g| {
      l', quo', rem' := l, quo, rem;
    } else {
      PseudoStep(f, g, l, quo, rem);
      l', quo', rem' := PseudoDivisionExists(f, g, g[|g| - 1] * l, StepQuotient(g, quo, rem), StepRemainder(g, rem));
    }
  }

  /** Divisibility over the rationals is witnessed by integers. */
  lemma OverQBackward(f: IntPoly, g: IntPoly)
    requires IsIntPoly(f) && IsIntPoly(g) && g != [] && Divides(P(), Rat(g), Rat(f))
    ensures DividesOverQ(f, g)
  {
    PseudoStart(f, g);
    var l, quo, rem := PseudoDivisionExists(f, g, 1, [], f);
    RatRemainderVanishes(f, g, l, quo, rem);
    IntegersAreDomain();
    PolyRingIsRing(Integers());
    TimesPoly(quo, g);
    AddZero(PolyRing(Integers()), Times(quo, g));
    DividesOverQIntro(f, g, l, quo);
  }

  /** The integer form of divisibility over Q, and divisibility in Q[x]. */
  lemma OverQIff(f: IntPoly, g: IntPoly)
    requires IsIntPoly(f) && IsIntPoly(g) && g != []
    ensures DividesOverQ(f, g) <==> Divides(P(), Rat(g), Rat(f))
  {
    if DividesOverQ(f, g) { OverQForward(f, g); }
    if Divides(P(), Rat(g), Rat(f)) { OverQBackward(f, g); }
  }

  /** The primitive cofactor of an exact divisor. */
  method DivideUpToConstant(f: IntPoly, g: IntPoly) returns (h: IntPoly)
    requires IsIntPoly(f) && IsIntPoly(g) && f != [] && g != [] && Divides(P(), Rat(g), Rat(f))
    ensures IsIntPoly(h) && h != [] && Primitive(h) && h[|h| - 1] > 0
    ensures Similar(Rationals(), Rat(f), PMul(Rationals(), Rat(h), Rat(g)))
    ensures |f| == |h| + |g| - 1
  {
    OverQBackward(f, g);
    ghost var l, c;
    var r;
    r, l := ExactDivide(f, g);
    h, c := PrimitivePart(r.value);
    CofactorSimilar(f, g, l, r.value, h, c);
  }

  lemma CofactorSimilar(f: IntPoly, g: IntPoly, l: int, q: IntPoly, h: IntPoly, c: int)
    requires IsIntPoly(f) && IsIntPoly(g) && f != [] && g != [] && ClearedQuotient(f, g, l, q)
    requires IsIntPoly(h) && |h| == |q| && c != 0 && ScaleBy(c, h) == q
    ensures q != []
    ensures Similar(Rationals(), Rat(f), PMul(Rationals(), Rat(h), Rat(g)))
    ensures |f| == |h| + |g| - 1
  {
    IntegersAreDomain();
    ScaleLen(Integers(), l, f);
    PMulPoly(Integers(), q, g);
    PMulLen(Integers(), q, g);
    RationalsAreField();
    RatMul(q, g);
    TimesPoly(q, g);
    ScaledSimilar(f, l, Times(q, g));
    PrimitiveSimilar(q, h, c);
    RatPoly(f); RatPoly(g); RatPoly(q); RatPoly(h); RatPoly(Times(q, g));
    PMulPoly(Rationals(), Rat(h), Rat(g));
    SimilarSym(Rationals(), Rat(Times(q, g)), Rat(f));
    SimilarRefl(Rationals(), Rat(g));
    SimilarMul(Rationals(), Rat(q), Rat(h), Rat(g), Rat(g));
    SimilarTrans(Rationals(), Rat(f), Rat(Times(q, g)), PMul(Rationals(), Rat(h), Rat(g)));
  }

  // ----- the decomposition -----

  datatype Part = Part(factor: IntPoly, multiplicity: nat)

  function FactorsOf(parts: seq<Part>): (r: seq<IntPoly>)
    ensures |r| == |parts| && forall k :: 0 <= k < |parts| ==> r[k] == parts[k].factor
  {
    seq(|parts|, k requires 0 <= k < |parts| => parts[k].factor)
  }

  function Multiplicities(parts: seq<Part>): (r: seq<nat>)
    ensures |r| == |parts| && forall k :: 0 <= k < |parts| ==> r[k] == parts[k].multiplicity
  {
    seq(|parts|, k requires 0 <= k < |parts| => parts[k].multiplicity)
  }

  function RatAll(ps: seq<IntPoly>): (r: seq<seq<real>>)
    ensures |r| == |ps| && forall k :: 0 <= k < |ps| ==> r[k] == Rat(ps[k])
  {
    seq(|ps|, k requires 0 <= k < |ps| => Rat(ps[k]))
  }

  /** prod factor^multiplicity, over the integers. */
  ghost function Recombined(parts: seq<Part>): IntPoly {
    ProdPow(PolyRing(Integers()), FactorsOf(parts), Multiplicities(parts))
  }

  lemma ConstantOne()
    ensures IsIntPoly(PolyRing(Integers()).one) && Rat(PolyRing(Integers()).one) == P().one
  {
    assert PolyRing(Integers()).one == [1] && P().one == [1.0];
  }

  lemma {:induction false} RatPower(p: IntPoly, n: nat)
    requires IsIntPoly(p)
    ensures IsIntPoly(Power(PolyRing(Integers()), p, n))
    ensures Rat(Power(PolyRing(Integers()), p, n)) == Power(P(), Rat(p), n)
  {
    hide PMul, Cons, Rat;
    var Z := PolyRing(Integers());
    if n == 0 {
      ConstantOne();
    } else {
      RatPower(p, n - 1);
      TimesPoly(p, Power(Z, p, n - 1));
      RatMul(p, Power(Z, p, n - 1));
      assert Power(Z, p, n) == Times(p, Power(Z, p, n - 1));
      assert Power(P(), Rat(p), n) == PMul(Rationals(), Rat(p), Power(P(), Rat(p), n - 1));
    }
  }

  lemma {:induction false} RatProdPow(ps: seq<IntPoly>, ms: seq<nat>)
    requires |ps| == |ms| && forall k :: 0 <= k < |ps| ==> IsIntPoly(ps[k])
    ensures IsIntPoly(ProdPow(PolyRing(Integers()), ps, ms))
    ensures Rat(ProdPow(PolyRing(Integers()), ps, ms)) == ProdPow(P(), RatAll(ps), ms)
  {
    hide PMul, PAdd, Power;
    var Z := PolyRing(Integers());
    IntegersAreDomain();
    if ps == [] {
    } else {
      var (qs, ns) := (ps[..|ps| - 1], ms[..|ps| - 1]);
      var (p, m) := (ps[|ps| - 1], ms[|ps| - 1]);
      RatProdPow(qs, ns);
      RatPower(p, m);
      TimesPoly(ProdPow(Z, qs, ns), Power(Z, p, m));
      RatMul(ProdPow(Z, qs, ns), Power(Z, p, m));
      assert RatAll(ps)[..|ps| - 1] == RatAll(qs);
    }
  }

  /** Primitive, with positive leading coefficient. */
  ghost predicate Canonical(p: IntPoly) {
    IsIntPoly(p) && Primitive(p) && p[|p| - 1] > 0
  }

  lemma CanonicalTimes(p: IntPoly, q: IntPoly)
    requires Canonical(p) && Canonical(q)
    ensures Canonical(Times(p, q))
  {
    assert p != [] && q != [];
    TimesPoly(p, q);
    GaussProduct(p, q);
    LeadPositive(p, q);
  }

  lemma LeadPositive(p: IntPoly, q: IntPoly)
    requires IsIntPoly(p) && IsIntPoly(q) && p != [] && q != [] && p[|p| - 1] > 0 && q[|q| - 1] > 0
    ensures var r := Times(p, q); r != [] && r[|r| - 1] > 0
  {
    IntegersAreDomain();
    ProductOfPositives(p[|p| - 1], q[|q| - 1]);
    PMulTop(Integers(), p, q);
  }

  lemma ProductOfPositives(a: int, b: int)
    requires a > 0 && b > 0
    ensures a * b > 0
  {}

  lemma CanonicalOne()
    ensures Canonical([1])
  {
    var one := [1];
    forall d | d > 1 && AllDiv(d, one) ensures false {
      assert Div(d, one[0]);
      DivBound(d, 1);
    }
  }

  lemma {:induction false} CanonicalPower(p: IntPoly, n: nat)
    requires Canonical(p)
    ensures Canonical(Power(PolyRing(Integers()), p, n))
  {
    if n == 0 {
      CanonicalOne();
    } else {
      CanonicalPower(p, n - 1);
      CanonicalTimes(p, Power(PolyRing(Integers()), p, n - 1));
    }
  }

  lemma {:induction false} CanonicalProdPow(ps: seq<IntPoly>, ms: seq<nat>)
    requires |ps| == |ms| && forall k :: 0 <= k < |ps| ==> Canonical(ps[k])
    ensures Canonical(ProdPow(PolyRing(Integers()), ps, ms))
  {
    if ps == [] {
      CanonicalOne();
    } else {
      CanonicalProdPow(ps[..|ps| - 1], ms[..|ps| - 1]);
      CanonicalPower(ps[|ps| - 1], ms[|ps| - 1]);
      CanonicalTimes(ProdPow(PolyRing(Integers()), ps[..|ps| - 1], ms[..|ps| - 1]),
                     Power(PolyRing(Integers()), ps[|ps| - 1], ms[|ps| - 1]));
    }
  }

  // the leading coefficients scale similar integer polynomials to each other
  lemma SimilarLeads(f: IntPoly, p: IntPoly)
    requires IsIntPoly(f) && IsIntPoly(p) && p != [] && Similar(Rationals(), Rat(f), Rat(p))
    ensures |f| == |p| && ScaleBy(p[|p| - 1], f) == ScaleBy(f[|f| - 1], p)
  {
    RationalsAreField();
    var Q := Rationals();
    RatPoly(f);
    RatPoly(p);
    var c :| c != 0.0 && Rat(f) == Scale(Q, c, Rat(p));
    ScaleLen(Q, c, Rat(p));
    var (a, b) := (f[|f| - 1], p[|p| - 1]);
    assert Q.mul(c, b as real) == a as real;
    MulComm(Q, c, b as real);
    ScaleScale(Q, b as real, c, Rat(p));
    RatScale(b, f);
    RatScale(a, p);
    assert Rat(ScaleBy(b, f)) == Scale(Q, a as real, Rat(p));
    RatInjective(ScaleBy(b, f), ScaleBy(a, p));
  }

  lemma DivScaled(d: int, g: int, x: int, a: int)
    requires a == (x * d) * g
    ensures Div(d * g, a)
  {
    assert (x * d) * g == x * (d * g);
    DivIntro(d * g, x, a);
  }

  // dividing by the gcd leaves coprime numbers
  lemma GcdRemoved(a: nat, b: nat, a': int, b': int, d: int)
    requires Gcd(a, b) > 0 && a == a' * Gcd(a, b) && b == b' * Gcd(a, b) && d > 1
    ensures !(Div(d, a') && Div(d, b'))
  {
    var g := Gcd(a, b);
    if Div(d, a') && Div(d, b') {
      var x := DivQuotient(d, a');
      var y := DivQuotient(d, b');
      DivScaled(d, g, x, a);
      DivScaled(d, g, y, b);
      GcdUniversal(a, b, d * g);
      DivBound(d * g, g);
      ProductGrows(d - 1, g);
    }
  }

  // a and b over their gcd, with the sign of a kept
  lemma LowestTerms(a: int, b: int) returns (g: int, a': int, b': int)
    requires a != 0 && b > 0
    ensures g > 0 && a == g * a' && b == g * b' && b' > 0 && a' != 0
    ensures Reduced(b', [a'])
  {
    g := Gcd(Abs(a), b);
    var s, t := GcdBezout(Abs(a), b);
    var x := DivQuotient(g, Abs(a));
    b' := DivQuotient(g, b);
    a' := if a < 0 then -x else x;
    assert a == g * a' by { assert (-x) * g == -(x * g); }
    if b' <= 0 { ProductSign(b', g); }
    forall d | d > 1 && Div(d, b') && AllDiv(d, [a']) ensures false {
      assert Div(d, [a'][0]);
      DivNeg(d, x);
      GcdRemoved(Abs(a), b, x, b', d);
    }
  }

  // b f == a p with p primitive makes a / b an integer
  lemma PrimitiveMultiple(f: IntPoly, p: IntPoly, a: int, b: int) returns (c: int)
    requires IsIntPoly(f) && IsIntPoly(p) && Primitive(p) && a != 0 && b > 0 && ScaleBy(b, f) == ScaleBy(a, p)
    ensures f == ScaleBy(c, p) && a == c * b
  {
    var g, a', b' := LowestTerms(a, b);
    ScaleDown(f, p, g, a', b');
    ConstantTimes(a', p);
    GaussExact(f, p, b', [a']);
    c := a';
  }

  lemma ScaleDown(f: IntPoly, p: IntPoly, g: int, a: int, b: int)
    requires IsIntPoly(f) && IsIntPoly(p) && g != 0 && ScaleBy(g * b, f) == ScaleBy(g * a, p)
    ensures ScaleBy(b, f) == ScaleBy(a, p)
  {
    IntegersAreDomain();
    ScaleScale(Integers(), g, b, f);
    ScaleScale(Integers(), g, a, p);
    ScalePoly(Integers(), b, f);
    ScalePoly(Integers(), a, p);
    ScaleInjective(g, ScaleBy(b, f), ScaleBy(a, p));
  }

  lemma ConstantTimes(a: int, p: IntPoly)
    requires IsIntPoly(p) && a != 0
    ensures IsIntPoly([a]) && Times([a], p) == ScaleBy(a, p)
  {
    IntegersAreDomain();
    ConstMul(Integers(), a, p);
    assert Const(Integers(), a) == [a];
  }

  lemma ProductSign(x: int, g: int)
    requires x <= 0 && g >= 0
    ensures x * g <= 0
  {}

  /** Primitive parts with strictly increasing multiplicities below i. */
  ghost predicate Listed(parts: seq<Part>, i: nat) {
    && (forall k :: 0 <= k < |parts| ==> Canonical(parts[k].factor) && 1 <= parts[k].multiplicity < i)
    && (forall k, l :: 0 <= k < l < |parts| ==> parts[k].multiplicity < parts[l].multiplicity)
  }

  lemma ListedStep(parts: seq<Part>, i: nat, z: IntPoly)
    requires Listed(parts, i) && i >= 1 && Canonical(z)
    ensures Listed(parts, i + 1) && Listed(parts + [Part(z, i)], i + 1)
  {
    hide Canonical;
  }

  /** What the loop keeps, on integer data. */
  ghost predicate Running(f: IntPoly, parts: seq<Part>, w: IntPoly, g: IntPoly, i: nat) {
    && IsIntPoly(w) && w != [] && IsIntPoly(g) && g != []
    && Listed(parts, i)
    && Decomposing(Rationals(), Rat(f), RatAll(FactorsOf(parts)), Multiplicities(parts), Rat(w), Rat(g), i)
  }

  lemma RunningStarts(f: IntPoly, d: IntPoly, g: IntPoly, w: IntPoly)
    requires IsIntPoly(f) && |f| >= 2 && d == Derivative(Integers(), f) && GcdOverQ(f, d, g)
    requires IsIntPoly(w) && w != [] && g != [] && Similar(Rationals(), Rat(f), PMul(Rationals(), Rat(w), Rat(g)))
    ensures Running(f, [], w, g, 1)
  {
    RatDerivative(f);
    RatPoly(f); RatPoly(w); RatPoly(g);
    NothingListed();
    RationalsAreField();
    RationalsChar0();
    StartOverField(Rationals(), Rat(f), Rat(g), Rat(w));
  }

  lemma NothingListed()
    ensures RatAll(FactorsOf([])) == [] && Multiplicities([]) == [] && Listed([], 1)
  {}

  lemma StartOverField<F(!new)>(K: Ring<F>, f: seq<F>, g: seq<F>, w: seq<F>)
    requires IsField(K) && Char0(K) && IsPoly(K, f) && IsPoly(K, g) && IsPoly(K, w) && f != [] && g != [] && w != []
    requires Divides(PolyRing(K), g, f) && Divides(PolyRing(K), g, Derivative(K, f))
    requires InIdeal(PolyRing(K), f, Derivative(K, f), g) && Similar(K, f, PMul(K, w, g))
    ensures Decomposing(K, f, [], [], w, g, 1)
  {
    hide PMul, Similar, InIdeal, SquareFree, Derivative, Char0, RadicalIn, ProdPow, Power;
    var v :| IsPoly(K, v) && PMul(K, v, g) == f;
    StartCofactor(K, f, g, w, v);
    PolyRingIsRing(K);
    OneTriple(PolyRing(K), w, g);
  }

  lemma StartCofactor<F(!new)>(K: Ring<F>, f: seq<F>, g: seq<F>, w: seq<F>, v: seq<F>)
    requires IsField(K) && Char0(K) && IsPoly(K, f) && IsPoly(K, g) && IsPoly(K, w) && f != [] && g != []
    requires Divides(PolyRing(K), g, Derivative(K, f)) && InIdeal(PolyRing(K), f, Derivative(K, f), g)
    requires Similar(K, f, PMul(K, w, g)) && IsPoly(K, v) && PMul(K, v, g) == f
    ensures SquareFree(K, w) && RadicalIn(K, g, w)
  {
    hide IsField, PMul, PAdd, Scale, Similar, Divides, InIdeal, SquareFree, Derivative, Char0, RadicalIn;
    DerivativeCofactor(K, f, g, v);
    // v ~ w, as v g ~ w g
    CancelSimilar(K, v, w, g);
    SimilarSquareFree(K, v, w);
    SimilarRadical(K, g, v, w);
  }

  lemma SimilarRadical<F(!new)>(K: Ring<F>, g: seq<F>, v: seq<F>, w: seq<F>)
    requires IsField(K) && IsPoly(K, g) && IsPoly(K, v) && IsPoly(K, w) && Similar(K, v, w) && RadicalIn(K, g, v)
    ensures RadicalIn(K, g, w)
  {
    PolyRingIsRing(K);
    SimilarDivides(K, v, w);
    forall p | IrreduciblePoly(K, p) && Divides(PolyRing(K), p, g) ensures Divides(PolyRing(K), p, w) {
      DividesTrans(PolyRing(K), p, v, w);
    }
  }

  lemma OneTriple<F(!new)>(R: Ring<F>, w: F, g: F)
    requires IsRing(R) && R.has(w) && R.has(g)
    ensures Triple(R, ProdPow(R, [], []), w, 1, g) == R.mul(w, g)
  {
    MulOne(R, w);
    assert Power(R, w, 1) == w;
  }

  lemma CancelSimilar<F(!new)>(K: Ring<F>, v: seq<F>, w: seq<F>, g: seq<F>)
    requires IsField(K) && IsPoly(K, v) && IsPoly(K, w) && IsPoly(K, g) && g != []
    requires Similar(K, PMul(K, v, g), PMul(K, w, g))
    ensures Similar(K, v, w)
  {
    FieldIsDomain(K);
    PolyRingIsDomain(K);
    var R := PolyRing(K);
    var c :| K.has(c) && c != K.zero && PMul(K, v, g) == Scale(K, c, PMul(K, w, g));
    ScaleMul(K, c, w, g);
    ScalePoly(K, c, w);
    MulComm(R, v, g);
    MulComm(R, Scale(K, c, w), g);
    CancelLeft(R, g, v, Scale(K, c, w));
    SimilarIntro(K, c, v, w);
  }

  lemma PartsGrow(parts: seq<Part>, z: IntPoly, i: nat)
    ensures RatAll(FactorsOf(parts + [Part(z, i)])) == RatAll(FactorsOf(parts)) + [Rat(z)]
    ensures Multiplicities(parts + [Part(z, i)]) == Multiplicities(parts) + [i]
  {}

  lemma RoundSplits(w: IntPoly, g: IntPoly, y: IntPoly, z: IntPoly, w': IntPoly, g': IntPoly)
    requires GcdOverQ(w, g, y)
    requires IsIntPoly(z) && z != [] && IsIntPoly(w') && w' != [] && IsIntPoly(g') && g' != []
    requires Similar(Rationals(), Rat(w), PMul(Rationals(), Rat(z), Rat(y)))
    requires Similar(Rationals(), Rat(g), PMul(Rationals(), Rat(g'), Rat(y)))
    requires Similar(Rationals(), Rat(w'), Rat(y))
    ensures Splits(Rationals(), Rat(w), Rat(g), Rat(y), Rat(z), Rat(w'), Rat(g'))
  {
    RatPoly(y); RatPoly(z); RatPoly(w'); RatPoly(g');
  }

  lemma RunningStep(f: IntPoly, parts: seq<Part>, w: IntPoly, g: IntPoly, i: nat,
      y: IntPoly, z: IntPoly, w': IntPoly, g': IntPoly, parts': seq<Part>)
    requires IsIntPoly(f) && Running(f, parts, w, g, i) && i >= 1
    requires Canonical(z) && IsIntPoly(w') && w' != [] && IsIntPoly(g') && g' != []
    requires Splits(Rationals(), Rat(w), Rat(g), Rat(y), Rat(z), Rat(w'), Rat(g'))
    requires parts' == if |z| == 1 then parts else parts + [Part(z, i)]
    ensures Running(f, parts', w', g', i + 1)
  {
    RatPoly(z);
    ListedStep(parts, i, z);
    PartsGrow(parts, z, i);
    RationalsAreField();
    DecomposeStep(Rationals(), Rat(f), RatAll(FactorsOf(parts)), Multiplicities(parts), Rat(w), Rat(g), i,
                  Rat(y), Rat(z), Rat(w'), Rat(g'));
  }

  /** What the decomposition is. */
  ghost predicate IsSquareFreeDecomposition(f: IntPoly, c: int, parts: seq<Part>) {
    && c != 0 && f == ScaleBy(c, Recombined(parts))
    && (forall k :: 0 <= k < |parts| ==> Canonical(parts[k].factor) && parts[k].multiplicity >= 1)
    && (forall k, l :: 0 <= k < l < |parts| ==> parts[k].multiplicity < parts[l].multiplicity)
    && Parts(Rationals(), RatAll(FactorsOf(parts)))
  }

  lemma RunningEnds(f: IntPoly, parts: seq<Part>, w: IntPoly, g: IntPoly, i: nat) returns (c: int)
    requires IsIntPoly(f) && f != [] && Running(f, parts, w, g, i) && |w| == 1
    ensures IsSquareFreeDecomposition(f, c, parts)
    ensures Canonical(f) ==> c == 1
  {
    RationalsAreField();
    RatPoly(w);
    DecomposeEnd(Rationals(), Rat(f), RatAll(FactorsOf(parts)), Multiplicities(parts), Rat(w), Rat(g), i);
    RatProdPow(FactorsOf(parts), Multiplicities(parts));
    CanonicalProdPow(FactorsOf(parts), Multiplicities(parts));
    var p := Recombined(parts);
    SimilarLeads(f, p);
    c := PrimitiveMultiple(f, p, f[|f| - 1], p[|p| - 1]);
    if Canonical(f) { UnitConstant(f, p, c); }
  }

  lemma UnitConstant(f: IntPoly, p: IntPoly, c: int)
    requires Canonical(f) && IsIntPoly(p) && p != [] && p[|p| - 1] > 0
    requires f == ScaleBy(c, p) && f[|f| - 1] == c * p[|p| - 1]
    ensures c == 1
  {
    if c <= 0 { ProductSign(c, p[|p| - 1]); }
    DivSelf(c);
    AllDivScale(c, c, p);
  }

  /** The decomposition: square-free, pairwise comaximal, non-constant primitive parts with strictly
      increasing multiplicities, whose powers multiply to f up to an integer constant -- which is one
      when f is primitive with positive leading coefficient. */
  method SquareFreeFactorize(f: IntPoly) returns (parts: seq<Part>, ghost c: int)
    requires IsIntPoly(f)
    ensures |f| <= 1 ==> parts == []
    ensures |f| >= 2 ==> IsSquareFreeDecomposition(f, c, parts)
    ensures |f| >= 2 && Canonical(f) ==> c == 1
  {
    parts, c := [], 1;
    if |f| <= 1 { return; }
    var derivative := FormalDerivative(f);
    DerivativeNonZero(f);
    assert derivative != [];
    var g := GcdPrimitive(f, derivative);
    var w := DivideUpToConstant(f, g);
    RunningStarts(f, derivative, g, w);
    var multiplicity := 1;
    while |w| != 1
      invariant multiplicity >= 1 && IsIntPoly(w) && w != [] && IsIntPoly(g) && g != []
      invariant Running(f, parts, w, g, multiplicity)
      decreases |w| + |g|
    {
      var y := GcdPrimitive(w, g);
      var z := DivideUpToConstant(w, y);
      ghost var before := parts;
      if |z| != 1 {
        parts := parts + [Part(z, multiplicity)];
      }
      var next := DivideUpToConstant(g, y);
      ghost var e;
      var w';
      w', e := PrimitivePart(y);
      PrimitiveSimilar(y, w', e);
      RoundSplits(w, g, y, z, w', next);
      RunningStep(f, before, w, g, multiplicity, y, z, w', next, parts);
      w, g := w', next;
      multiplicity := multiplicity + 1;
    }
    c := RunningEnds(f, parts, w, g, multiplicity);
  }

  lemma DerivativeNonZero(f: IntPoly)
    requires IsIntPoly(f) && |f| >= 2
    ensures Derivative(Integers(), f) != []
  {
    hide Derivative, Multiple, IsRing, IsDomain;
    IntegersAreDomain();
    MultipleOfCoeff(Integers(), f, |f| - 2);
    IntegerMultiple(|f| - 1, f[|f| - 1]);
    NonZeroProduct(|f| - 1, f[|f| - 1]);
  }
}
