/** Towers of any depth over the rational numbers. */
module TowerDepth {
  import opened Rings
  import opened Polys
  import opened Roots
  import opened Euclid
  import opened Tower

  // ----- the rational numbers, as a part of the reals -----

  ghost predicate IsRatio(x: real, p: int, q: int) {
    q != 0 && x * (q as real) == p as real
  }

  ghost predicate IsRational(x: real) {
    exists p, q :: IsRatio(x, p, q)
  }

  lemma Whole(n: int)
    ensures IsRational(n as real)
  {
    assert IsRatio(n as real, n, 1);
  }

  // x q == p and y s == r: sum, product and inverse over the products of the denominators
  lemma RatioArithmetic(x: real, q: real, p: real, y: real, s: real, r: real)
    requires x * q == p && y * s == r
    ensures (x + y) * (q * s) == p * s + r * q && (x * y) * (q * s) == p * r
  {
    assert (x + y) * (q * s) == (x * q) * s + (y * s) * q;
    assert (x * y) * (q * s) == (x * q) * (y * s);
  }

  lemma IntProduct(p: int, q: int)
    ensures (p * q) as real == (p as real) * (q as real)
    ensures p != 0 && q != 0 ==> p * q != 0
  {}

  lemma RationalClosed(x: real, y: real)
    requires IsRational(x) && IsRational(y)
    ensures IsRational(x + y) && IsRational(x * y)
  {
    var p, q :| IsRatio(x, p, q);
    var r, s :| IsRatio(y, r, s);
    RatioArithmetic(x, q as real, p as real, y, s as real, r as real);
    IntProduct(q, s);
    IntProduct(p, s);
    IntProduct(r, q);
    IntProduct(p, r);
    assert IsRatio(x + y, p * s + r * q, q * s);
    assert IsRatio(x * y, p * r, q * s);
  }

  lemma RationalNegative(x: real)
    requires IsRational(x)
    ensures IsRational(-x)
  {
    var p, q :| IsRatio(x, p, q);
    assert (-x) * (q as real) == -(x * (q as real));
    assert IsRatio(-x, -p, q);
  }

  lemma RationalInverse(x: real)
    requires IsRational(x) && x != 0.0
    ensures IsRational(1.0 / x)
  {
    var p, q :| IsRatio(x, p, q);
    var t := q as real;
    assert t != 0.0;
    NonZeroReals(x, t);
    assert p != 0;
    InverseRatio(x, t, p as real);
    assert IsRatio(1.0 / x, q, p);
  }

  lemma NonZeroReals(x: real, t: real)
    requires x != 0.0 && t != 0.0
    ensures x * t != 0.0
  {}

  lemma InverseRatio(x: real, t: real, p: real)
    requires x != 0.0 && x * t == p
    ensures (1.0 / x) * p == t
  {
    var i := 1.0 / x;
    assert i * x == 1.0;
    assert i * (x * t) == (i * x) * t;
  }

  /** The field of rational numbers: the reals that are quotients of integers. */
  ghost function RationalNumbers(): Ring<real> {
    Rationals().(has := x => IsRational(x))
  }

  lemma RationalNumbersClosed()
    ensures Closed(RationalNumbers())
  {
    hide IsRational;
    Whole(0);
    Whole(1);
    forall a, b | IsRational(a) && IsRational(b) ensures IsRational(RealSum(a, b)) && IsRational(RealProduct(a, b)) {
      RationalClosed(a, b);
    }
    forall a | IsRational(a) ensures IsRational(-a) { RationalNegative(a); }
    assert forall a, b {:trigger RationalNumbers().add(a, b)} :: RationalNumbers().add(a, b) == RealSum(a, b);
    assert forall a, b {:trigger RationalNumbers().mul(a, b)} :: RationalNumbers().mul(a, b) == RealProduct(a, b);
  }

  function RealSum(a: real, b: real): real { a + b }

  function RealProduct(a: real, b: real): real { a * b }

  lemma InvertedIsRational()
    ensures forall a {:trigger Inverted(a)} :: IsRational(a) && Inverted(a).Some? ==> IsRational(Inverted(a).value)
  {
    hide IsRational;
    forall a | IsRational(a) && Inverted(a).Some? ensures IsRational(Inverted(a).value) { RationalInverse(a); }
  }

  function Inverted(a: real): Option<real> {
    if a == 0.0 then None else Some(1.0 / a)
  }

  // fewer elements with the same operations obey the same laws
  lemma SmallerLaws<F(!new)>(R: Ring<F>, K: Ring<F>)
    requires IsRing(R) && K == R.(has := K.has) && forall a {:trigger K.has(a)} :: K.has(a) ==> R.has(a)
    ensures Laws(K)
  {
    hide IsRing;
    forall a, b | K.has(a) && K.has(b) ensures AddCommAt(K, a, b) && MulCommAt(K, a, b) {
      AddComm(R, a, b);
      MulComm(R, a, b);
    }
    forall a, b, c | K.has(a) && K.has(b) && K.has(c)
      ensures AddAssocAt(K, a, b, c) && MulAssocAt(K, a, b, c) && DistrAt(K, a, b, c)
    {
      AddAssoc(R, a, b, c);
      MulAssoc(R, a, b, c);
      Distr(R, a, b, c);
    }
    forall a | K.has(a) ensures K.add(K.zero, a) == a && K.mul(K.one, a) == a && K.add(a, K.neg(a)) == K.zero {
      AddZero(R, a);
      MulOne(R, a);
      AddNeg(R, a);
    }
  }

  lemma RationalNumbersAreField()
    ensures IsField(RationalNumbers())
  {
    hide Laws, Closed, IsRational;
    var K := RationalNumbers();
    RationalsAreField();
    RationalNumbersClosed();
    InvertedIsRational();
    SmallerLaws(Rationals(), K);
    forall a: real | K.has(a) && K.inverse(a).Some?
      ensures K.has(K.inverse(a).value) && K.mul(a, K.inverse(a).value) == K.one
    {
      assert K.inverse(a) == Inverted(a);
      RealInverse(a);
    }
    assert InverseSound(K);
  }

  // ----- the square root of two -----

  lemma SquareParity(a: nat)
    ensures (a * a) % 2 == a % 2 && (a % 2 == 0 ==> a * a == 4 * ((a / 2) * (a / 2)))
  {
    var c := a / 2;
    var r := a % 2;
    assert a == 2 * c + r;
    assert a * a == 2 * (2 * (c * c) + 2 * (c * r)) + r * r;
    assert r == 0 || r == 1;
  }

  lemma Halves(a: nat, b: nat) returns (c: nat)
    requires a * a == 2 * (b * b)
    ensures a == 2 * c && b * b == 2 * (c * c)
  {
    SquareParity(a);
    c := a / 2;
  }

  /** No fraction has the square two. */
  lemma {:induction false} SquareRootOfTwo(a: nat, b: nat)
    requires a * a == 2 * (b * b)
    ensures b == 0
    decreases b
  {
    if b > 0 {
      var c := Halves(a, b);
      Larger(b, c);
      SquareRootOfTwo(b, c);
    }
  }

  lemma SquareOrder(b: nat, c: nat)
    ensures b <= c ==> b * b <= c * c
  {
    if b <= c {
      assert b * b <= b * c;
      assert b * c <= c * c;
    }
  }

  lemma Larger(b: nat, c: nat)
    requires b * b == 2 * (c * c) && b > 0
    ensures 0 < c < b
  {
    SquareOrder(b, c);
    SquareOrder(1, b);
  }

  lemma NoRationalRoot(x: real)
    requires IsRational(x)
    ensures x * x != 2.0
  {
    var p, q :| IsRatio(x, p, q);
    var (a, b) := (if p < 0 then -p else p, if q < 0 then -q else q);
    if x * x == 2.0 {
      SquaredRatio(x, q as real, p as real);
      IntProduct(p, p);
      IntProduct(q, q);
      assert p * p == 2 * (q * q);
      assert a * a == p * p && b * b == q * q;
      SquareRootOfTwo(a, b);
    }
  }

  lemma SquaredRatio(x: real, q: real, p: real)
    requires x * q == p
    ensures (x * x) * (q * q) == p * p
  {
    assert (x * x) * (q * q) == (x * q) * (x * q);
  }

  // a linear factor would be a rational root
  lemma LinearFactorHasRoot<F(!new)>(K: Ring<F>, p: seq<F>, q: seq<F>) returns (r: F)
    requires IsField(K) && IsPoly(K, p) && IsPoly(K, q) && |p| == 2
    ensures K.has(r) && Eval(K, PMul(K, p, q), r) == K.zero
  {
    hide PMul;
    FieldIsDomain(K);
    r := RootOfLinear(K, p[0], p[1]);
    LinearValue(K, p, r);
    EvalMul(K, p, q, r);
    EvalHas(K, q, r);
    MulZero(K, Eval(K, q, r));
  }

  lemma LinearValue<F(!new)>(K: Ring<F>, p: seq<F>, r: F)
    requires IsRing(K) && |p| == 2 && K.has(p[1]) && K.has(r)
    ensures Eval(K, p, r) == K.add(p[0], K.mul(r, p[1]))
  {
    var top := p[1..];
    assert top == [p[1]] && top[1..] == [];
    assert Eval(K, top[1..], r) == K.zero;
    MulZero(K, r);
    AddZero(K, p[1]);
    assert Eval(K, top, r) == p[1];
  }

  // a + r b == 0 for r == -(a / b)
  lemma RootOfLinear<F(!new)>(K: Ring<F>, a: F, b: F) returns (r: F)
    requires IsField(K) && K.has(a) && K.has(b) && b != K.zero
    ensures K.has(r) && K.add(a, K.mul(r, b)) == K.zero
  {
    FieldIsDomain(K);
    var i := K.inverse(b).value;
    r := K.neg(K.mul(a, i));
    MulNeg(K, K.mul(a, i), b);
    MulAssoc(K, a, i, b);
    MulComm(K, i, b);
    MulOne(K, a);
    AddNeg(K, a);
  }

  ghost const SQUARE_MINUS_TWO: seq<real> := [-2.0, 0.0, 1.0]

  lemma ValueOfSquare(x: real)
    ensures Eval(RationalNumbers(), SQUARE_MINUS_TWO, x) == x * x - 2.0
  {
    var m := SQUARE_MINUS_TWO;
    assert m[1..] == [0.0, 1.0] && m[1..][1..] == [1.0] && m[1..][1..][1..] == [];
    assert x * (0.0 + x * (1.0 + x * 0.0)) == x * x;
  }

  /** x^2 - 2 is irreducible over the rational numbers, so the tower Q(sqrt 2) is a field. */
  lemma RootTwoIsField()
    ensures IsField(RationalNumbers()) && IsMinPoly(RationalNumbers(), SQUARE_MINUS_TWO)
    ensures Irreducible(RationalNumbers(), SQUARE_MINUS_TWO) && IsField(Rung(RationalNumbers(), SQUARE_MINUS_TWO))
  {
    hide IsField, PMul, IsRational;
    var (K, m) := (RationalNumbers(), SQUARE_MINUS_TWO);
    RationalNumbersAreField();
    FieldIsDomain(K);
    Whole(-2);
    Whole(0);
    Whole(1);
    forall p, q | IsPoly(K, p) && IsPoly(K, q) && PMul(K, p, q) == m ensures |p| == 1 || |q| == 1 {
      FactorsNonEmpty(K, p, q);
      PMulLen(K, p, q);
      if |p| == 2 {
        var r := LinearFactorHasRoot(K, p, q);
        ValueOfSquare(r);
        NoRationalRoot(r);
      }
    }
    RungIsFieldIff(K, m);
  }

  lemma FactorsNonEmpty<F(!new)>(K: Ring<F>, p: seq<F>, q: seq<F>)
    requires IsRing(K) && IsPoly(K, p) && IsPoly(K, q) && PMul(K, p, q) != []
    ensures p != [] && q != []
  {
    PMulComm(K, p, q);
  }

  // ----- a tower of any depth -----

  /** A value of some rung: a rational number, or the coefficients over the rung below. */
  datatype Num = Leaf(value: real) | Node(coeffs: seq<Num>)

  ghost function AsReal(x: Num): real {
    if x.Leaf? then x.value else 0.0
  }

  ghost function Ground(): Ring<Num> {
    var Q := RationalNumbers();
    Ring((x: Num) => x.Leaf? && Q.has(x.value), Leaf(Q.zero), Leaf(Q.one),
         (x, y) => Leaf(Q.add(AsReal(x), AsReal(y))), x => Leaf(Q.neg(AsReal(x))),
         (x, y) => Leaf(Q.mul(AsReal(x), AsReal(y))),
         x => match Q.inverse(AsReal(x)) case None => None case Some(i) => Some(Leaf(i)))
  }

  ghost function Element(m: seq<Num>, x: Num): AlgebraicElement<Num> {
    AlgebraicElement(if x.Node? then x.coeffs else [], m)
  }

  /** The rung K[x]/(m), its elements written as values. */
  ghost function Above(K: Ring<Num>, m: seq<Num>): Ring<Num> {
    var R := Rung(K, m);
    Ring((x: Num) => x.Node? && R.has(Element(m, x)), Node(R.zero.value), Node(R.one.value),
         (x, y) => Node(R.add(Element(m, x), Element(m, y)).value), x => Node(R.neg(Element(m, x)).value),
         (x, y) => Node(R.mul(Element(m, x), Element(m, y)).value),
         x => match R.inverse(Element(m, x)) case None => None case Some(i) => Some(Node(i.value)))
  }

  /** The top of the tower with minimal polynomials ms, lowest first. */
  ghost function Level(ms: seq<seq<Num>>): Ring<Num> {
    if ms == [] then Ground() else Above(Level(ms[..|ms| - 1]), ms[|ms| - 1])
  }

  /** S is a copy of R: `to` and `from` are inverse to each other and respect the operations. */
  ghost predicate IsCopy<A(!new), B(!new)>(R: Ring<A>, S: Ring<B>, to: A -> B, from: B -> A) {
    && (forall a {:trigger to(a)} :: R.has(a) ==> S.has(to(a)) && from(to(a)) == a)
    && (forall b {:trigger from(b)} :: S.has(b) ==> R.has(from(b)) && to(from(b)) == b)
    && S.zero == to(R.zero) && S.one == to(R.one)
    && (forall x, y {:trigger S.add(x, y)} :: S.has(x) && S.has(y) ==> S.add(x, y) == to(R.add(from(x), from(y))))
    && (forall x, y {:trigger S.mul(x, y)} :: S.has(x) && S.has(y) ==> S.mul(x, y) == to(R.mul(from(x), from(y))))
    && (forall x {:trigger S.neg(x)} :: S.has(x) ==> S.neg(x) == to(R.neg(from(x))))
    && (forall x {:trigger S.inverse(x)} :: S.has(x) ==> (S.inverse(x).Some? <==> R.inverse(from(x)).Some?))
    && (forall x {:trigger S.inverse(x)} :: S.has(x) && S.inverse(x).Some? ==>
          S.inverse(x).value == to(R.inverse(from(x)).value))
  }

  lemma CopyClosed<A(!new), B(!new)>(R: Ring<A>, S: Ring<B>, to: A -> B, from: B -> A)
    requires IsCopy(R, S, to, from) && IsRing(R)
    ensures Closed(S)
  {
    forall x, y | S.has(x) && S.has(y) ensures S.has(S.add(x, y)) && S.has(S.mul(x, y)) {
      assert R.has(R.add(from(x), from(y))) && R.has(R.mul(from(x), from(y)));
    }
  }

  lemma CopyLaws<A(!new), B(!new)>(R: Ring<A>, S: Ring<B>, to: A -> B, from: B -> A)
    requires IsCopy(R, S, to, from) && IsRing(R) && Closed(S)
    ensures Laws(S)
  {
    hide IsRing;
    RingHas(R);
    forall x, y | S.has(x) && S.has(y) ensures AddCommAt(S, x, y) && MulCommAt(S, x, y) {
      AddComm(R, from(x), from(y));
      MulComm(R, from(x), from(y));
    }
    forall x, y, z | S.has(x) && S.has(y) && S.has(z)
      ensures AddAssocAt(S, x, y, z) && MulAssocAt(S, x, y, z) && DistrAt(S, x, y, z)
    {
      CopyTriple(R, S, to, from, x, y, z);
    }
    forall x | S.has(x) ensures S.add(S.zero, x) == x && S.mul(S.one, x) == x && S.add(x, S.neg(x)) == S.zero {
      AddZero(R, from(x));
      MulOne(R, from(x));
      AddNeg(R, from(x));
    }
  }

  lemma RingHas<A(!new)>(R: Ring<A>)
    requires IsRing(R)
    ensures Closed(R)
  {}

  lemma CopyTriple<A(!new), B(!new)>(R: Ring<A>, S: Ring<B>, to: A -> B, from: B -> A, x: B, y: B, z: B)
    requires IsCopy(R, S, to, from) && IsRing(R) && Closed(R) && Closed(S) && S.has(x) && S.has(y) && S.has(z)
    ensures AddAssocAt(S, x, y, z) && MulAssocAt(S, x, y, z) && DistrAt(S, x, y, z)
  {
    hide IsRing;
    var (a, b, c) := (from(x), from(y), from(z));
    AddAssoc(R, a, b, c);
    MulAssoc(R, a, b, c);
    Distr(R, a, b, c);
  }

  /** A copy of a ring is a ring, and a copy of a field is a field. */
  lemma CopyIsRing<A(!new), B(!new)>(R: Ring<A>, S: Ring<B>, to: A -> B, from: B -> A)
    requires IsCopy(R, S, to, from) && IsRing(R)
    ensures IsRing(S) && (IsField(R) <==> IsField(S))
  {
    CopyClosed(R, S, to, from);
    CopyLaws(R, S, to, from);
    assert from(S.zero) == R.zero && from(S.one) == R.one;
    forall x | S.has(x) && S.inverse(x).Some?
      ensures S.has(S.inverse(x).value) && S.mul(x, S.inverse(x).value) == S.one
    {
      assert R.mul(from(x), R.inverse(from(x)).value) == R.one;
    }
    assert InverseSound(S);
    if IsField(R) {
      forall x | S.has(x) ensures S.inverse(x).Some? <==> x != S.zero { assert to(from(x)) == x; }
    }
    if IsField(S) {
      forall a | R.has(a) ensures R.inverse(a).Some? <==> a != R.zero {
        assert S.inverse(to(a)).Some? <==> to(a) != S.zero;
      }
    }
  }

  lemma GroundIsField()
    ensures IsRing(Ground()) && IsField(Ground())
  {
    var (to, from) := ((a: real) => Leaf(a), (x: Num) => AsReal(x));
    RationalNumbersAreField();
    FieldIsDomain(RationalNumbers());
    CopyIsRing(RationalNumbers(), Ground(), to, from);
  }

  lemma AboveIsRing(K: Ring<Num>, m: seq<Num>)
    requires IsRing(K) && IsMinPoly(K, m)
    ensures IsRing(Above(K, m)) && (IsField(Above(K, m)) <==> IsField(Rung(K, m)))
  {
    hide IsRing, IsField;
    var R := Rung(K, m);
    RungIsRing(K, m);
    RingHas(R);
    RingHas(K);
    var (to, from) := ((e: AlgebraicElement<Num>) => Node(e.value), (x: Num) => Element(m, x));
    assert forall e :: R.has(e) ==> e == AlgebraicElement(e.value, m);
    forall x | Above(K, m).has(x) && R.inverse(Element(m, x)).Some? ensures R.has(R.inverse(Element(m, x)).value) {
      InverseCorrect(K, m, Element(m, x));
    }
    CopyIsRing(R, Above(K, m), to, from);
  }

  /** Every modulus is a lawful minimal polynomial over the rung below. */
  ghost predicate IsTower(ms: seq<seq<Num>>) {
    forall i :: 0 <= i < |ms| ==> IsMinPoly(Level(ms[..i]), ms[i])
  }

  ghost predicate AllIrreducible(ms: seq<seq<Num>>) {
    forall i :: 0 <= i < |ms| ==> Irreducible(Level(ms[..i]), ms[i])
  }

  ghost predicate AllFields(ms: seq<seq<Num>>) {
    forall i :: 0 <= i <= |ms| ==> IsField(Level(ms[..i]))
  }

  // a property of every modulus over the rung below, one modulus at a time
  lemma ShorterTower(ms: seq<seq<Num>>)
    requires ms != []
    ensures var (n, s) := (|ms| - 1, ms[..|ms| - 1]); IsTower(ms) ==> IsTower(s) && IsMinPoly(Level(s), ms[n])
  {
    hide IsMinPoly, Level;
    var (n, s) := (|ms| - 1, ms[..|ms| - 1]);
    if IsTower(ms) {
      forall i | 0 <= i < n ensures IsMinPoly(Level(s[..i]), s[i]) { assert s[..i] == ms[..i]; }
      assert IsMinPoly(Level(ms[..n]), ms[n]);
    }
  }

  lemma ShorterIrreducible(ms: seq<seq<Num>>)
    requires ms != []
    ensures var (n, s) := (|ms| - 1, ms[..|ms| - 1]);
      AllIrreducible(ms) <==> AllIrreducible(s) && Irreducible(Level(s), ms[n])
  {
    hide Irreducible, Level;
    var (n, s) := (|ms| - 1, ms[..|ms| - 1]);
    assert forall i :: 0 <= i <= n ==> s[..i] == ms[..i];
    if AllIrreducible(s) && Irreducible(Level(s), ms[n]) {
      forall i | 0 <= i < |ms| ensures Irreducible(Level(ms[..i]), ms[i]) {
        if i < n { assert Irreducible(Level(s[..i]), s[i]); }
      }
    }
    if AllIrreducible(ms) {
      forall i | 0 <= i < n ensures Irreducible(Level(s[..i]), s[i]) { assert Irreducible(Level(ms[..i]), ms[i]); }
      assert Irreducible(Level(ms[..n]), ms[n]);
    }
  }

  lemma ShorterFields(ms: seq<seq<Num>>)
    requires ms != []
    ensures AllFields(ms) <==> AllFields(ms[..|ms| - 1]) && IsField(Level(ms))
  {
    hide IsField, Level;
    var (n, s) := (|ms| - 1, ms[..|ms| - 1]);
    assert ms[..|ms|] == ms;
    if AllFields(s) && IsField(Level(ms)) {
      forall i | 0 <= i <= |ms| ensures IsField(Level(ms[..i])) {
        if i <= n { FieldBelow(ms, i); }
      }
    }
    if AllFields(ms) {
      forall i | 0 <= i <= n ensures IsField(Level(s[..i])) { FieldBelow(ms, i); }
      assert IsField(Level(ms[..|ms|]));
    }
  }

  lemma FieldBelow(ms: seq<seq<Num>>, i: nat)
    requires ms != [] && i < |ms|
    ensures IsField(Level(ms[..|ms| - 1][..i])) <==> IsField(Level(ms[..i]))
  {
    assert ms[..|ms| - 1][..i] == ms[..i];
  }

  /** To any depth: the tower is a ring, and every rung is a field exactly when every minimal polynomial
      is irreducible over the rung below it. */
  lemma {:induction false} TowerIsField(ms: seq<seq<Num>>)
    requires IsTower(ms)
    ensures IsRing(Level(ms)) && (AllFields(ms) <==> AllIrreducible(ms))
    decreases |ms|
  {
    hide IsRing, IsField, IsMinPoly, Irreducible, IsTower, AllIrreducible, AllFields, Above, Rung;
    if ms == [] {
      GroundIsField();
      EmptyTower();
    } else {
      var (n, s) := (|ms| - 1, ms[..|ms| - 1]);
      ShorterTower(ms);
      ShorterIrreducible(ms);
      ShorterFields(ms);
      TowerIsField(s);
      AboveIsRing(Level(s), ms[n]);
      TopIsField(s);
      if IsField(Level(s)) { RungIsFieldIff(Level(s), ms[n]); }
    }
  }

  lemma EmptyTower()
    requires IsField(Ground())
    ensures AllFields([]) && AllIrreducible([])
  {
    hide IsField;
    var none: seq<seq<Num>> := [];
    forall i | 0 <= i <= |none| ensures IsField(Level(none[..i])) { assert none[..i] == []; }
  }

  lemma TopIsField(s: seq<seq<Num>>)
    ensures AllFields(s) ==> IsField(Level(s))
  {
    hide IsField, Level;
    assert s[..|s|] == s;
  }
}
