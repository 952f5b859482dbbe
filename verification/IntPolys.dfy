/** Polynomials over the integers: content, primitive part, Gauss's lemma, and exact division. */
module IntPolys {
  import opened Rings
  import opened Polys
  import opened Vectors
  import opened Division
  import opened Numbers

  type IntPoly = seq<int>

  ghost predicate IsIntPoly(p: IntPoly) {
    IsPoly(Integers(), p)
  }

  function Times(p: IntPoly, q: IntPoly): IntPoly {
    PMul(Integers(), p, q)
  }

  function ScaleBy(c: int, p: IntPoly): IntPoly {
    Scale(Integers(), c, p)
  }

  /** r divides every coefficient of p. */
  ghost predicate AllDiv(r: int, p: IntPoly) {
    forall i :: 0 <= i < |p| ==> Div(r, p[i])
  }

  ghost predicate Primitive(p: IntPoly) {
    p != [] && forall d {:trigger AllDiv(d, p)} :: d > 1 ==> !AllDiv(d, p)
  }

  /** No d > 1 divides both l and every coefficient of p. */
  ghost predicate Reduced(l: int, p: IntPoly) {
    forall d {:trigger AllDiv(d, p)} :: d > 1 ==> !(Div(d, l) && AllDiv(d, p))
  }

  // ----- Gauss's lemma -----

  lemma AllDivCoeff(r: int, p: IntPoly)
    ensures AllDiv(r, p) <==> forall i: nat :: Div(r, Coeff(Integers(), p, i))
  {
    DivSelf(r);
    if forall i: nat :: Div(r, Coeff(Integers(), p, i)) {
      forall i | 0 <= i < |p| ensures Div(r, p[i]) {
        assert Div(r, Coeff(Integers(), p, i));
      }
    }
  }

  lemma AllDivScale(r: int, c: int, p: IntPoly)
    requires Div(r, c) || AllDiv(r, p)
    ensures AllDiv(r, ScaleBy(c, p))
  {
    IntegersAreDomain();
    AllDivCoeff(r, p);
    forall i: nat ensures Div(r, Coeff(Integers(), ScaleBy(c, p), i)) {
      CoeffScale(Integers(), c, p, i);
      var a := Coeff(Integers(), p, i);
      if Div(r, c) { DivTimes(r, c, a); } else { DivTimes(r, a, c); }
    }
    AllDivCoeff(r, ScaleBy(c, p));
  }

  // if r divides s + x t and s, it divides t
  lemma AllDivTail(r: int, s: IntPoly, t: IntPoly)
    requires IsIntPoly(s) && IsIntPoly(t)
    requires AllDiv(r, s) && AllDiv(r, PAdd(Integers(), s, Shift(Integers(), t)))
    ensures AllDiv(r, t)
  {
    hide PAdd, AllDiv, Div, IsDomain;
    IntegersAreDomain();
    var K := Integers();
    var u := PAdd(K, s, Shift(K, t));
    ConsPoly(K, 0, t);
    AllDivCoeff(r, s);
    AllDivCoeff(r, u);
    forall i: nat ensures Div(r, Coeff(K, t, i)) {
      CoeffAdd(K, s, Shift(K, t), i + 1);
      assert Coeff(K, Shift(K, t), i + 1) == Coeff(K, t, i);
      DivSum(r, Coeff(K, u, i + 1), Coeff(K, s, i + 1));
    }
    AllDivCoeff(r, t);
  }

  lemma HeadOfProduct(p: IntPoly, q: IntPoly)
    requires IsIntPoly(p) && IsIntPoly(q) && p != [] && q != []
    ensures Coeff(Integers(), Times(p, q), 0) == p[0] * q[0]
  {
    hide PMul, PAdd, Scale, IsRing, IsDomain;
    IntegersAreDomain();
    var K := Integers();
    var (s, t) := (Scale(K, p[0], q), PMul(K, p[1..], q));
    ScalePoly(K, p[0], q);
    PMulPoly(K, p[1..], q);
    ConsPoly(K, 0, t);
    PMulHead(K, p, q);
    CoeffAdd(K, s, Shift(K, t), 0);
    CoeffScale(K, p[0], q, 0);
  }

  // if r divides p q and the head of p, it divides (tail of p) q
  lemma DropHead(r: int, p: IntPoly, q: IntPoly)
    requires IsIntPoly(p) && IsIntPoly(q) && p != [] && Div(r, p[0]) && AllDiv(r, Times(p, q))
    ensures IsIntPoly(p[1..]) && AllDiv(r, Times(p[1..], q))
  {
    IntegersAreDomain();
    PMulPoly(Integers(), p[1..], q);
    ScalePoly(Integers(), p[0], q);
    AllDivScale(r, p[0], q);
    AllDivTail(r, ScaleBy(p[0], q), Times(p[1..], q));
  }

  // a prime that divides p q but not the head of p divides the head of q
  lemma OtherHead(r: int, p: IntPoly, q: IntPoly)
    requires Prime(r) && IsIntPoly(p) && IsIntPoly(q) && p != [] && q != [] && AllDiv(r, Times(p, q))
    ensures Div(r, p[0]) || Div(r, q[0])
  {
    AllDivCoeff(r, Times(p, q));
    HeadOfProduct(p, q);
    assert Div(r, Coeff(Integers(), Times(p, q), 0));
    PrimeDivides(r, p[0], q[0]);
  }

  /** A prime that divides a product of polynomials divides one of them. */
  lemma {:induction false} GaussPrime(r: int, p: IntPoly, q: IntPoly)
    requires Prime(r) && IsIntPoly(p) && IsIntPoly(q) && AllDiv(r, Times(p, q))
    ensures AllDiv(r, p) || AllDiv(r, q)
    decreases |p| + |q|
  {
    hide Times, Div;
    if p != [] && q != [] {
      OtherHead(r, p, q);
      if Div(r, p[0]) {
        DropHead(r, p, q);
        GaussPrime(r, p[1..], q);
      } else {
        TimesComm(p, q);
        DropHead(r, q, p);
        TimesComm(q[1..], p);
        GaussPrime(r, p, q[1..]);
      }
    }
  }

  lemma TimesComm(p: IntPoly, q: IntPoly)
    requires IsIntPoly(p) && IsIntPoly(q)
    ensures Times(p, q) == Times(q, p)
  {
    IntegersAreDomain();
    PMulComm(Integers(), p, q);
  }

  lemma AllDivDown(d: int, e: int, p: IntPoly)
    requires Div(d, e) && AllDiv(e, p)
    ensures AllDiv(d, p)
  {
    forall i | 0 <= i < |p| ensures Div(d, p[i]) {
      DivTrans(d, e, p[i]);
    }
  }

  /** Gauss's lemma: the product of primitive polynomials is primitive. */
  lemma GaussProduct(p: IntPoly, q: IntPoly)
    requires IsIntPoly(p) && IsIntPoly(q) && Primitive(p) && Primitive(q)
    ensures Primitive(Times(p, q))
  {
    IntegersAreDomain();
    PMulLen(Integers(), p, q);
    forall d | d > 1 && AllDiv(d, Times(p, q)) ensures false {
      var r := PrimeFactor(d);
      AllDivDown(r, d, Times(p, q));
      GaussPrime(r, p, q);
    }
  }

  /** A quotient by a primitive polynomial needs no denominator. */
  lemma GaussExact(f: IntPoly, g: IntPoly, l: int, q: IntPoly)
    requires IsIntPoly(f) && IsIntPoly(g) && IsIntPoly(q) && Primitive(g)
    requires l > 0 && Reduced(l, q) && ScaleBy(l, f) == Times(q, g)
    ensures l == 1 && f == Times(q, g)
  {
    if l > 1 {
      var r := PrimeFactor(l);
      AllDivScale(r, l, f);
      GaussPrime(r, q, g);
    }
    IntegersAreDomain();
    ScaleOne(Integers(), f);
  }

  // ----- content -----

  /** The greatest common divisor of the coefficients; zero for the zero polynomial. */
  function Content(p: IntPoly): nat {
    if p == [] then 0 else Gcd(Abs(p[0]), Content(p[1..]))
  }

  lemma {:induction false} ContentUniversal(p: IntPoly, d: int)
    ensures Div(d, Content(p)) <==> AllDiv(d, p)
  {
    if p == [] {
      DivSelf(d);
    } else {
      ContentUniversal(p[1..], d);
      GcdUniversal(Abs(p[0]), Content(p[1..]), d);
      DivNeg(d, p[0]);
      assert AllDiv(d, p) <==> Div(d, p[0]) && AllDiv(d, p[1..]);
    }
  }

  lemma ContentPositive(p: IntPoly)
    requires IsIntPoly(p) && p != []
    ensures Content(p) > 0
  {
    if Content(p) == 0 {
      DivSelf(0);
      ContentUniversal(p, 0);
      var q := DivQuotient(0, p[|p| - 1]);
    }
  }

  /** The content as the code computes it: coefficient by coefficient, one for the zero polynomial. */
  method IntegerContent(p: IntPoly) returns (c: nat)
    requires IsIntPoly(p)
    ensures c == if p == [] then 1 else Content(p)
    ensures c > 0
  {
    c := 0;
    forall d ensures Div(d, c) <==> AllDiv(d, p[..0]) { DivSelf(d); }
    for i := 0 to |p|
      invariant forall d :: Div(d, c) <==> AllDiv(d, p[..i])
    {
      ghost var before := c;
      if p[i] != 0 {
        c := if c == 0 then Abs(p[i]) else Gcd(c, Abs(p[i]));
      }
      forall d ensures Div(d, c) <==> AllDiv(d, p[..i + 1]) {
        DivSelf(d);
        DivNeg(d, p[i]);
        GcdUniversal(before, Abs(p[i]), d);
        assert p[..i + 1] == p[..i] + [p[i]];
        assert AllDiv(d, p[..i + 1]) <==> AllDiv(d, p[..i]) && Div(d, p[i]);
      }
    }
    assert p[..|p|] == p;
    SameDivisors(c, Content(p)) by {
      forall d ensures Div(d, c) <==> Div(d, Content(p)) { ContentUniversal(p, d); }
    }
    if p != [] { ContentPositive(p); }
    if c == 0 { c := 1; }
  }

  lemma SameDivisors(a: nat, b: nat)
    requires forall d :: Div(d, a) <==> Div(d, b)
    ensures a == b
  {
    DivSelf(a);
    DivSelf(b);
    if a != 0 && b != 0 {
      DivBound(a, b);
      DivBound(b, a);
    } else if a == 0 {
      var q := DivQuotient(0, b);
    } else {
      var q := DivQuotient(0, a);
    }
  }

  /** Division with the quotient rounded towards zero. */
  function Truncated(a: int, b: int): int
    requires b != 0
  {
    if a >= 0 then a / b else -((-a) / b)
  }

  /** Truncation leaves less than the divisor over, on the side of the dividend. */
  lemma TruncatedIs(a: int, b: int)
    requires b != 0
    ensures var r := a - b * Truncated(a, b); Abs(r) < Abs(b) && (a >= 0 ==> r >= 0) && (a <= 0 ==> r <= 0)
    ensures Div(b, a) <==> a == b * Truncated(a, b)
  {
    var c := if a >= 0 then a else -a;
    assert c == b * (c / b) + c % b && 0 <= c % b < Abs(b);
    assert a < 0 ==> b * Truncated(a, b) == -(b * (c / b));
    DivRemainder(b, c);
    DivNeg(b, a);
  }

  /** Divides every coefficient, rounding towards zero, and drops the zeros this leaves at the end.  A common
      divisor is divided out exactly. */
  method DivideByScalar(p: IntPoly, c: int) returns (r: IntPoly)
    requires c != 0
    ensures IsIntPoly(r) && |r| <= |p|
    ensures forall i :: 0 <= i < |p| ==> Truncated(p[i], c) == if i < |r| then r[i] else 0
    ensures IsIntPoly(p) && AllDiv(c, p) ==>
      |r| == |p| && ScaleBy(c, r) == p && forall i :: 0 <= i < |p| ==> p[i] == c * r[i]
  {
    IntegersAreDomain();
    var v := p;
    for i := 0 to |p|
      invariant |v| == |p|
      invariant forall k :: 0 <= k < |p| ==> v[k] == if k < i then Truncated(p[k], c) else p[k]
    {
      v := v[i := Truncated(v[i], c)];
    }
    r := StripTrailing(Integers(), v);
    forall i | 0 <= i < |p| ensures Truncated(p[i], c) == if i < |r| then r[i] else 0 {
      assert Coeff(Integers(), r, i) == Coeff(Integers(), v, i);
    }
    if IsIntPoly(p) && AllDiv(c, p) { ExactEntries(p, c, r); }
  }

  lemma ExactEntries(p: IntPoly, c: int, r: IntPoly)
    requires c != 0 && IsIntPoly(p) && IsIntPoly(r) && |r| <= |p| && AllDiv(c, p)
    requires forall i :: 0 <= i < |p| ==> Truncated(p[i], c) == if i < |r| then r[i] else 0
    ensures |r| == |p| && ScaleBy(c, r) == p && forall i :: 0 <= i < |p| ==> p[i] == c * r[i]
  {
    forall i | 0 <= i < |p| ensures p[i] == c * Truncated(p[i], c) { TruncatedIs(p[i], c); }
    if p != [] { assert p[|p| - 1] == c * Truncated(p[|p| - 1], c); }
    ScaledEntries(c, r, p);
  }

  lemma ScaledEntries(c: int, r: IntPoly, p: IntPoly)
    requires c != 0 && IsIntPoly(r) && IsIntPoly(p) && |r| == |p|
    requires forall i :: 0 <= i < |p| ==> p[i] == c * r[i]
    ensures ScaleBy(c, r) == p
  {
    IntegersAreDomain();
    var K := Integers();
    ScalePoly(K, c, r);
    forall i: nat ensures Coeff(K, Scale(K, c, r), i) == Coeff(K, p, i) {
      CoeffScale(K, c, r, i);
    }
    SameCoeffs(K, Scale(K, c, r), p);
  }

  // dividing by the content leaves nothing in common
  lemma ContentRemoved(p: IntPoly, r: IntPoly, l: int, c: int)
    requires c != 0 && |r| == |p| && forall i :: 0 <= i < |p| ==> p[i] == c * r[i]
    requires forall d :: (Div(d, l * c) && AllDiv(d, p)) ==> Div(d, c)
    ensures Reduced(l, r)
  {
    forall d | d > 1 && Div(d, l) && AllDiv(d, r) ensures false {
      var q := DivQuotient(d, l);
      DivIntro(d * c, q, l * c) by { assert q * (d * c) == (q * d) * c; }
      forall i | 0 <= i < |p| ensures Div(d * c, p[i]) {
        var s := DivQuotient(d, r[i]);
        DivIntro(d * c, s, p[i]) by { assert c * (s * d) == s * (d * c); }
      }
      DivBound(d * c, c);
      ProductGrows(d - 1, c);
    }
  }

  /** The primitive part, with positive leading coefficient. */
  method PrimitivePart(p: IntPoly) returns (r: IntPoly, ghost c: int)
    requires IsIntPoly(p)
    ensures IsIntPoly(r) && |r| == |p|
    ensures c != 0 && ScaleBy(c, r) == p
    ensures p != [] ==> Primitive(r) && r[|r| - 1] > 0
  {
    if p == [] { return [], 1; }
    var content: int := IntegerContent(p);
    ContentUniversal(p, content);
    DivSelf(content);
    r := DivideByScalar(p, content);
    c := content;
    forall d | Div(d, 0 * content) && AllDiv(d, p) ensures Div(d, content) { ContentUniversal(p, d); }
    ContentRemoved(p, r, 0, content);
    forall d ensures Div(d, 0) { DivSelf(d); }
    assert Primitive(r);
    if r[|r| - 1] < 0 {
      ghost var s := r;
      r := NegateAll(r);
      c := 0 - content;
      NegatedEntries(p, content, s, r);
    }
  }

  method NegateAll(p: IntPoly) returns (r: IntPoly)
    ensures |r| == |p| && forall i :: 0 <= i < |p| ==> r[i] == -p[i]
  {
    r := p;
    for i := 0 to |p|
      invariant |r| == |p| && forall k :: 0 <= k < |p| ==> r[k] == if k < i then -p[k] else p[k]
    {
      r := r[i := -r[i]];
    }
  }

  lemma NegatedEntries(p: IntPoly, c: int, s: IntPoly, r: IntPoly)
    requires c != 0 && IsIntPoly(p) && IsIntPoly(s) && |s| == |p| == |r| && Primitive(s)
    requires forall i :: 0 <= i < |p| ==> p[i] == c * s[i]
    requires forall i :: 0 <= i < |p| ==> r[i] == -s[i]
    ensures IsIntPoly(r) && ScaleBy(-c, r) == p && Primitive(r)
  {
    forall i | 0 <= i < |p| ensures p[i] == (-c) * r[i] {
      assert (-c) * (-s[i]) == c * s[i];
    }
    assert IsIntPoly(r);
    ScaledEntries(-c, r, p);
    forall d | d > 1 && AllDiv(d, r) ensures AllDiv(d, s) {
      forall i | 0 <= i < |s| ensures Div(d, s[i]) {
        assert Div(d, r[i]);
        DivNeg(d, s[i]);
      }
    }
  }

  // ----- division after scaling -----

  /** l f == quo g + rem, the state of a pseudo-division. */
  ghost predicate PseudoState(f: IntPoly, g: IntPoly, l: int, quo: IntPoly, rem: IntPoly) {
    IsIntPoly(quo) && IsIntPoly(rem) && l != 0 && PAdd(Integers(), Times(quo, g), rem) == ScaleBy(l, f)
  }

  lemma PseudoStart(f: IntPoly, g: IntPoly)
    requires IsIntPoly(f)
    ensures PseudoState(f, g, 1, [], f)
  {
    IntegersAreDomain();
    ScaleOne(Integers(), f);
  }

  function StepQuotient(g: IntPoly, quo: IntPoly, rem: IntPoly): IntPoly
    requires g != [] && |rem| >= |g|
  {
    var K := Integers();
    PAdd(K, ScaleBy(g[|g| - 1], quo), ShiftN(K, |rem| - |g|, Const(K, rem[|rem| - 1])))
  }

  function StepRemainder(g: IntPoly, rem: IntPoly): IntPoly
    requires g != [] && |rem| >= |g|
  {
    var K := Integers();
    PSub(K, ScaleBy(g[|g| - 1], rem), ShiftN(K, |rem| - |g|, ScaleBy(rem[|rem| - 1], g)))
  }

  lemma ScaledState(f: IntPoly, g: IntPoly, l: int, quo: IntPoly, rem: IntPoly, c: int)
    requires IsIntPoly(f) && IsIntPoly(g) && PseudoState(f, g, l, quo, rem) && c != 0
    ensures PseudoState(f, g, c * l, ScaleBy(c, quo), ScaleBy(c, rem))
  {
    IntegersAreDomain();
    var K := Integers();
    ScalePoly(K, c, quo);
    ScalePoly(K, c, rem);
    ScaleScale(K, c, l, f);
    PMulPoly(K, quo, g);
    ScaleAdd(K, c, Times(quo, g), rem);
    ScaleMul(K, c, quo, g);
  }

  lemma LeadNonZero(p: IntPoly)
    requires IsIntPoly(p) && p != []
    ensures p[|p| - 1] != 0
  {}

  lemma ScaledTop(c: int, p: IntPoly)
    requires IsIntPoly(p) && p != []
    ensures IsIntPoly(ScaleBy(c, p))
    ensures c != 0 ==> |ScaleBy(c, p)| == |p| && ScaleBy(c, p)[|p| - 1] == c * p[|p| - 1]
  {
    IntegersAreDomain();
    ScalePoly(Integers(), c, p);
    if c != 0 { ScaleLen(Integers(), c, p); }
  }

  lemma SameProduct(a: int, b: int)
    ensures a * b == b * a
  {}

  lemma StepShortens(g: IntPoly, rem: IntPoly)
    requires IsIntPoly(g) && IsIntPoly(rem) && g != [] && |rem| >= |g|
    ensures |StepRemainder(g, rem)| < |rem|
  {
    hide Scale, ShiftN, PAdd, PNeg, IsRing, IsDomain, IsPoly;
    IntegersAreDomain();
    var K := Integers();
    var (c, t, k) := (g[|g| - 1], rem[|rem| - 1], |rem| - |g|);
    var (a, b) := (ScaleBy(c, rem), ScaleBy(t, g));
    ScaledTop(c, rem);
    ScaledTop(t, g);
    LeadNonZero(g);
    LeadNonZero(rem);
    CoeffShiftN(K, k, b, |rem| - 1);
    SameProduct(c, t);
    PSubTop(K, a, ShiftN(K, k, b));
  }

  lemma PseudoStep(f: IntPoly, g: IntPoly, l: int, quo: IntPoly, rem: IntPoly)
    requires IsIntPoly(f) && IsIntPoly(g) && g != [] && PseudoState(f, g, l, quo, rem) && |rem| >= |g|
    ensures PseudoState(f, g, g[|g| - 1] * l, StepQuotient(g, quo, rem), StepRemainder(g, rem))
    ensures |StepRemainder(g, rem)| < |rem|
  {
    hide PAdd, PSub, PMul, Scale, ShiftN, Cons;
    StepShortens(g, rem);
    var (c, t, k) := (g[|g| - 1], rem[|rem| - 1], |rem| - |g|);
    ScaledState(f, g, l, quo, rem, c);
    PseudoSubtract(ScaleBy(c * l, f), g, ScaleBy(c, quo), ScaleBy(c, rem), t, k) by {
      IntegersAreDomain();
      ScalePoly(Integers(), c * l, f);
    }
  }

  lemma PseudoSubtract(A: IntPoly, g: IntPoly, quo: IntPoly, rem: IntPoly, t: int, k: nat)
    requires IsIntPoly(A) && IsIntPoly(g) && IsIntPoly(quo) && IsIntPoly(rem)
    requires PAdd(Integers(), Times(quo, g), rem) == A
    ensures var K := Integers();
            var (quo', rem') := (PAdd(K, quo, ShiftN(K, k, Const(K, t))), PSub(K, rem, ShiftN(K, k, ScaleBy(t, g))));
            && IsIntPoly(quo') && IsIntPoly(rem')
            && PAdd(K, Times(quo', g), rem') == A
  {
    IntegersAreDomain();
    var K := Integers();
    DivisionStep(K, A, rem, g, quo, t, k);
    ConsPoly(K, t, []);
    CoeffShiftN(K, k, Const(K, t), 0);
    PAddPoly(K, quo, ShiftN(K, k, Const(K, t)));
  }

  // two divisions of the same dividend, one of them exact
  lemma ExactMeetsPseudo(g: IntPoly, q: IntPoly, quo: IntPoly, rem: IntPoly)
    requires IsIntPoly(g) && IsIntPoly(q) && IsIntPoly(quo) && IsIntPoly(rem) && |rem| < |g|
    requires Times(q, g) == PAdd(Integers(), Times(quo, g), rem)
    ensures rem == []
  {
    IntegersAreDomain();
    var K := Integers();
    PolyRingIsRing(K);
    var P := PolyRing(K);
    PMulPoly(K, q, g);
    AddZero(P, Times(q, g));
    PNegPoly(K, quo);
    PAddPoly(K, q, PNeg(K, quo));
    DifferenceOfDivisions(P, q, quo, g, [], rem);
    MultipleTooShort(PSub(K, q, quo), g, rem);
  }

  // a remainder vanishes when the dividend is a multiple up to scaling
  lemma RemainderVanishes(f: IntPoly, g: IntPoly, l: int, quo: IntPoly, rem: IntPoly, m: int, q: IntPoly)
    requires IsIntPoly(f) && IsIntPoly(g) && g != [] && PseudoState(f, g, l, quo, rem) && |rem| < |g|
    requires m != 0 && IsIntPoly(q) && ScaleBy(m, f) == Times(q, g)
    ensures rem == []
  {
    IntegersAreDomain();
    var K := Integers();
    ScaledState(f, g, l, quo, rem, m);
    ScaleScale(K, l, m, f);
    ScaleMul(K, l, q, g);
    ScalePoly(K, l, q);
    ScalePoly(K, m, quo);
    ScalePoly(K, m, rem);
    ScaleLen(K, m, rem);
    assert m * l == K.mul(l, m);
    ExactMeetsPseudo(g, ScaleBy(l, q), ScaleBy(m, quo), ScaleBy(m, rem));
  }

  lemma MultipleTooShort(d: IntPoly, g: IntPoly, r: IntPoly)
    requires IsIntPoly(d) && IsIntPoly(g) && IsIntPoly(r) && |r| < |g|
    requires Times(d, g) == PSub(Integers(), r, [])
    ensures r == []
  {
    IntegersAreDomain();
    if d != [] {
      PMulLen(Integers(), d, g);
    }
  }

  /** Some non-zero integer multiple of f is a multiple of g: g divides f over the rationals. */
  ghost predicate DividesOverQ(f: IntPoly, g: IntPoly) {
    exists m, q {:trigger ScaleBy(m, f), Times(q, g)} :: m != 0 && IsIntPoly(q) && ScaleBy(m, f) == Times(q, g)
  }

  lemma DividesOverQIntro(f: IntPoly, g: IntPoly, m: int, q: IntPoly)
    requires m != 0 && IsIntPoly(q) && ScaleBy(m, f) == Times(q, g)
    ensures DividesOverQ(f, g)
  {}

  /** The quotient f / g with its denominators cleared: the least l > 0 with an integral l f / g,
      and that polynomial. */
  ghost predicate ClearedQuotient(f: IntPoly, g: IntPoly, l: int, q: IntPoly) {
    IsIntPoly(q) && l > 0 && Reduced(l, q) && ScaleBy(l, f) == Times(q, g)
  }

  /** q is the cleared quotient for some scale. */
  ghost predicate IsCleared(f: IntPoly, g: IntPoly, q: IntPoly) {
    exists l :: ClearedQuotient(f, g, l, q)
  }

  lemma ClearedIntro(f: IntPoly, g: IntPoly, l: int, q: IntPoly)
    requires ClearedQuotient(f, g, l, q)
    ensures IsCleared(f, g, q)
  {}

  /** Exact division: succeeds exactly when g divides f over the rationals, and returns the quotient
      with its denominators cleared; that is the quotient itself exactly when the content of g divides the
      content of f. */
  method ExactDivide(f: IntPoly, g: IntPoly) returns (r: Option<IntPoly>, ghost l: int)
    requires IsIntPoly(f) && IsIntPoly(g)
    ensures r.Some? <==> g != [] && DividesOverQ(f, g)
    ensures r.Some? ==> ClearedQuotient(f, g, l, r.value) && IsCleared(f, g, r.value)
    ensures r.Some? ==> (f == Times(r.value, g) <==> Div(Content(g), Content(f)))
  {
    if g == [] { return None, 1; }
    var scale, quo, rem := 1, [], f;
    PseudoStart(f, g);
    while |rem| >= |g|
      invariant PseudoState(f, g, scale, quo, rem)
      decreases |rem|
    {
      PseudoStep(f, g, scale, quo, rem);
      scale, quo, rem := g[|g| - 1] * scale, StepQuotient(g, quo, rem), StepRemainder(g, rem);
    }
    if DividesOverQ(f, g) {
      ghost var m, q :| m != 0 && IsIntPoly(q) && ScaleBy(m, f) == Times(q, g);
      RemainderVanishes(f, g, scale, quo, rem, m, q);
    }
    if rem != [] { return None, 1; }
    PMulPoly(Integers(), quo, g) by { IntegersAreDomain(); }
    AddZero(PolyRing(Integers()), Times(quo, g)) by { IntegersAreDomain(); PolyRingIsRing(Integers()); }
    DividesOverQIntro(f, g, scale, quo);
    var q;
    q, l := ClearDenominators(f, g, scale, quo);
    ExactIff(f, g, l, q);
    r := Some(q);
  }

  // ----- when the cleared quotient is the quotient -----

  // a common divisor taken out
  lemma Divided(p: IntPoly, c: int) returns (r: IntPoly)
    requires IsIntPoly(p) && c != 0 && AllDiv(c, p)
    ensures IsIntPoly(r) && |r| == |p| && ScaleBy(c, r) == p
    ensures forall i :: 0 <= i < |p| ==> p[i] == c * r[i]
  {
    r := seq(|p|, i requires 0 <= i < |p| => p[i] / c);
    forall i | 0 <= i < |p| ensures p[i] == c * r[i] { DivRemainder(c, p[i]); }
    ScaledEntries(c, r, p);
  }

  lemma ContentOut(g: IntPoly) returns (h: IntPoly)
    requires IsIntPoly(g) && g != []
    ensures Content(g) > 0 && IsIntPoly(h) && ScaleBy(Content(g), h) == g && Primitive(h)
  {
    var c: int := Content(g);
    ContentPositive(g);
    DivSelf(c);
    ContentUniversal(g, c);
    h := Divided(g, c);
    forall d | Div(d, 0 * c) && AllDiv(d, g) ensures Div(d, c) { ContentUniversal(g, d); }
    ContentRemoved(g, h, 0, c);
    forall d ensures Div(d, 0) { DivSelf(d); }
  }

  // q (c h) == c (q h)
  lemma TimesScaled(q: IntPoly, c: int, h: IntPoly)
    requires IsIntPoly(q) && IsIntPoly(h)
    ensures Times(q, ScaleBy(c, h)) == ScaleBy(c, Times(q, h))
  {
    IntegersAreDomain();
    ScalePoly(Integers(), c, h);
    TimesComm(q, ScaleBy(c, h));
    ScaleMul(Integers(), c, h, q);
    TimesComm(h, q);
  }

  // the content of a divisor over the integers divides every coefficient of the multiple
  lemma ContentOfMultiple(q: IntPoly, g: IntPoly)
    requires IsIntPoly(q) && IsIntPoly(g) && g != []
    ensures Div(Content(g), Content(Times(q, g)))
  {
    var c: int := Content(g);
    var h := ContentOut(g);
    TimesScaled(q, c, h);
    DivSelf(c);
    AllDivScale(c, c, Times(q, h));
    ContentUniversal(Times(q, g), c);
  }

  // when the content of g divides f, both can be divided by it, and Gauss's lemma applies
  lemma ContentDivides(f: IntPoly, g: IntPoly, l: int, q: IntPoly)
    requires IsIntPoly(f) && IsIntPoly(g) && g != [] && ClearedQuotient(f, g, l, q)
    requires Div(Content(g), Content(f))
    ensures l == 1 && f == Times(q, g)
  {
    hide Times, ScaleBy, Primitive, Reduced, Content, AllDiv, IsIntPoly;
    var c: int := Content(g);
    var h := ContentOut(g);
    ContentUniversal(f, c);
    var e := Divided(f, c);
    TimesScaled(q, c, h);
    ScaleBack(c, l, e, Times(q, h)) by { TimesIs(q, h); }
    GaussExact(e, h, l, q);
  }

  lemma TimesIs(p: IntPoly, q: IntPoly)
    requires IsIntPoly(p) && IsIntPoly(q)
    ensures IsIntPoly(Times(p, q))
  {
    IntegersAreDomain();
    PMulPoly(Integers(), p, q);
  }

  // l (c e) == c u implies l e == u
  lemma ScaleBack(c: int, l: int, e: IntPoly, u: IntPoly)
    requires IsIntPoly(e) && IsIntPoly(u) && c != 0 && ScaleBy(l, ScaleBy(c, e)) == ScaleBy(c, u)
    ensures ScaleBy(l, e) == u
  {
    IntegersAreDomain();
    var K := Integers();
    ScaleScale(K, l, c, e);
    ScaleScale(K, c, l, e);
    MulComm(K, l, c);
    ScalePoly(K, l, e);
    ScaleInjective(c, ScaleBy(l, e), u);
  }

  /** What exact division returns is the quotient itself exactly when the content of the divisor divides the
      content of the dividend. */
  lemma ExactIff(f: IntPoly, g: IntPoly, l: int, q: IntPoly)
    requires IsIntPoly(f) && IsIntPoly(g) && g != [] && ClearedQuotient(f, g, l, q)
    ensures f == Times(q, g) <==> Div(Content(g), Content(f))
    ensures l == 1 <==> Div(Content(g), Content(f))
  {
    hide Times, Reduced, Content;
    if Div(Content(g), Content(f)) {
      ContentDivides(f, g, l, q);
    } else {
      ContentOfMultiple(q, g);
      IntegersAreDomain();
      ScaleOne(Integers(), f);
    }
  }

  /** The condition can fail: x divided by 2 x is reported as 1, and 1 times 2 x is not x. */
  lemma ExactDivideScales()
    ensures IsIntPoly([0, 1]) && IsIntPoly([0, 2])
    ensures ClearedQuotient([0, 1], [0, 2], 2, [1]) && Times([1], [0, 2]) == [0, 2]
    ensures !Div(Content([0, 2]), Content([0, 1]))
  {
    IntegersAreDomain();
    ScaledEntries(2, [0, 1], [0, 2]);
    ConstMul(Integers(), 1, [0, 2]);
    ScaleOne(Integers(), [0, 2]);
    forall d | d > 1 && AllDiv(d, [1]) ensures false {
      assert Div(d, [1][0]);
      DivBound(d, 1);
    }
    ExactIff([0, 1], [0, 2], 2, [1]);
  }

  /** Divides a scaled quotient by everything it has in common with its scale. */
  method ClearDenominators(f: IntPoly, g: IntPoly, scale: int, quo: IntPoly) returns (q: IntPoly, ghost l: int)
    requires IsIntPoly(f) && IsIntPoly(g) && IsIntPoly(quo) && scale != 0 && ScaleBy(scale, f) == Times(quo, g)
    ensures ClearedQuotient(f, g, l, q) && IsCleared(f, g, q)
  {
    hide IsCleared;
    var content := Content(quo);
    var common: int := Gcd(Abs(scale), content);
    ghost var s, t := GcdBezout(Abs(scale), content);
    ContentUniversal(quo, common);
    DivNeg(common, scale);
    var c: int := if scale > 0 then common else 0 - common;
    forall i | 0 <= i < |quo| ensures Div(c, quo[i]) { DivNeg(common, quo[i]); }
    q := DivideByScalar(quo, c);
    DivNeg(common, scale);
    l := DivQuotient(c, scale);
    forall d | Div(d, l * c) && AllDiv(d, quo) ensures Div(d, c) {
      ContentUniversal(quo, d);
      DivNeg(d, scale);
      GcdUniversal(Abs(scale), content, d);
      DivNeg(d, c);
    }
    ContentRemoved(quo, q, l, c);
    SameSign(l, c);
    ScaleCancels(f, g, l, c, q);
    ClearedIntro(f, g, l, q);
  }

  lemma SameSign(l: int, c: int)
    requires l * c > 0 <==> c > 0
    requires l * c != 0
    ensures l > 0
  {
  }

  // c (l f) == c (q g) implies l f == q g
  lemma ScaleCancels(f: IntPoly, g: IntPoly, l: int, c: int, q: IntPoly)
    requires IsIntPoly(f) && IsIntPoly(g) && IsIntPoly(q) && c != 0
    requires ScaleBy(l * c, f) == Times(ScaleBy(c, q), g)
    ensures ScaleBy(l, f) == Times(q, g)
  {
    IntegersAreDomain();
    var K := Integers();
    MulComm(K, l, c);
    ScaleScale(K, c, l, f);
    ScaleMul(K, c, q, g);
    PMulPoly(K, q, g);
    ScalePoly(K, l, f);
    ScaleInjective(c, ScaleBy(l, f), Times(q, g));
  }

  lemma ScaleInjective(c: int, p: IntPoly, q: IntPoly)
    requires IsIntPoly(p) && IsIntPoly(q) && c != 0 && ScaleBy(c, p) == ScaleBy(c, q)
    ensures p == q
  {
    IntegersAreDomain();
    var K := Integers();
    forall i: nat ensures Coeff(K, p, i) == Coeff(K, q, i) {
      CoeffScale(K, c, p, i);
      CoeffScale(K, c, q, i);
      CancelLeft(K, c, Coeff(K, p, i), Coeff(K, q, i));
    }
    SameCoeffs(K, p, q);
  }
}
