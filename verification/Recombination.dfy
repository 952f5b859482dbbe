/** The Zassenhaus subset search, and the test that certifies a factor. */
module Recombination {
  import opened Rings
  import opened Polys
  import opened Numbers
  import opened IntPolys
  import opened Powers
  import SquareFreeLoop

  // ----- certifying a candidate -----

  /** c is a primitive divisor of f in Z[x], neither constant nor as long as f. */
  ghost predicate Certified(f: IntPoly, c: IntPoly) {
    && IsIntPoly(c) && Primitive(c) && 2 <= |c| < |f|
    && exists q {:trigger Times(q, c)} :: IsIntPoly(q) && f == Times(q, c)
  }

  /** A primitive polynomial that divides over the rationals divides over the integers. */
  lemma {:induction false} PrimitiveDivides(f: IntPoly, c: IntPoly, l: int, quo: IntPoly)
    requires IsIntPoly(f) && IsIntPoly(c) && Primitive(c) && IsIntPoly(quo)
    requires l != 0 && ScaleBy(l, f) == Times(quo, c)
    ensures exists q {:trigger Times(q, c)} :: IsIntPoly(q) && f == Times(q, c)
    decreases Abs(l), l < 0
  {
    hide Times, ScaleBy, IsIntPoly, Primitive;
    if l == 1 {
      UnitScale(f);
    } else if l < 0 {
      NegateBoth(f, c, l, quo);
      PrimitiveDivides(f, c, -l, ScaleBy(-1, quo));
    } else {
      var r := PrimeFactor(l);
      PrimeOut(f, c, l, quo, r);
      var next := DivideByScalarLemma(quo, r);
      var m := DivQuotient(r, l);
      CancelPrime(f, c, m, next, r, quo);
      SmallerScale(l, m, r);
      PrimitiveDivides(f, c, m, next);
    }
  }

  lemma UnitScale(f: IntPoly)
    requires IsIntPoly(f)
    ensures ScaleBy(1, f) == f
  {
    IntegersAreDomain();
    ScaleOne(Integers(), f);
  }

  lemma NegateBoth(f: IntPoly, c: IntPoly, l: int, quo: IntPoly)
    requires IsIntPoly(f) && IsIntPoly(c) && IsIntPoly(quo) && ScaleBy(l, f) == Times(quo, c)
    ensures IsIntPoly(ScaleBy(-1, quo)) && ScaleBy(-l, f) == Times(ScaleBy(-1, quo), c)
  {
    IntegersAreDomain();
    ScaleScale(Integers(), -1, l, f);
    ScaleMul(Integers(), -1, quo, c);
    ScalePoly(Integers(), -1, quo);
    assert Integers().mul(-1, l) == -l;
  }

  // Gauss's lemma: a prime of l divides the quotient
  lemma PrimeOut(f: IntPoly, c: IntPoly, l: int, quo: IntPoly, r: int)
    requires IsIntPoly(f) && IsIntPoly(c) && Primitive(c) && IsIntPoly(quo) && ScaleBy(l, f) == Times(quo, c)
    requires Prime(r) && Div(r, l)
    ensures AllDiv(r, quo)
  {
    AllDivScale(r, l, f);
    GaussPrime(r, quo, c);
    assert r > 1;
  }

  lemma DivideByScalarLemma(p: IntPoly, r: int) returns (q: IntPoly)
    requires IsIntPoly(p) && r != 0 && AllDiv(r, p)
    ensures IsIntPoly(q) && ScaleBy(r, q) == p
  {
    q := seq(|p|, i requires 0 <= i < |p| => p[i] / r);
    forall i | 0 <= i < |p| ensures p[i] == r * q[i] {
      DivRemainder(r, p[i]);
    }
    ScaledEntries(r, q, p);
  }

  lemma CancelPrime(f: IntPoly, c: IntPoly, m: int, q: IntPoly, r: int, quo: IntPoly)
    requires IsIntPoly(f) && IsIntPoly(c) && IsIntPoly(q) && r != 0 && ScaleBy(r, q) == quo
    requires ScaleBy(m * r, f) == Times(quo, c)
    ensures ScaleBy(m, f) == Times(q, c)
  {
    ScaleCancels(f, c, m, r, q);
  }

  lemma SmallerScale(l: int, m: int, r: int)
    requires l > 1 && r > 1 && l == m * r
    ensures 0 < m < l
  {
    assert m <= 0 ==> m * r <= 0;
    assert m > 0 ==> m * (r - 2) >= 0;
  }

  /** Divisor, constant and degree guards, then the pseudo-remainder test. */
  method DividesExactly(f: IntPoly, c: IntPoly) returns (r: bool)
    requires IsIntPoly(f) && IsIntPoly(c)
    ensures r <==> 2 <= |c| < |f| && DividesOverQ(f, c)
  {
    hide Times, ScaleBy, DividesOverQ, PseudoState, IPow;
    if |c| <= 1 || |c| >= |f| { return false; }
    var rem, l, quo := SquareFreeLoop.PseudoRemainder(f, c);
    r := rem == [];
    if r { ExactOverQ(f, c, l, quo); }
    if DividesOverQ(f, c) { RemainderIsZero(f, c, l, quo, rem); }
  }

  lemma ExactOverQ(f: IntPoly, c: IntPoly, l: int, quo: IntPoly)
    requires IsIntPoly(f) && IsIntPoly(c) && PseudoState(f, c, l, quo, [])
    ensures DividesOverQ(f, c) && l != 0 && IsIntPoly(quo) && ScaleBy(l, f) == Times(quo, c)
  {
    IntegersAreDomain();
    PolyRingIsRing(Integers());
    PMulPoly(Integers(), quo, c);
    AddZero(PolyRing(Integers()), Times(quo, c));
    DividesOverQIntro(f, c, l, quo);
  }

  lemma RemainderIsZero(f: IntPoly, c: IntPoly, l: int, quo: IntPoly, rem: IntPoly)
    requires IsIntPoly(f) && IsIntPoly(c) && c != [] && PseudoState(f, c, l, quo, rem) && |rem| < |c|
    requires DividesOverQ(f, c)
    ensures rem == []
  {
    var m, q :| m != 0 && IsIntPoly(q) && ScaleBy(m, f) == Times(q, c);
    RemainderVanishes(f, c, l, quo, rem, m, q);
  }

  method ExceedsBound(c: IntPoly, bound: int) returns (r: bool)
    ensures r <==> exists k :: 0 <= k < |c| && Abs(c[k]) > bound
  {
    for k := 0 to |c|
      invariant forall j :: 0 <= j < k ==> Abs(c[j]) <= bound
    {
      if Abs(c[k]) > bound { return true; }
    }
    r := false;
  }

  /** c is the primitive part of p, with positive leading coefficient. */
  ghost predicate IsPrimitivePart(p: IntPoly, c: IntPoly) {
    && IsIntPoly(c) && Primitive(c) && c[|c| - 1] > 0
    && exists s {:trigger ScaleBy(s, c)} :: s != 0 && ScaleBy(s, c) == p
  }

  /** There is only one. */
  lemma PrimitivePartUnique(p: IntPoly, c: IntPoly, d: IntPoly)
    requires IsIntPoly(p) && IsPrimitivePart(p, c) && IsPrimitivePart(p, d)
    ensures c == d
  {
    hide Content, ScaleBy;
    var s :| s != 0 && ScaleBy(s, c) == p;
    var t :| t != 0 && ScaleBy(t, d) == p;
    SameLength(p, c, s);
    SameLength(p, d, t);
    ContentOfScaled(p, c, s);
    ContentOfScaled(p, d, t);
    var n := |p| - 1;
    ScaledAt(s, c, p, n);
    ScaledAt(t, d, p, n);
    SameSign(s, c[n], t, d[n]);
    forall k | 0 <= k < |p| ensures c[k] == d[k] {
      ScaledAt(s, c, p, k);
      ScaledAt(t, d, p, k);
      CancelFactor(s, c[k], d[k]);
    }
  }

  lemma SameLength(p: IntPoly, c: IntPoly, s: int)
    requires IsIntPoly(p) && IsIntPoly(c) && c != [] && s != 0 && ScaleBy(s, c) == p
    ensures |p| == |c|
  {
    IntegersAreDomain();
    ScaleTop(Integers(), s, c);
  }

  lemma SameSign(s: int, x: int, t: int, y: int)
    requires Abs(s) == Abs(t) && x > 0 && y > 0 && s * x == t * y && s != 0
    ensures s == t
  {
    SignOfProduct(s, x);
    SignOfProduct(t, y);
  }

  lemma SignOfProduct(s: int, x: int)
    requires x > 0
    ensures s > 0 <==> s * x > 0
  {
    if s > 0 { LargerProduct(x, s, 0); } else { LargerOrEqual(x, 0, s); }
  }

  lemma CancelFactor(s: int, x: int, y: int)
    requires s != 0 && s * x == s * y
    ensures x == y
  {
    assert s * (x - y) == 0;
  }

  /** What the test asks of a centred product. */
  ghost predicate CandidatePasses(f: IntPoly, centred: IntPoly, maxDegree: nat, bound: int) {
    |centred| - 1 <= maxDegree && 2 <= |centred| < |f| && DividesOverQ(f, centred) && !TooLarge(centred, bound)
  }

  /** The end of check_subset, on the centred product of the subset: primitive part, degree cap,
      coefficient bound, exact division.  Whatever is returned is a factor of f in Z[x]. */
  method CheckCandidate(f: IntPoly, centred: IntPoly, maxDegree: nat, bound: int) returns (r: Option<IntPoly>)
    requires IsIntPoly(f) && IsIntPoly(centred) && centred != []
    ensures r.Some? ==> Certified(f, r.value) && |r.value| - 1 <= maxDegree
    ensures r.Some? ==> IsPrimitivePart(centred, r.value)
    ensures r.Some? <==> CandidatePasses(f, centred, maxDegree, bound)
  {
    hide Times, ScaleBy, DividesOverQ, Primitive, IsIntPoly;
    var c;
    ghost var s;
    c, s := PrimitivePart(centred);
    SameOverQ(f, centred, c, s);
    if |c| - 1 > maxDegree { return None; }
    var large := ExceedsBound(c, bound);
    LargeIsTooLarge(centred, c, s, bound);
    if large { return None; }
    var exact := DividesExactly(f, c);
    if !exact { return None; }
    ghost var l, quo := OverQ(f, c);
    PrimitiveDivides(f, c, l, quo);
    r := Some(c);
  }

  lemma OverQ(f: IntPoly, c: IntPoly) returns (l: int, quo: IntPoly)
    requires DividesOverQ(f, c)
    ensures l != 0 && IsIntPoly(quo) && ScaleBy(l, f) == Times(quo, c)
  {
    l, quo :| l != 0 && IsIntPoly(quo) && ScaleBy(l, f) == Times(quo, c);
  }

  /** Some coefficient is more than bound times what is common to all of them. */
  ghost predicate TooLarge(p: IntPoly, bound: int) {
    exists k :: 0 <= k < |p| && Abs(p[k]) > bound * Content(p)
  }

  // p and its primitive part divide the same polynomials over the rationals
  lemma SameOverQ(f: IntPoly, p: IntPoly, c: IntPoly, s: int)
    requires IsIntPoly(f) && IsIntPoly(p) && IsIntPoly(c) && s != 0 && ScaleBy(s, c) == p
    ensures DividesOverQ(f, c) <==> DividesOverQ(f, p)
  {
    IntegersAreDomain();
    var K := Integers();
    if DividesOverQ(f, c) {
      var m, q := OverQ(f, c);
      ScaleScale(K, s, m, f);
      PMulComm(K, q, c);
      ScaleMul(K, s, c, q);
      PMulComm(K, p, q);
      NonZeroProduct(s, m);
      DividesOverQIntro(f, p, s * m, q);
    }
    if DividesOverQ(f, p) {
      var m, q := OverQ(f, p);
      PMulComm(K, q, p);
      ScaleMul(K, s, c, q);
      PMulComm(K, c, q);
      ScaleMul(K, s, q, c);
      ScalePoly(K, s, q);
      DividesOverQIntro(f, c, m, ScaleBy(s, q));
    }
  }

  lemma LargeIsTooLarge(p: IntPoly, c: IntPoly, s: int, bound: int)
    requires IsIntPoly(p) && IsIntPoly(c) && s != 0 && ScaleBy(s, c) == p && |c| == |p| && Primitive(c)
    ensures (exists k :: 0 <= k < |c| && Abs(c[k]) > bound) <==> TooLarge(p, bound)
  {
    ContentOfScaled(p, c, s);
    forall k | 0 <= k < |p| ensures Abs(c[k]) > bound <==> Abs(p[k]) > bound * Content(p) {
      ScaledAt(s, c, p, k);
      AbsScaled(s, c[k], bound);
    }
  }

  lemma ScaledAt(s: int, c: IntPoly, p: IntPoly, k: nat)
    requires IsIntPoly(c) && ScaleBy(s, c) == p && k < |p| && |p| == |c|
    ensures p[k] == s * c[k]
  {
    IntegersAreDomain();
    Vectors.CoeffScale(Integers(), s, c, k);
  }

  lemma AbsScaled(s: int, x: int, bound: int)
    requires s != 0
    ensures Abs(x) > bound <==> Abs(s * x) > bound * Abs(s)
  {
    AbsTimes(s, x);
    Monotone(Abs(s), Abs(x), bound);
  }

  lemma AbsTimes(s: int, x: int)
    ensures Abs(s * x) == Abs(s) * Abs(x)
  {
    Signs(s, x);
    if s >= 0 && x >= 0 { NatProduct(s, x); }
    if s < 0 && x >= 0 { NatProduct(-s, x); }
    if s >= 0 && x < 0 { NatProduct(s, -x); }
    if s < 0 && x < 0 { NatProduct(-s, -x); }
  }

  lemma Signs(s: int, x: int)
    ensures (-s) * x == -(s * x) && s * (-x) == -(s * x) && (-s) * (-x) == s * x
  {}

  lemma NatProduct(s: nat, x: nat)
    ensures s * x >= 0
  {}

  lemma Monotone(s: nat, x: int, b: int)
    requires s > 0
    ensures x > b <==> s * x > b * s
  {
    if x > b { LargerProduct(s, x, b); } else { LargerOrEqual(s, b, x); }
  }

  lemma LargerProduct(s: nat, x: int, b: int)
    requires s > 0 && x > b
    ensures s * x > b * s
  {
    assert s * (x - b) > 0;
    assert s * (x - b) == s * x - b * s;
  }

  lemma LargerOrEqual(s: nat, x: int, b: int)
    requires x >= b
    ensures x * s >= s * b
  {
    assert s * (x - b) >= 0;
    assert s * (x - b) == x * s - s * b;
  }

  /** The content of s times a primitive polynomial is |s|. */
  lemma ContentOfScaled(p: IntPoly, c: IntPoly, s: int)
    requires IsIntPoly(p) && IsIntPoly(c) && s != 0 && ScaleBy(s, c) == p && |c| == |p| && Primitive(c)
    ensures Content(p) == Abs(s)
  {
    hide Primitive, Content;
    forall d ensures Div(d, Content(p)) <==> Div(d, Abs(s)) {
      ContentUniversal(p, d);
      DivNeg(d, s);
      if Div(d, s) { AllDivScale(d, s, c); }
      if AllDiv(d, p) { PrimitiveScale(p, c, s, d); }
    }
    SameDivisors(Content(p), Abs(s));
  }

  // what divides every coefficient of s c divides s when c is primitive
  lemma {:induction false} PrimitiveScale(p: IntPoly, c: IntPoly, s: int, d: int)
    requires IsIntPoly(p) && IsIntPoly(c) && s != 0 && ScaleBy(s, c) == p && |c| == |p| && Primitive(c) && AllDiv(d, p)
    ensures Div(d, s)
  {
    // the content of c is one, so one is a combination of its coefficients
    PrimitiveContent(c);
    var w := Weights(c);
    WeightedScale(p, c, w, s, d);
  }

  lemma PrimitiveContent(c: IntPoly)
    requires IsIntPoly(c) && Primitive(c)
    ensures Content(c) == 1
  {
    ContentPositive(c);
    ContentUniversal(c, Content(c));
    DivSelf(Content(c));
  }

  ghost function Weighted(c: seq<int>, w: seq<int>): int
    requires |w| == |c|
  {
    if c == [] then 0 else w[0] * c[0] + Weighted(c[1..], w[1..])
  }

  lemma {:induction false} ScaleWeights(c: seq<int>, w: seq<int>, t: int) returns (v: seq<int>)
    requires |w| == |c|
    ensures |v| == |c| && Weighted(c, v) == t * Weighted(c, w)
  {
    if c == [] {
      v := [];
    } else {
      var u := ScaleWeights(c[1..], w[1..], t);
      v := [t * w[0]] + u;
      assert v[1..] == u;
      Spread(t, w[0], c[0], Weighted(c[1..], w[1..]));
    }
  }

  lemma Spread(t: int, a: int, b: int, c: int)
    ensures (t * a) * b + t * c == t * (a * b + c)
  {
    assert (t * a) * b == t * (a * b);
  }

  /** The content is a combination of the coefficients. */
  lemma {:induction false} Weights(c: seq<int>) returns (w: seq<int>)
    ensures |w| == |c| && Weighted(c, w) == Content(c)
  {
    if c == [] {
      w := [];
    } else {
      var u := Weights(c[1..]);
      var x, y := ContentStep(c);
      var v := ScaleWeights(c[1..], u, y);
      w := [x] + v;
      assert w[1..] == v;
    }
  }

  lemma ContentStep(c: seq<int>) returns (x: int, y: int)
    requires c != []
    ensures x * c[0] + y * Content(c[1..]) == Content(c)
  {
    x, y := GcdBezout(Abs(c[0]), Content(c[1..]));
    if c[0] < 0 {
      assert (-x) * c[0] == x * (-c[0]);
      x := -x;
    }
  }

  lemma {:induction false} WeightedDivides(p: seq<int>, w: seq<int>, d: int)
    requires |w| == |p| && AllDiv(d, p)
    ensures Div(d, Weighted(p, w))
  {
    if p == [] {
      DivSelf(d);
    } else {
      assert forall i :: 0 <= i < |p[1..]| ==> p[1..][i] == p[i + 1];
      WeightedDivides(p[1..], w[1..], d);
      DivTimes(d, p[0], w[0]);
      assert p[0] * w[0] == w[0] * p[0];
      DivSum(d, w[0] * p[0], Weighted(p[1..], w[1..]));
    }
  }

  lemma {:induction false} WeightedOfScaled(p: seq<int>, c: seq<int>, w: seq<int>, s: int)
    requires |w| == |c| == |p| && forall i :: 0 <= i < |p| ==> p[i] == s * c[i]
    ensures Weighted(p, w) == s * Weighted(c, w)
  {
    if p != [] {
      WeightedOfScaled(p[1..], c[1..], w[1..], s);
      assert p[0] == s * c[0];
      Pull(w[0], s, c[0], Weighted(c[1..], w[1..]));
    }
  }

  lemma Pull(a: int, s: int, b: int, c: int)
    ensures a * (s * b) + s * c == s * (a * b + c)
  {
    assert a * (s * b) == s * (a * b);
  }

  lemma WeightedScale(p: IntPoly, c: IntPoly, w: seq<int>, s: int, d: int)
    requires IsIntPoly(c) && ScaleBy(s, c) == p && |c| == |p| == |w| && AllDiv(d, p) && Weighted(c, w) == 1
    ensures Div(d, s)
  {
    forall i | 0 <= i < |p| ensures p[i] == s * c[i] { ScaledAt(s, c, p, i); }
    WeightedOfScaled(p, c, w, s);
    WeightedDivides(p, w, d);
  }

  // ----- the subset search -----

  /** The degrees selected from index k on. */
  function Selected(t: seq<bool>, degrees: seq<nat>, k: nat): nat
    requires |t| == |degrees| && k <= |t|
    decreases |t| - k
  {
    if k == |t| then 0 else (if t[k] then degrees[k] else 0) + Selected(t, degrees, k + 1)
  }

  ghost predicate NoneSelected(t: seq<bool>, from: nat, to: nat) {
    forall i :: from <= i < to && i < |t| ==> !t[i]
  }

  lemma {:induction false} SelectedNone(t: seq<bool>, degrees: seq<nat>, k: nat, to: nat)
    requires |t| == |degrees| && k <= to <= |t| && NoneSelected(t, k, to)
    ensures Selected(t, degrees, k) == Selected(t, degrees, to)
    decreases |t| - k
  {
    if k < to { SelectedNone(t, degrees, k + 1, to); }
  }

  /** t selects, besides what s selects below start, something from start on, within the degree cap. */
  ghost predicate Extension(s: seq<bool>, t: seq<bool>, degrees: seq<nat>, start: nat, used: nat, maxDegree: nat)
    requires |s| == |degrees| && start <= |s|
  {
    && |t| == |s| && t[..start] == s[..start] && !NoneSelected(t, start, |t|)
    && used + Selected(t, degrees, start) <= maxDegree
  }

  // an extension whose first new index is i either is just that index or extends the selection with it
  lemma ExtensionSplits(s: seq<bool>, t: seq<bool>, degrees: seq<nat>, start: nat, i: nat, used: nat, maxDegree: nat)
    requires |s| == |degrees| && start <= i < |s| && NoneSelected(s, start, |s|)
    requires Extension(s, t, degrees, start, used, maxDegree) && NoneSelected(t, start, i) && t[i]
    ensures used + degrees[i] <= maxDegree
    ensures t == s[i := true] || Extension(s[i := true], t, degrees, i + 1, used + degrees[i], maxDegree)
  {
    SelectedNone(t, degrees, start, i);
    var u := s[i := true];
    assert t[..i + 1] == u[..i + 1] by {
      forall k | 0 <= k < i + 1 ensures t[k] == u[k] {
        if k < start { assert t[..start][k] == s[..start][k]; }
      }
    }
    if NoneSelected(t, i + 1, |t|) {
      forall k | 0 <= k < |t| ensures t[k] == u[k] {
        if k < i + 1 { assert t[..i + 1][k] == u[..i + 1][k]; }
      }
    }
  }

  lemma ExtensionJoins(s: seq<bool>, t: seq<bool>, degrees: seq<nat>, start: nat, i: nat, used: nat, maxDegree: nat)
    requires |s| == |degrees| && start <= i < |s| && NoneSelected(s, start, |s|)
    requires Extension(s[i := true], t, degrees, i + 1, used + degrees[i], maxDegree)
    ensures Extension(s, t, degrees, start, used, maxDegree)
  {
    var u := s[i := true];
    forall k | 0 <= k < i + 1 ensures t[k] == u[k] { assert t[..i + 1][k] == u[..i + 1][k]; }
    SelectedNone(t, degrees, start, i);
    assert t[..start] == s[..start];
    assert t[i];
  }

  lemma SingleExtension(s: seq<bool>, degrees: seq<nat>, start: nat, i: nat, used: nat, maxDegree: nat)
    requires |s| == |degrees| && start <= i < |s| && NoneSelected(s, start, |s|) && used + degrees[i] <= maxDegree
    ensures Extension(s, s[i := true], degrees, start, used, maxDegree)
  {
    var u := s[i := true];
    SelectedNone(u, degrees, start, i);
    SelectedNone(u, degrees, i + 1, |u|);
    assert u[..start] == s[..start];
    assert u[i];
  }

  lemma ExtensionSelects(s: seq<bool>, t: seq<bool>, degrees: seq<nat>, start: nat, used: nat, maxDegree: nat)
    requires |s| == |degrees| && start <= |s| && Extension(s, t, degrees, start, used, maxDegree)
    ensures |t| == |degrees| && !NoneSelected(t, start, |t|)
  {}

  lemma {:induction false} OneSelected(t: seq<bool>, degrees: seq<nat>, k: nat, i: nat)
    requires |t| == |degrees| && k <= i < |t| && t[i]
    ensures Selected(t, degrees, k) >= degrees[i]
    decreases |t| - k
  {
    if k < i { OneSelected(t, degrees, k + 1, i); }
  }
}
