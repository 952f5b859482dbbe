/** The loops behind the extension tower: vectors updated in place, each proved to compute the
    polynomial operation it is named after. */
module TowerLoops {
  import opened Rings
  import opened Polys
  import opened Vectors
  import opened Division
  import opened Euclid
  import opened Tower

  method PolyAdd<F(!new,==)>(K: Ring<F>, a: seq<F>, b: seq<F>) returns (r: seq<F>)
    requires IsRing(K) && AllIn(K, a) && AllIn(K, b)
    ensures AllIn(K, r)
    ensures a == [] ==> r == b
    ensures b == [] ==> r == a
    ensures a != [] && b != [] ==> r == PAdd(K, Norm(K, a), Norm(K, b))
    ensures Norm(K, r) == PAdd(K, Norm(K, a), Norm(K, b))
  {
    if a == [] { return b; }
    if b == [] { return a; }
    r := Zeros(K, if |a| < |b| then |b| else |a|);
    for i := 0 to |a|
      invariant |r| == if |a| < |b| then |b| else |a|
      invariant forall k :: 0 <= k < |r| ==> r[k] == if k < i then a[k] else K.zero
    {
      AddZero(K, a[i]);
      r := r[i := K.add(r[i], a[i])];
    }
    for i := 0 to |b|
      invariant |r| == if |a| < |b| then |b| else |a|
      invariant forall k :: 0 <= k < |r| ==>
        r[k] == if k < i then K.add(Coeff(K, a, k), b[k]) else Coeff(K, a, k)
    {
      r := r[i := K.add(r[i], b[i])];
    }
    NormIs(K, a);
    NormIs(K, b);
    var p, q := Norm(K, a), Norm(K, b);
    PAddPoly(K, p, q);
    forall k: nat ensures Coeff(K, r, k) == Coeff(K, PAdd(K, p, q), k) {
      CoeffAdd(K, p, q, k);
      assert Coeff(K, p, k) == Coeff(K, a, k) && Coeff(K, q, k) == Coeff(K, b, k);
      AddZero(K, Coeff(K, a, k));
      AddZero(K, Coeff(K, b, k));
    }
    NormOf(K, r, PAdd(K, p, q));
    r := StripTrailing(K, r);
    NormOfPoly(K, r);
  }

  method PolyNeg<F(!new,==)>(K: Ring<F>, a: seq<F>) returns (r: seq<F>)
    requires IsRing(K) && AllIn(K, a)
    ensures AllIn(K, r) && r == PNeg(K, a) && |r| == |a|
  {
    hide PNeg, IsRing;
    r := [];
    for i := 0 to |a|
      invariant AllIn(K, r) && |r| == i
      invariant r + PNeg(K, a[i..]) == PNeg(K, a)
    {
      NegStep(K, r, a, i);
      r := r + [K.neg(a[i])];
    }
    assert PNeg(K, a[|a|..]) == [];
  }

  lemma NegStep<F(!new)>(K: Ring<F>, r: seq<F>, a: seq<F>, i: nat)
    requires IsRing(K) && AllIn(K, a) && i < |a|
    ensures K.has(K.neg(a[i])) && r + [K.neg(a[i])] + PNeg(K, a[i + 1..]) == r + PNeg(K, a[i..])
  {
    assert a[i..][1..] == a[i + 1..];
    assert PNeg(K, a[i..]) == [K.neg(a[i])] + PNeg(K, a[i + 1..]);
  }

  lemma NegatedVector<F(!new)>(K: Ring<F>, v: seq<F>)
    requires IsRing(K) && AllIn(K, v)
    ensures Norm(K, PNeg(K, v)) == PNeg(K, Norm(K, v))
  {
    NormIs(K, v);
    PNegPoly(K, Norm(K, v));
    forall i: nat ensures Coeff(K, PNeg(K, v), i) == Coeff(K, PNeg(K, Norm(K, v)), i) {
      CoeffNeg(K, v, i);
      CoeffNeg(K, Norm(K, v), i);
    }
    assert AllIn(K, PNeg(K, v)) by {
      forall i | 0 <= i < |v| ensures K.has(PNeg(K, v)[i]) {
        CoeffNeg(K, v, i);
        assert Coeff(K, PNeg(K, v), i) == K.neg(v[i]);
      }
    }
    NormOf(K, PNeg(K, v), PNeg(K, Norm(K, v)));
  }

  /** The difference, stripped when neither operand is empty. */
  method PolySub<F(!new,==)>(K: Ring<F>, a: seq<F>, b: seq<F>) returns (r: seq<F>)
    requires IsRing(K) && AllIn(K, a) && AllIn(K, b)
    ensures AllIn(K, r) && Norm(K, r) == PSub(K, Norm(K, a), Norm(K, b))
    ensures a == [] ==> r == PNeg(K, b)
    ensures b == [] ==> r == a
    ensures a != [] && b != [] ==> r == PSub(K, Norm(K, a), Norm(K, b))
    ensures IsPoly(K, a) && IsPoly(K, b) ==> r == PSub(K, a, b) && IsPoly(K, r)
  {
    hide PAdd, Norm, IsRing;
    var n := PolyNeg(K, b);
    r := PolyAdd(K, a, n);
    NegatedVector(K, b);
    NormIs(K, a);
    NormIs(K, b);
    if IsPoly(K, a) && IsPoly(K, b) { StrippedDifference(K, a, b, n, r); }
  }

  lemma StrippedDifference<F(!new)>(K: Ring<F>, a: seq<F>, b: seq<F>, n: seq<F>, r: seq<F>)
    requires IsRing(K) && IsPoly(K, a) && IsPoly(K, b) && n == PNeg(K, b)
    requires (a == [] ==> r == n) && (n == [] ==> r == a)
    requires a != [] && n != [] ==> r == PAdd(K, Norm(K, a), Norm(K, n))
    ensures r == PSub(K, a, b) && IsPoly(K, r)
  {
    PNegPoly(K, b);
    NormOfPoly(K, a);
    NormOfPoly(K, n);
    PAddPoly(K, a, n);
  }

  method PolyMul<F(!new,==)>(K: Ring<F>, a: seq<F>, b: seq<F>) returns (r: seq<F>)
    requires IsRing(K) && AllIn(K, a) && AllIn(K, b)
    ensures r == PMul(K, Norm(K, a), Norm(K, b)) && IsPoly(K, r)
  {
    NormIs(K, a);
    NormIs(K, b);
    var q := Norm(K, b);
    PMulPoly(K, Norm(K, a), q);
    if a == [] || b == [] {
      PMulPoly(K, Norm(K, a), []);
      return [];
    }
    r := Zeros(K, |a| + |b| - 1);
    assert a[..0] == [];
    for i := 0 to |a|
      invariant |r| == |a| + |b| - 1 && AllIn(K, r) && AllIn(K, a[..i])
      invariant forall k: nat :: Coeff(K, r, k) == Coeff(K, PMul(K, Norm(K, a[..i]), q), k)
      invariant forall k :: i + |b| - 1 <= k < |r| ==> r[k] == K.zero
    {
      ghost var before := r;
      for j := 0 to |b|
        invariant |r| == |before| && AllIn(K, r)
        invariant forall k :: 0 <= k < |r| ==>
          r[k] == if i <= k < i + j then K.add(before[k], K.mul(a[i], b[k - i])) else before[k]
      {
        r := r[i + j := K.add(r[i + j], K.mul(a[i], b[j]))];
      }
      AddRow(K, before, r, a, i, b);
    }
    assert a[..|a|] == a;
    NormOf(K, r, PMul(K, Norm(K, a), q));
    r := StripTrailing(K, r);
  }

  lemma AddRow<F(!new)>(K: Ring<F>, before: seq<F>, r: seq<F>, a: seq<F>, i: nat, b: seq<F>)
    requires IsRing(K) && AllIn(K, a) && AllIn(K, b) && b != [] && i < |a|
    requires |r| == |before| == |a| + |b| - 1 && AllIn(K, r) && AllIn(K, before)
    requires forall k :: 0 <= k < |r| ==>
      r[k] == if i <= k < i + |b| then K.add(before[k], K.mul(a[i], b[k - i])) else before[k]
    requires forall k: nat :: Coeff(K, before, k) == Coeff(K, PMul(K, Norm(K, a[..i]), Norm(K, b)), k)
    ensures forall k: nat :: Coeff(K, r, k) == Coeff(K, PMul(K, Norm(K, a[..i + 1]), Norm(K, b)), k)
  {
    hide Scale, ShiftN, PMul, PAdd, Norm, IsRing;
    var (q, v) := (Norm(K, b), a[..i]);
    NormIs(K, b);
    NormIs(K, v);
    assert a[..i + 1] == v + [a[i]];
    PMulSnoc(K, v, a[i], q);
    var m := PMul(K, Norm(K, v), q);
    PMulPoly(K, Norm(K, v), q);
    forall k: nat ensures Coeff(K, r, k) == Coeff(K, PAdd(K, m, ShiftN(K, i, Scale(K, a[i], q))), k) {
      assert Coeff(K, before, k) == Coeff(K, m, k);
      AddRowAt(K, before, r, m, a[i], i, b, k);
    }
  }

  lemma AddRowAt<F(!new)>(K: Ring<F>, before: seq<F>, r: seq<F>, m: seq<F>, f: F, i: nat, b: seq<F>, k: nat)
    requires IsRing(K) && IsPoly(K, m) && AllIn(K, b) && K.has(f) && b != []
    requires |r| == |before| >= i + |b|
    requires k < |r| ==> r[k] == if i <= k < i + |b| then K.add(before[k], K.mul(f, b[k - i])) else before[k]
    requires Coeff(K, before, k) == Coeff(K, m, k)
    ensures Coeff(K, r, k) == Coeff(K, PAdd(K, m, ShiftN(K, i, Scale(K, f, Norm(K, b)))), k)
  {
    hide Scale, ShiftN, PAdd, Norm;
    var q := Norm(K, b);
    NormIs(K, b);
    var s := Scale(K, f, q);
    ScalePoly(K, f, q);
    CoeffShiftN(K, i, s, k);
    CoeffAdd(K, m, ShiftN(K, i, s), k);
    AddZero(K, Coeff(K, m, k));
    if k >= i {
      CoeffScale(K, f, q, k - i);
      assert Coeff(K, q, k - i) == Coeff(K, b, k - i);
      MulZero(K, f);
    }
  }

  // ----- division -----

  /** The stripped result of subtracting f x^shift b from a, coefficient by coefficient. */
  lemma RowSubtracted<F(!new)>(K: Ring<F>, a: seq<F>, r: seq<F>, b: seq<F>, f: F, shift: nat)
    requires IsRing(K) && IsPoly(K, a) && AllIn(K, r) && IsPoly(K, b) && K.has(f)
    requires |r| == |a| == |b| + shift
    requires forall k :: 0 <= k < |r| ==>
      r[k] == if k < shift then a[k] else Sub(K, a[k], K.mul(f, b[k - shift]))
    ensures Norm(K, r) == PSub(K, a, ShiftN(K, shift, Scale(K, f, b)))
  {
    hide Scale, ShiftN, PAdd, PNeg, Norm;
    var s := Scale(K, f, b);
    ScalePoly(K, f, b);
    CoeffShiftN(K, shift, s, 0);
    PNegPoly(K, ShiftN(K, shift, s));
    PAddPoly(K, a, PNeg(K, ShiftN(K, shift, s)));
    var d := PSub(K, a, ShiftN(K, shift, s));
    forall k: nat ensures Coeff(K, r, k) == Coeff(K, d, k) { RowEntry(K, a, r, b, f, shift, k); }
    NormOf(K, r, d);
  }

  lemma RowEntry<F(!new)>(K: Ring<F>, a: seq<F>, r: seq<F>, b: seq<F>, f: F, shift: nat, k: nat)
    requires IsRing(K) && IsPoly(K, a) && IsPoly(K, b) && K.has(f) && |r| == |a| == |b| + shift
    requires k < |r| ==> r[k] == if k < shift then a[k] else Sub(K, a[k], K.mul(f, b[k - shift]))
    ensures Coeff(K, r, k) == Coeff(K, PSub(K, a, ShiftN(K, shift, Scale(K, f, b))), k)
  {
    hide Scale, ShiftN, PSub, IsRing;
    var s := Scale(K, f, b);
    ScalePoly(K, f, b);
    CoeffShiftN(K, shift, s, k);
    CoeffSub(K, a, ShiftN(K, shift, s), k);
    SubZero(K, Coeff(K, a, k));
    if k >= shift {
      CoeffScale(K, f, b, k - shift);
      MulZero(K, f);
    }
  }

  /** The inner loop: subtracts f x^shift b from a in place, then strips. */
  method SubtractRow<F(!new,==)>(K: Ring<F>, a: seq<F>, b: seq<F>, f: F, shift: nat) returns (r: seq<F>)
    requires IsRing(K) && IsPoly(K, a) && IsPoly(K, b) && K.has(f) && |a| == |b| + shift && b != []
    ensures r == PSub(K, a, ShiftN(K, shift, Scale(K, f, b))) && IsPoly(K, r)
    ensures a[|a| - 1] == K.mul(f, b[|b| - 1]) ==> |r| < |a|
  {
    var v := a;
    for i := 0 to |b|
      invariant |v| == |a| && AllIn(K, v)
      invariant forall k :: 0 <= k < |v| ==>
        v[k] == if shift <= k < shift + i then Sub(K, a[k], K.mul(f, b[k - shift])) else a[k]
    {
      v := v[shift + i := Sub(K, v[shift + i], K.mul(f, b[i]))];
    }
    RowSubtracted(K, a, v, b, f, shift);
    r := StripTrailing(K, v);
    AddNeg(K, a[|a| - 1]);
    assert Coeff(K, r, |a| - 1) == Coeff(K, v, |a| - 1);
  }

  // writing f at a place above which the quotient is filled and at or below which it is zero
  lemma QuotientGains<F(!new)>(K: Ring<F>, q: seq<F>, f: F, shift: nat)
    requires IsRing(K) && AllIn(K, q) && K.has(f) && shift < |q| && q[shift] == K.zero
    ensures AllIn(K, q[shift := f])
    ensures Norm(K, q[shift := f]) == PAdd(K, Norm(K, q), ShiftN(K, shift, Const(K, f)))
  {
    NormIs(K, q);
    ConsPoly(K, f, []);
    var m := ShiftN(K, shift, Const(K, f));
    CoeffShiftN(K, shift, Const(K, f), 0);
    PAddPoly(K, Norm(K, q), m);
    var q' := q[shift := f];
    forall k: nat ensures Coeff(K, q', k) == Coeff(K, PAdd(K, Norm(K, q), m), k) {
      CoeffAdd(K, Norm(K, q), m, k);
      CoeffShiftN(K, shift, Const(K, f), k);
      assert Coeff(K, Norm(K, q), k) == Coeff(K, q, k);
      AddZero(K, Coeff(K, q, k));
      AddZero(K, f);
    }
    NormOf(K, q', PAdd(K, Norm(K, q), m));
  }

  method PolyDivMod<F(!new,==)>(K: Ring<F>, a0: seq<F>, b: seq<F>) returns (r: Option<Quotient<F>>)
    requires IsRing(K) && AllIn(K, a0) && AllIn(K, b)
    ensures r == DivMod(K, Norm(K, a0), b)
    ensures r.Some? <==> b != [] && (|Norm(K, a0)| < |b| || K.inverse(b[|b| - 1]).Some?)
    ensures r.Some? && IsPoly(K, b) ==> IsQuotient(K, Norm(K, a0), b, r.value)
  {
    if b == [] { return None; }
    var a := StripTrailing(K, a0);
    if |a| < |b| {
      if IsPoly(K, b) { DivModCorrect(K, a, b); }
      return Some(Quotient([], a));
    }
    var lead := K.inverse(b[|b| - 1]);
    if lead.None? { return None; }
    UnitTimesNonZero(K, b[|b| - 1], K.one);
    var q;
    q, a := Eliminate(K, a, b, lead.value);
    r := Some(Quotient(q, a));
  }

  /** What the elimination loop keeps: A == q b + a, with the lower places of q still free. */
  ghost predicate Eliminating<F(!new)>(K: Ring<F>, A: seq<F>, b: seq<F>, q: seq<F>, a: seq<F>) {
    && IsPoly(K, a) && AllIn(K, q) && |q| == |A| - |b| + 1 && |a| <= |A|
    && PAdd(K, PMul(K, Norm(K, q), b), a) == A
    && (forall k :: 0 <= k <= |a| - |b| ==> q[k] == K.zero)
    && (a == A || q[|q| - 1] != K.zero)
  }

  lemma EliminateStarts<F(!new)>(K: Ring<F>, A: seq<F>, b: seq<F>)
    requires IsRing(K) && IsPoly(K, A) && |A| >= |b| > 0
    ensures Eliminating(K, A, b, Zeros(K, |A| - |b| + 1), A)
  {
    NormOf(K, Zeros(K, |A| - |b| + 1), []);
  }

  lemma EquationStep<F(!new)>(K: Ring<F>, A: seq<F>, b: seq<F>, q: seq<F>, a: seq<F>, f: F, shift: nat)
    requires IsRing(K) && IsPoly(K, A) && IsPoly(K, a) && IsPoly(K, b) && AllIn(K, q) && K.has(f)
    requires PAdd(K, PMul(K, Norm(K, q), b), a) == A && shift < |q| && q[shift] == K.zero
    ensures AllIn(K, q[shift := f])
    ensures PAdd(K, PMul(K, Norm(K, q[shift := f]), b), PSub(K, a, ShiftN(K, shift, Scale(K, f, b)))) == A
  {
    NormIs(K, q);
    DivisionStep(K, A, a, b, Norm(K, q), f, shift);
    QuotientGains(K, q, f, shift);
  }

  lemma EliminateStep<F(!new)>(K: Ring<F>, A: seq<F>, b: seq<F>, q: seq<F>, a: seq<F>, f: F, r: seq<F>)
    requires IsRing(K) && IsPoly(K, A) && IsPoly(K, b) && |A| >= |a| >= |b| > 0
    requires Eliminating(K, A, b, q, a) && K.has(f) && f != K.zero
    requires r == PSub(K, a, ShiftN(K, |a| - |b|, Scale(K, f, b))) && IsPoly(K, r) && |r| < |a|
    ensures Eliminating(K, A, b, q[|a| - |b| := f], r)
  {
    hide PMul, PAdd, PSub, Norm, ShiftN, Scale, IsRing, IsPoly, AllIn;
    var shift := |a| - |b|;
    assert 0 <= shift < |q| && q[shift] == K.zero;
    EquationStep(K, A, b, q, a, f, shift);
    QuotientFilled(K, A, b, q, a, f, shift, r, q[shift := f]);
  }

  // above the place just written the quotient is as it was, below it still zero
  lemma QuotientFilled<F(!new)>(K: Ring<F>, A: seq<F>, b: seq<F>, q: seq<F>, a: seq<F>, f: F, shift: nat, r: seq<F>,
                                   q': seq<F>)
    requires shift < |q| && q' == q[shift := f] && f != K.zero
    requires |q| == |A| - |b| + 1 && shift == |a| - |b| && |b| > 0 && |a| <= |A| && |r| < |a|
    requires forall k :: 0 <= k <= |a| - |b| ==> q[k] == K.zero
    requires a == A || q[|q| - 1] != K.zero
    ensures q'[|q| - 1] != K.zero && forall k :: 0 <= k <= |r| - |b| ==> q'[k] == K.zero
  {}

  lemma EliminateEnds<F(!new)>(K: Ring<F>, A: seq<F>, b: seq<F>, inv: F, q: seq<F>, a: seq<F>)
    requires IsRing(K) && IsPoly(K, A) && IsPoly(K, b) && |A| >= |b| > 0
    requires K.inverse(b[|b| - 1]) == Some(inv)
    requires Eliminating(K, A, b, q, a) && |a| < |b|
    ensures Quotient(q, a) == Divide(K, A, b, inv) && IsQuotient(K, A, b, Quotient(q, a))
  {
    assert a != A && IsPoly(K, q);
    NormOfPoly(K, q);
    DivideCorrect(K, A, b, inv);
    DivisionUnique(K, A, b, Divide(K, A, b, inv), Quotient(q, a));
  }

  method Eliminate<F(!new,==)>(K: Ring<F>, A: seq<F>, b: seq<F>, inv: F) returns (q: seq<F>, a: seq<F>)
    requires IsRing(K) && IsPoly(K, A) && IsPoly(K, b) && |A| >= |b| > 0
    requires K.inverse(b[|b| - 1]) == Some(inv)
    ensures Quotient(q, a) == Divide(K, A, b, inv) && IsQuotient(K, A, b, Quotient(q, a))
  {
    hide Norm, PMul, PAdd, IsQuotient, Divide, Scale, ShiftN, PSub;
    q, a := Zeros(K, |A| - |b| + 1), A;
    EliminateStarts(K, A, b);
    while |a| >= |b|
      invariant Eliminating(K, A, b, q, a)
      decreases |a|
    {
      var factor := K.mul(a[|a| - 1], inv);
      var shift := |a| - |b|;
      TopFactor(K, b[|b| - 1], inv, a[|a| - 1]);
      var r := SubtractRow(K, a, b, factor, shift);
      EliminateStep(K, A, b, q, a, factor, r);
      q, a := q[shift := factor], r;
    }
    EliminateEnds(K, A, b, inv, q, a);
  }

  lemma TopFactor<F(!new)>(K: Ring<F>, u: F, inv: F, top: F)
    requires IsRing(K) && K.has(u) && K.has(top) && Inverts(K, u, inv) && top != K.zero
    ensures K.mul(top, inv) != K.zero && K.mul(K.mul(top, inv), u) == top
  {
    MulComm(K, u, inv);
    MulAssoc(K, top, inv, u);
    MulOne(K, top);
    MulZero(K, u);
  }

  // ----- extended Euclid, normalisation, inverse -----

  method PolyExtendedGcd<F(!new,==)>(K: Ring<F>, a0: seq<F>, b0: seq<F>) returns (r: Option<Bezout<F>>)
    requires IsRing(K) && AllIn(K, a0) && AllIn(K, b0)
    ensures r == ExtGcd(K, Norm(K, a0), Norm(K, b0))
    ensures r.Some? ==> IsBezout(K, Norm(K, a0), Norm(K, b0), r.value)
    ensures IsField(K) ==> r.Some?
  {
    hide IsField, IsBezout, Norm, PMul, PAdd, DivMod;
    var a := StripTrailing(K, a0);
    var b := StripTrailing(K, b0);
    ghost var A, B := a, b;
    ExtGcdCorrect(K, A, B);
    if a == [] && b == [] { return Some(Bezout([], [], [])); }
    var s0, s1, t0, t1 := [K.one], [], [], [K.one];
    while b != []
      invariant IsPoly(K, a) && IsPoly(K, b)
      invariant IsPoly(K, s0) && IsPoly(K, s1) && IsPoly(K, t0) && IsPoly(K, t1)
      invariant ExtGcdFrom(K, a, b, s0, s1, t0, t1) == ExtGcd(K, A, B)
      decreases |b|
    {
      NormOfPoly(K, a);
      var dm := PolyDivMod(K, a, b);
      if dm.None? { return None; }
      var qs := PolyMul(K, dm.value.quo, s1);
      var qt := PolyMul(K, dm.value.quo, t1);
      NormOfPoly(K, dm.value.quo);
      NormOfPoly(K, s1);
      NormOfPoly(K, t1);
      var s2 := PolySub(K, s0, qs);
      var t2 := PolySub(K, t0, qt);
      a, b := b, dm.value.rem;
      s0, s1 := s1, s2;
      t0, t1 := t1, t2;
    }
    r := Some(Bezout(a, s0, t0));
  }

  method ScaleAll<F(!new,==)>(K: Ring<F>, p: seq<F>, c: F) returns (r: seq<F>)
    requires IsRing(K) && IsPoly(K, p) && K.has(c)
    ensures AllIn(K, r) && |r| == |p| && Norm(K, r) == Scale(K, c, p)
  {
    r := p;
    for i := 0 to |p|
      invariant |r| == |p| && AllIn(K, r)
      invariant forall k :: 0 <= k < |r| ==> r[k] == if k < i then K.mul(p[k], c) else p[k]
    {
      r := r[i := K.mul(r[i], c)];
    }
    ScalePoly(K, c, p);
    forall k: nat ensures Coeff(K, r, k) == Coeff(K, Scale(K, c, p), k) {
      CoeffScale(K, c, p, k);
      MulZero(K, c);
      MulComm(K, c, Coeff(K, p, k));
    }
    NormOf(K, r, Scale(K, c, p));
  }

  method PolyMonic<F(!new,==)>(K: Ring<F>, p0: seq<F>) returns (r: Option<seq<F>>)
    requires IsRing(K) && AllIn(K, p0)
    ensures r == Monic(K, Norm(K, p0))
    ensures r.Some? ==> IsPoly(K, r.value) && (r.value == [] || r.value[|r.value| - 1] == K.one)
  {
    var p := StripTrailing(K, p0);
    if p == [] { return Some([]); }
    var inv := K.inverse(p[|p| - 1]);
    if inv.None? { return None; }
    var v := ScaleAll(K, p, inv.value);
    MulComm(K, inv.value, p[|p| - 1]);
    ScaleTop(K, inv.value, p);
    ScalePoly(K, inv.value, p);
    NormIs(K, v);
    assert Coeff(K, Norm(K, v), |p| - 1) == Coeff(K, v, |p| - 1);
    NormOfPoly(K, v);
    r := Some(v);
  }

  /** The constructor, on vectors that need not be stripped. */
  method Construct<F(!new,==)>(K: Ring<F>, value: seq<F>, minPoly: seq<F>) returns (e: AlgebraicElement<F>)
    requires IsRing(K) && AllIn(K, value) && AllIn(K, minPoly)
    ensures e == Make(K, Norm(K, value), Norm(K, minPoly))
    ensures var m := Norm(K, minPoly); e.minPoly == [] <==> m == [] || K.inverse(m[|m| - 1]).None?
    ensures e.minPoly == [] ==> e.value == Norm(K, value)
    ensures e.minPoly != [] ==> e.minPoly[|e.minPoly| - 1] == K.one && e.value == Reduce(K, Norm(K, value), e.minPoly)
  {
    hide IsRing, DivMod, Norm, Scale;
    NormIs(K, minPoly);
    MakeFails(K, Norm(K, value), Norm(K, minPoly));
    var monic := PolyMonic(K, minPoly);
    var m := if monic.Some? then monic.value else [];
    if m == [] {
      var v := StripTrailing(K, value);
      return AlgebraicElement(v, []);
    }
    var dm := PolyDivMod(K, value, m);
    if dm.None? { return AlgebraicElement([], m); }
    NormIs(K, value);
    NormOfPoly(K, dm.value.rem);
    var v := StripTrailing(K, dm.value.rem);
    e := AlgebraicElement(v, m);
  }

  /** Success or failure and the value agree with the specification, and a reported inverse is one. */
  method Invert<F(!new,==)>(K: Ring<F>, a: AlgebraicElement<F>) returns (r: Option<AlgebraicElement<F>>)
    requires IsRing(K) && IsMinPoly(K, a.minPoly) && IsElement(K, a.minPoly, a)
    ensures r == Inverse(K, a)
    ensures r.Some? ==> Times(K, a, r.value) == AlgebraicElement([K.one], a.minPoly)
    ensures IsField(K) && Irreducible(K, a.minPoly) ==> (r.Some? <==> a.value != [])
  {
    NormOfPoly(K, a.value);
    NormOfPoly(K, a.minPoly);
    if a.value == [] { return None; }
    if IsField(K) && Irreducible(K, a.minPoly) { NonZeroInverts(K, a.minPoly, a); }
    if Inverse(K, a).Some? { InverseCorrect(K, a.minPoly, a); }
    var egcd := PolyExtendedGcd(K, a.value, a.minPoly);
    if egcd.None? || |egcd.value.g| != 1 { return None; }
    var gInv := K.inverse(egcd.value.g[0]);
    if gInv.None? { return None; }
    var s := ScaleAll(K, egcd.value.s, gInv.value);
    var e := Construct(K, s, a.minPoly);
    r := Some(e);
  }

  // ----- powers -----

  // a^(2k) == (a a)^k, and a^(2k+1) == a (a a)^k
  lemma {:induction false} PowerHalves<F(!new)>(R: Ring<F>, a: F, k: nat)
    requires IsRing(R) && R.has(a)
    ensures Power(R, a, 2 * k) == Power(R, R.mul(a, a), k)
    ensures Power(R, a, 2 * k + 1) == R.mul(a, Power(R, R.mul(a, a), k))
  {
    if k > 0 {
      PowerHalves(R, a, k - 1);
      PowerHas(R, a, 2 * k - 2);
      assert Power(R, a, 2 * k) == R.mul(a, R.mul(a, Power(R, a, 2 * k - 2)));
      MulAssoc(R, a, a, Power(R, a, 2 * k - 2));
      assert 2 * k - 2 == 2 * (k - 1);
    }
  }

  ghost predicate Powering<F(!new)>(R: Ring<F>, r: F, base: F, power: nat, target: F) {
    R.has(r) && R.has(base) && R.mul(r, Power(R, base, power)) == target
  }

  lemma PowerStep<F(!new)>(R: Ring<F>, r: F, base: F, power: nat, target: F)
    requires IsRing(R) && Powering(R, r, base, power, target) && power > 0
    ensures var r' := if power % 2 != 0 then R.mul(r, base) else r;
            && R.has(r')
            && (power / 2 > 0 ==> Powering(R, r', R.mul(base, base), power / 2, target))
            && (power / 2 == 0 ==> r' == target && Powering(R, r', base, 0, target))
  {
    var k := power / 2;
    PowerHalves(R, base, k);
    PowerHas(R, R.mul(base, base), k);
    MulAssoc(R, r, base, Power(R, R.mul(base, base), k));
    MulOne(R, R.mul(r, base));
    MulOne(R, base);
  }

  /** Square and multiply. */
  method Pow<F(!new,==)>(K: Ring<F>, a: AlgebraicElement<F>, exponent: nat) returns (r: AlgebraicElement<F>)
    requires IsRing(K) && IsMinPoly(K, a.minPoly) && IsElement(K, a.minPoly, a)
    ensures r == Power(Rung(K, a.minPoly), a, exponent)
  {
    ghost var R := Rung(K, a.minPoly);
    ghost var target := Power(R, a, exponent);
    RungIsRing(K, a.minPoly);
    r := Make(K, [K.one], a.minPoly);
    if exponent == 0 { return; }
    var base := a;
    var power := exponent;
    PowerStarts(R, a, exponent);
    while power > 0
      invariant Powering(R, r, base, power, target)
      invariant power == 0 ==> r == target
    {
      PowerStep(R, r, base, power, target);
      if power % 2 != 0 { r := Times(K, r, base); }
      power := power / 2;
      if power > 0 { base := Times(K, base, base); }
    }
  }

  lemma PowerStarts<F(!new)>(R: Ring<F>, a: F, n: nat)
    requires IsRing(R) && R.has(a)
    ensures Powering(R, R.one, a, n, Power(R, a, n))
  {
    PowerHas(R, a, n);
    MulOne(R, Power(R, a, n));
  }
}
