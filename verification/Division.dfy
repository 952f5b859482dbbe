/** Division with remainder, and the Euclidean algorithm, over any Ring.

  Divide works for every divisor whose leading coefficient is inverted; over a field that is
  every divisor but zero. */
module Division {
  import opened Rings
  import opened Polys
  import opened Vectors

  datatype Quotient<F> = Quotient(quo: seq<F>, rem: seq<F>)

  datatype Bezout<F> = Bezout(g: seq<F>, s: seq<F>, t: seq<F>)

  /** a == quo * b + rem, where inv is the inverse of the leading coefficient of b. */
  function Divide<F(==)>(K: Ring<F>, a: seq<F>, b: seq<F>, inv: F): Quotient<F>
    requires b != []
  {
    if a == [] then Quotient([], [])
    else
      var d := Divide(K, a[1..], b, inv);
      var c := Cons(K, a[0], d.rem);
      if |c| < |b| then Quotient(Shift(K, d.quo), c)
      else
        var f := K.mul(c[|c| - 1], inv);
        Quotient(Cons(K, f, d.quo), PSub(K, c, Scale(K, f, b)))
  }

  /** The template's polynomial division: fails on a zero divisor, or when the dividend is at least
      as long as the divisor and the leading coefficient of the divisor is not inverted. */
  function DivMod<F(==)>(K: Ring<F>, a: seq<F>, b: seq<F>): Option<Quotient<F>> {
    if b == [] then None
    else if |a| < |b| then Some(Quotient([], a))
    else match K.inverse(b[|b| - 1])
      case None => None
      case Some(inv) => Some(Divide(K, a, b, inv))
  }

  ghost predicate IsQuotient<F(!new)>(K: Ring<F>, a: seq<F>, b: seq<F>, d: Quotient<F>) {
    && IsPoly(K, d.quo) && IsPoly(K, d.rem) && |d.rem| < |b|
    && PAdd(K, PMul(K, d.quo, b), d.rem) == a
  }

  ghost predicate Inverts<F(!new)>(K: Ring<F>, a: F, inv: F) {
    K.has(inv) && K.mul(a, inv) == K.one
  }

  // ----- one cancellation step -----

  lemma {:induction false} PSubTop<F(!new)>(K: Ring<F>, p: seq<F>, q: seq<F>)
    requires IsRing(K) && IsPoly(K, p) && IsPoly(K, q)
    requires |p| == |q| > 0 && p[|p| - 1] == q[|q| - 1]
    ensures |PSub(K, p, q)| < |p|
  {
    AddNeg(K, p[0]);
    if |p| == 1 {
      assert PSub(K, p, q) == Cons(K, K.add(p[0], K.neg(q[0])), PAdd(K, p[1..], PNeg(K, q)[1..]));
      assert p[0] == q[0] && p[1..] == [] && PNeg(K, q)[1..] == [];
    } else {
      PSubTop(K, p[1..], q[1..]);
    }
  }

  // c - (c_top * inv) * b is shorter than b when c is as long as b
  lemma CancelTop<F(!new)>(K: Ring<F>, c: seq<F>, b: seq<F>, inv: F)
    requires IsRing(K) && IsPoly(K, c) && IsPoly(K, b)
    requires |c| == |b| > 0 && Inverts(K, b[|b| - 1], inv)
    ensures var f := K.mul(c[|c| - 1], inv);
            && K.has(f) && IsPoly(K, Scale(K, f, b))
            && IsPoly(K, PSub(K, c, Scale(K, f, b)))
            && |PSub(K, c, Scale(K, f, b))| < |b|
  {
    var top, u := c[|c| - 1], b[|b| - 1];
    var f := K.mul(top, inv);
    MulComm(K, u, inv);
    MulAssoc(K, top, inv, u);
    MulOne(K, top);
    ScaleTop(K, f, b);
    ScalePoly(K, f, b);
    PNegPoly(K, Scale(K, f, b));
    PAddPoly(K, c, PNeg(K, Scale(K, f, b)));
    PSubTop(K, c, Scale(K, f, b));
  }

  // x (q b) + (f b + (c - f b)) == x (q b) + c
  lemma PutBack<F(!new)>(K: Ring<F>, f: F, q: seq<F>, b: seq<F>, c: seq<F>)
    requires IsRing(K) && K.has(f) && IsPoly(K, q) && IsPoly(K, b) && IsPoly(K, c)
    ensures PAdd(K, PMul(K, Cons(K, f, q), b), PSub(K, c, Scale(K, f, b)))
         == PAdd(K, Shift(K, PMul(K, q, b)), c)
  {
    PolyRingIsRing(K);
    var P := PolyRing(K);
    var fb, xqb := Scale(K, f, b), Shift(K, PMul(K, q, b));
    MulCons(K, f, q, b);
    ScalePoly(K, f, b);
    PNegPoly(K, fb);
    PMulPoly(K, q, b);
    ConsPoly(K, K.zero, PMul(K, q, b));
    BorrowAndReturn(P, fb, xqb, c);
  }

  // a0 + x t == x (q b) + (a0 + x r) when t == q b + r
  lemma ConsOfSum<F(!new)>(K: Ring<F>, a0: F, u: seq<F>, r: seq<F>)
    requires IsRing(K) && K.has(a0) && IsPoly(K, u) && IsPoly(K, r)
    ensures PAdd(K, Shift(K, u), Cons(K, a0, r)) == Cons(K, a0, PAdd(K, u, r))
  {
    PAddCons(K, K.zero, u, a0, r);
    AddZero(K, a0);
  }

  lemma {:induction false} DivideCorrect<F(!new)>(K: Ring<F>, a: seq<F>, b: seq<F>, inv: F)
    requires IsRing(K) && IsPoly(K, a) && IsPoly(K, b)
    requires b != [] && Inverts(K, b[|b| - 1], inv)
    ensures IsQuotient(K, a, b, Divide(K, a, b, inv))
  {
    if a != [] {
      TailPoly(K, a);
      DivideCorrect(K, a[1..], b, inv);
      var d := Divide(K, a[1..], b, inv);
      var c := Cons(K, a[0], d.rem);
      ConsPoly(K, a[0], d.rem);
      PMulPoly(K, d.quo, b);
      ConsOfSum(K, a[0], PMul(K, d.quo, b), d.rem);
      assert PAdd(K, Shift(K, PMul(K, d.quo, b)), c) == a;
      if |c| < |b| {
        ConsPoly(K, K.zero, d.quo);
        ShiftMul(K, d.quo, b);
      } else {
        CancelTop(K, c, b, inv);
        var f := K.mul(c[|c| - 1], inv);
        ConsPoly(K, f, d.quo);
        PutBack(K, f, d.quo, b, c);
      }
    }
  }

  lemma DivModCorrect<F(!new)>(K: Ring<F>, a: seq<F>, b: seq<F>)
    requires IsRing(K) && IsPoly(K, a) && IsPoly(K, b)
    ensures DivMod(K, a, b).Some? ==> IsQuotient(K, a, b, DivMod(K, a, b).value)
    ensures IsField(K) ==> (DivMod(K, a, b).Some? <==> b != [])
    ensures DivMod(K, a, b).Some? <==> b != [] && (|a| < |b| || K.inverse(b[|b| - 1]).Some?)
  {
    if b != [] && |a| >= |b| && K.inverse(b[|b| - 1]).Some? {
      DivideCorrect(K, a, b, K.inverse(b[|b| - 1]).value);
    }
  }

  /** One elimination step: a loses f x^shift b, and the quotient gains f x^shift. */
  lemma DivisionStep<F(!new)>(K: Ring<F>, A: seq<F>, a: seq<F>, b: seq<F>, q: seq<F>, f: F, shift: nat)
    requires IsRing(K) && IsPoly(K, A) && IsPoly(K, a) && IsPoly(K, b) && IsPoly(K, q) && K.has(f)
    requires PAdd(K, PMul(K, q, b), a) == A
    ensures IsPoly(K, ShiftN(K, shift, Scale(K, f, b)))
    ensures IsPoly(K, PSub(K, a, ShiftN(K, shift, Scale(K, f, b))))
    ensures PAdd(K, PMul(K, PAdd(K, q, ShiftN(K, shift, Const(K, f))), b),
                 PSub(K, a, ShiftN(K, shift, Scale(K, f, b)))) == A
  {
    PolyRingIsRing(K);
    var P := PolyRing(K);
    var m := ShiftN(K, shift, Const(K, f));
    var fb := ShiftN(K, shift, Scale(K, f, b));
    ConstMul(K, f, b);
    ScalePoly(K, f, b);
    CoeffShiftN(K, shift, Const(K, f), 0);
    CoeffShiftN(K, shift, Scale(K, f, b), 0);
    ShiftNMul(K, shift, Const(K, f), b);
    PNegPoly(K, fb);
    PAddPoly(K, a, PNeg(K, fb));
    PMulPoly(K, q, b);
    PDistrRight(K, q, m, b);
    AddComm(P, PMul(K, q, b), fb);
    BorrowAndReturn(P, fb, PMul(K, q, b), a);
  }

  // ----- uniqueness -----

  // (q b + r) - (q' b + r') == (q - q') b - (r' - r)
  lemma DifferenceOfDivisions<F(!new)>(P: Ring<F>, q: F, q': F, b: F, r: F, r': F)
    requires IsRing(P) && P.has(q) && P.has(q') && P.has(b) && P.has(r) && P.has(r')
    requires P.add(P.mul(q, b), r) == P.add(P.mul(q', b), r')
    ensures P.mul(Sub(P, q, q'), b) == Sub(P, r', r)
  {
    var (u, v) := (P.mul(q, b), P.mul(q', b));
    DistrRight(P, q, P.neg(q'), b);
    MulNeg(P, q', b);
    // u + r == v + r'  ==>  u - v == r' - r
    SubSelf(P, u, v);
    AddComm(P, Sub(P, u, v), v);
    AddAssoc(P, v, Sub(P, u, v), r);
    AddCancel(P, v, P.add(Sub(P, u, v), r), r');
    SubSelf(P, r', r);
    AddComm(P, Sub(P, u, v), r);
    AddComm(P, Sub(P, r', r), r);
    AddCancel(P, r, Sub(P, u, v), Sub(P, r', r));
  }

  /** Quotient and remainder are determined by the length of the remainder. */
  lemma DivisionUnique<F(!new)>(K: Ring<F>, a: seq<F>, b: seq<F>, d: Quotient<F>, e: Quotient<F>)
    requires IsRing(K) && IsPoly(K, b) && IsQuotient(K, a, b, d) && IsQuotient(K, a, b, e)
    requires K.inverse(b[|b| - 1]).Some?
    ensures d == e
  {
    PolyRingIsRing(K);
    var P := PolyRing(K);
    var q := PSub(K, d.quo, e.quo);
    var r := PSub(K, e.rem, d.rem);
    DifferenceOfDivisions(P, d.quo, e.quo, b, d.rem, e.rem);
    assert P.has(q) && PMul(K, q, b) == r;
    if q != [] {
      UnitTimesNonZero(K, b[|b| - 1], q[|q| - 1]);
      PMulTop(K, q, b);
      PNegPoly(K, d.rem);
      PAddPoly(K, e.rem, PNeg(K, d.rem));
    }
    SubSelf(P, d.quo, e.quo);
    SubSelf(P, e.rem, d.rem);
  }
}
