/** Why Berlekamp's algorithm finds all factors: the fixed vectors of the matrix are the solutions of
    h^p == h modulo f, one constant for every irreducible factor. */
module BerlekampTheory {
  import opened Rings
  import opened Polys
  import opened Vectors
  import opened Division
  import opened Euclid
  import opened Congruence
  import opened Numbers
  import opened PrimeField
  import opened Frobenius
  import opened LinearAlgebra
  import opened NullSpace
  import opened FixedVectors
  import opened Berlekamp

  // ----- the p-th power of a polynomial -----

  /** v_0 + v_1 y + v_2 y^2 + ... for a polynomial y */
  ghost function Substituted<F(!new)>(K: Ring<F>, y: seq<F>, v: seq<F>): seq<F> {
    if v == [] then [] else PAdd(K, Const(K, v[0]), PMul(K, y, Substituted(K, y, v[1..])))
  }

  lemma {:induction false} SubstitutedHas<F(!new)>(K: Ring<F>, y: seq<F>, v: seq<F>)
    requires IsRing(K) && IsPoly(K, y) && AllIn(K, v)
    ensures IsPoly(K, Substituted(K, y, v))
  {
    if v != [] {
      SubstitutedHas(K, y, v[1..]);
      ConsPoly(K, v[0], []);
      PMulPoly(K, y, Substituted(K, y, v[1..]));
      PAddPoly(K, Const(K, v[0]), PMul(K, y, Substituted(K, y, v[1..])));
    }
  }

  // x times p is p moved up by one
  lemma XTimes<F(!new)>(K: Ring<F>, p: seq<F>)
    requires IsRing(K) && IsPoly(K, p)
    ensures PMul(K, X(K), p) == Shift(K, p)
  {
    hide PMul, Scale, PAdd;
    XIsPoly(K);
    ConsPoly(K, K.one, []);
    assert X(K) == Shift(K, [K.one]) && [K.one] == Const(K, K.one);
    ShiftMul(K, [K.one], p);
    ConstMul(K, K.one, p);
    ScaleOne(K, p);
  }

  lemma ConsIsSum<F(!new)>(K: Ring<F>, c: F, t: seq<F>)
    requires IsRing(K) && K.has(c) && IsPoly(K, t)
    ensures Cons(K, c, t) == PAdd(K, Const(K, c), Shift(K, t))
  {
    AddZero(K, c);
    PAddCons(K, c, [], K.zero, t);
  }

  /** (sum v_i x^i)^p == sum v_i (x^p)^i */
  lemma {:induction false} FrobeniusOfNorm(p: nat, v: seq<int>)
    requires Prime(p) && AllIn(Fp(p), v)
    ensures Power(PolyRing(Fp(p)), Norm(Fp(p), v), p)
         == Substituted(Fp(p), Power(PolyRing(Fp(p)), X(Fp(p)), p), v)
  {
    hide Power, PMul, PAdd, Fp, IsField, Cons, IsPoly, Shift;
    var (K, P) := (Fp(p), PolyRing(Fp(p)));
    FpIsField(p);
    PolyCharacteristic(p);
    XIsPoly(K);
    if v == [] {
      ZeroPower(P, p);
    } else {
      var T := Norm(K, v[1..]);
      NormIs(K, v[1..]);
      FrobeniusOfNorm(p, v[1..]);
      ConsIsSum(K, v[0], T);
      XTimes(K, T);
      ConstOfResidue(p, v[0]);
      PMulPoly(K, X(K), T);
      FrobeniusAdds(P, p, Const(K, v[0]), PMul(K, X(K), T));
      PowerOfProduct(P, X(K), T, p);
    }
  }

  // c^p == c for a constant polynomial
  lemma ConstOfResidue(p: nat, c: int)
    requires Prime(p) && Fp(p).has(c)
    ensures IsPoly(Fp(p), Const(Fp(p), c))
    ensures Power(PolyRing(Fp(p)), Const(Fp(p), c), p) == Const(Fp(p), c)
  {
    hide FpMod, ModInverse, Power, IsField;
    FpIsField(p);
    ConstPower(Fp(p), c, p);
    Fermat(p, c);
  }

  // ----- a vector times the matrix -----

  /** v_0 rows_0 + v_1 rows_1 + ... as polynomials */
  ghost function RowSum<F>(K: Ring<F>, v: seq<F>, rows: seq<seq<F>>): seq<F>
    requires |v| == |rows|
  {
    if v == [] then [] else PAdd(K, Scale(K, v[0], Norm(K, rows[0])), RowSum(K, v[1..], rows[1..]))
  }

  function Entries<F>(rows: seq<seq<F>>, n: nat, j: nat): (c: seq<F>)
    requires j < n && forall i :: 0 <= i < |rows| ==> |rows[i]| == n
    ensures |c| == |rows| && forall i :: 0 <= i < |rows| ==> c[i] == rows[i][j]
  {
    seq(|rows|, i requires 0 <= i < |rows| => rows[i][j])
  }

  lemma {:induction false} RowSumIs<F(!new)>(K: Ring<F>, v: seq<F>, rows: seq<seq<F>>, n: nat)
    requires IsRing(K) && AllIn(K, v) && |v| == |rows| && AreVectors(K, rows, n)
    ensures IsPoly(K, RowSum(K, v, rows)) && |RowSum(K, v, rows)| <= n
    ensures forall j: nat :: j < n ==> Coeff(K, RowSum(K, v, rows), j) == Dot(K, v, Entries(rows, n, j))
  {
    hide Scale, Norm, PAdd;
    if v != [] {
      var (s, t) := (Scale(K, v[0], Norm(K, rows[0])), RowSum(K, v[1..], rows[1..]));
      assert IsVector(K, rows[0], n);
      RowSumIs(K, v[1..], rows[1..], n);
      NormIs(K, rows[0]);
      ScalePoly(K, v[0], Norm(K, rows[0]));
      ScaleNoLonger(K, v[0], Norm(K, rows[0]));
      PAddPoly(K, s, t);
      PAddNoLonger(K, s, t, n);
      forall j: nat | j < n ensures Coeff(K, RowSum(K, v, rows), j) == Dot(K, v, Entries(rows, n, j)) {
        CoeffAdd(K, s, t, j);
        CoeffScale(K, v[0], Norm(K, rows[0]), j);
        assert Entries(rows, n, j)[1..] == Entries(rows[1..], n, j);
        assert Coeff(K, Norm(K, rows[0]), j) == rows[0][j];
      }
    }
  }

  lemma {:induction false} ScaleNoLonger<F(!new)>(K: Ring<F>, c: F, q: seq<F>)
    ensures |Scale(K, c, q)| <= |q|
  {
    if q != [] { ScaleNoLonger(K, c, q[1..]); }
  }

  lemma {:induction false} PAddNoLonger<F(!new)>(K: Ring<F>, p: seq<F>, q: seq<F>, n: nat)
    requires |p| <= n && |q| <= n
    ensures |PAdd(K, p, q)| <= n
  {
    if p != [] && q != [] { PAddNoLonger(K, p[1..], q[1..], n - 1); }
  }

  ghost predicate RowsFrom(p: nat, f: seq<int>, rows: seq<seq<int>>, k: nat)
    requires p > 1
  {
    forall i: nat :: i < |rows| ==> CongBy(PolyRing(Fp(p)), f, Norm(Fp(p), rows[i]), XPower(p, k + i))
  }

  lemma RowsSplit(p: nat, f: seq<int>, rows: seq<seq<int>>, k: nat)
    requires p > 1 && rows != [] && RowsFrom(p, f, rows, k)
    ensures CongBy(PolyRing(Fp(p)), f, Norm(Fp(p), rows[0]), XPower(p, k)) && RowsFrom(p, f, rows[1..], k + 1)
  {
    hide CongBy, Norm, PolyRing, Fp, XPower;
    assert k + 0 == k;
    forall i: nat | i < |rows[1..]|
      ensures CongBy(PolyRing(Fp(p)), f, Norm(Fp(p), rows[1..][i]), XPower(p, k + 1 + i))
    {
      assert k + (i + 1) == k + 1 + i;
      assert rows[1..][i] == rows[i + 1];
    }
  }

  lemma XPowerHas(p: nat, k: nat)
    requires Prime(p)
    ensures IsPoly(Fp(p), XPower(p, k))
  {
    hide Power, Fp, IsField, IsPoly;
    FpIsField(p);
    PolyRingIsRing(Fp(p));
    XIsPoly(Fp(p));
    NatProduct(p, k);
    PowerHas(PolyRing(Fp(p)), X(Fp(p)), p * k);
  }

  lemma XPowerNext(p: nat, k: nat)
    requires Prime(p)
    ensures XPower(p, k + 1) == PMul(Fp(p), XPower(p, k), XPower(p, 1))
  {
    hide Power, Fp, IsField, IsPoly, PMul;
    FpIsField(p);
    PolyRingIsRing(Fp(p));
    XIsPoly(Fp(p));
    NatProduct(p, k);
    NextExponent(p, k);
    PowerAdd(PolyRing(Fp(p)), X(Fp(p)), p * k, p);
  }

  lemma NextExponent(p: nat, k: nat)
    ensures p * (k + 1) == p * k + p && p * 1 == p
  {}

  lemma XPowerSmall(p: nat)
    requires p > 1
    ensures XPower(p, 1) == Power(PolyRing(Fp(p)), X(Fp(p)), p) && XPower(p, 0) == PolyRing(Fp(p)).one
  {
    NextExponent(p, 0);
  }

  /** With rows congruent to x^(p k), x^(p (k + 1)), ..., the sum is x^(p k) times v at x^p. */
  lemma {:induction false} RowSumCong(p: nat, f: seq<int>, v: seq<int>, rows: seq<seq<int>>, n: nat, k: nat)
    requires Prime(p) && IsPoly(Fp(p), f) && AllIn(Fp(p), v) && |v| == |rows| && AreVectors(Fp(p), rows, n)
    requires RowsFrom(p, f, rows, k)
    ensures CongBy(PolyRing(Fp(p)), f, RowSum(Fp(p), v, rows),
                   PMul(Fp(p), XPower(p, k), Substituted(Fp(p), XPower(p, 1), v)))
  {
    hide Power, PMul, PAdd, Fp, IsField, Scale, IsPoly, Norm, CongBy, XPower, RowsFrom;
    var (K, P) := (Fp(p), PolyRing(Fp(p)));
    FpIsField(p);
    PolyRingIsRing(K);
    XPowerHas(p, k);
    XPowerHas(p, 1);
    var (w, y) := (XPower(p, k), XPower(p, 1));
    if v == [] {
      MulZero(P, w);
      CongSelf(P, f, []);
    } else {
      assert IsVector(K, rows[0], n);
      NormIs(K, rows[0]);
      var N := Norm(K, rows[0]);
      RowsSplit(p, f, rows, k);
      RowSumCong(p, f, v[1..], rows[1..], n, k + 1);
      var S := Substituted(K, y, v[1..]);
      SubstitutedHas(K, y, v[1..]);
      RowSumIs(K, v[1..], rows[1..], n);
      XPowerNext(p, k);
      ConsPoly(K, v[0], []);
      ConstMul(K, v[0], N);
      RowStep(P, f, Const(K, v[0]), N, w, RowSum(K, v[1..], rows[1..]), y, S);
    }
  }

  // N == w and T == (w y) S give c N + T == w (c + y S)
  lemma RowStep<F(!new)>(P: Ring<F>, f: F, c: F, N: F, w: F, T: F, y: F, S: F)
    requires IsRing(P) && P.has(f) && P.has(c) && P.has(N) && P.has(w) && P.has(T) && P.has(y) && P.has(S)
    requires CongBy(P, f, N, w) && CongBy(P, f, T, P.mul(P.mul(w, y), S))
    ensures CongBy(P, f, P.add(P.mul(c, N), T), P.mul(w, P.add(c, P.mul(y, S))))
  {
    CongTimesLeft(P, f, c, N, w);
    CongPlus(P, f, P.mul(c, N), P.mul(c, w), T, P.mul(P.mul(w, y), S));
    Distr(P, w, c, P.mul(y, S));
    MulComm(P, c, w);
    MulAssoc(P, w, y, S);
  }

  // ----- fixed vectors solve h^p == h -----

  // congruent and both shorter than f means equal
  lemma ShortCong<F(!new)>(K: Ring<F>, f: seq<F>, a: seq<F>, b: seq<F>)
    requires IsField(K) && IsPoly(K, f) && IsPoly(K, a) && IsPoly(K, b) && |a| < |f| && |b| < |f|
    requires CongBy(PolyRing(K), f, a, b)
    ensures a == b
  {
    hide PMul, Divides;
    FieldIsDomain(K);
    PolyRingIsRing(K);
    var d := PSub(K, a, b);
    PNegPoly(K, b);
    PAddPoly(K, a, PNeg(K, b));
    PAddNoLonger(K, a, PNeg(K, b), |f| - 1);
    if d != [] { DivisorLen(K, f, d); }
    SubSelf(PolyRing(K), a, b);
  }

  /** A vector is fixed by the matrix of f exactly when its polynomial satisfies h^p == h modulo f. */
  lemma FixedIffPower(p: nat, f: seq<int>, Q: Matrix<int>, v: seq<int>)
    requires Prime(p) && IsPoly(Fp(p), f) && |f| >= 2 && IsPowerMatrix(p, f, |f| - 1, Q) && IsVector(Fp(p), v, |f| - 1)
    ensures |Q| == |f| - 1 && forall j :: 0 <= j < |Q| ==> |Q[j]| == |Q|
    ensures IsFixed(Fp(p), Q, |Q|, v)
       <==> CongBy(PolyRing(Fp(p)), f, Power(PolyRing(Fp(p)), Norm(Fp(p), v), p), Norm(Fp(p), v))
  {
    hide Power, PMul, PAdd, Fp, IsField, IsPoly, Norm, CongBy, IsFixed, RowSum, IsPowerMatrix;
    var (K, P, n) := (Fp(p), PolyRing(Fp(p)), |f| - 1);
    FpIsField(p);
    PolyRingIsRing(K);
    MatrixRows(p, f, Q);
    NormIs(K, v);
    var (h, C) := (Norm(K, v), RowSum(K, v, Q));
    RowSumIs(K, v, Q, n);
    RowSumIsPower(p, f, Q, v);
    PowerHas(P, h, p);
    FixedIsRowSum(K, Q, n, v);
    if C == h {
      CongSym(P, f, C, Power(P, h, p));
    }
    if CongBy(P, f, Power(P, h, p), h) {
      CongTrans(P, f, C, Power(P, h, p), h);
      ShortCong(K, f, C, h);
    }
  }

  lemma MatrixRows(p: nat, f: seq<int>, Q: Matrix<int>)
    requires p > 1 && |f| >= 2 && IsPowerMatrix(p, f, |f| - 1, Q)
    ensures |Q| == |f| - 1 && IsMatrix(Fp(p), Q, |Q|, |Q|) && AreVectors(Fp(p), Q, |Q|)
    ensures forall j :: 0 <= j < |Q| ==> |Q[j]| == |Q|
    ensures RowsFrom(p, f, Q, 0)
  {
    hide CongBy, Power, Norm, Fp, PolyRing, AllIn, Unit, X, XPower;
    forall i: nat | i < |Q| ensures CongBy(PolyRing(Fp(p)), f, Norm(Fp(p), Q[i]), XPower(p, 0 + i)) {
      assert 0 + i == i;
    }
    assert forall j :: 0 <= j < |Q| ==> IsVector(Fp(p), Q[j], |Q|);
  }

  lemma RowSumIsPower(p: nat, f: seq<int>, Q: Matrix<int>, v: seq<int>)
    requires Prime(p) && IsPoly(Fp(p), f) && |f| >= 2 && IsPowerMatrix(p, f, |f| - 1, Q) && IsVector(Fp(p), v, |f| - 1)
    ensures |Q| == |v|
    ensures CongBy(PolyRing(Fp(p)), f, RowSum(Fp(p), v, Q), Power(PolyRing(Fp(p)), Norm(Fp(p), v), p))
  {
    hide Power, PMul, PAdd, Fp, IsField, IsPoly, Norm, CongBy, RowSum, Substituted, XPower, IsPowerMatrix;
    var (K, P, n) := (Fp(p), PolyRing(Fp(p)), |f| - 1);
    FpIsField(p);
    PolyRingIsRing(K);
    MatrixRows(p, f, Q);
    RowSumCong(p, f, v, Q, n, 0);
    FrobeniusOfNorm(p, v);
    XPowerSmall(p);
    XPowerHas(p, 1);
    SubstitutedHas(K, XPower(p, 1), v);
    MulOne(P, Substituted(K, XPower(p, 1), v));
  }

  lemma FixedIsRowSum<F(!new)>(K: Ring<F>, Q: Matrix<F>, n: nat, v: seq<F>)
    requires IsRing(K) && IsMatrix(K, Q, n, n) && AreVectors(K, Q, n) && IsVector(K, v, n)
    ensures forall j :: 0 <= j < n ==> |Q[j]| == n
    ensures IsFixed(K, Q, n, v) <==> RowSum(K, v, Q) == Norm(K, v)
  {
    hide RowSum, Norm, Dot;
    assert forall j :: 0 <= j < n ==> IsVector(K, Q[j], n);
    RowSumIs(K, v, Q, n);
    NormIs(K, v);
    var C := RowSum(K, v, Q);
    forall j: nat | j < n ensures Coeff(K, C, j) == Dot(K, v, Column(Q, n, j)) {
      assert Entries(Q, n, j) == Column(Q, n, j);
    }
    if IsFixed(K, Q, n, v) {
      forall i: nat ensures Coeff(K, C, i) == Coeff(K, Norm(K, v), i) {
        if i < n { assert Dot(K, v, Column(Q, n, i)) == v[i]; }
        assert Coeff(K, Norm(K, v), i) == Coeff(K, v, i);
      }
      SameCoeffs(K, C, Norm(K, v));
    }
    if C == Norm(K, v) {
      forall i: nat | i < n ensures Dot(K, v, Column(Q, n, i)) == v[i] {
        assert Coeff(K, Norm(K, v), i) == Coeff(K, v, i);
      }
    }
  }
}
