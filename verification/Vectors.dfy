/** Raw coefficient vectors, as the loops fill them, and the polynomials they stand for. */
module Vectors {
  import opened Rings
  import opened Polys

  ghost predicate AllIn<F(!new)>(K: Ring<F>, v: seq<F>) {
    forall i :: 0 <= i < |v| ==> K.has(v[i])
  }

  /** The polynomial of a vector: trailing zeros dropped. */
  function Norm<F(==)>(K: Ring<F>, v: seq<F>): seq<F> {
    if v == [] then [] else Cons(K, v[0], Norm(K, v[1..]))
  }

  function Zeros<F>(K: Ring<F>, n: nat): (v: seq<F>)
    ensures |v| == n && forall i :: 0 <= i < n ==> v[i] == K.zero
  {
    seq(n, _ => K.zero)
  }

  /** x^n * p */
  function ShiftN<F(==)>(K: Ring<F>, n: nat, p: seq<F>): seq<F> {
    if n == 0 then p else Shift(K, ShiftN(K, n - 1, p))
  }

  // ----- coefficients determine a polynomial -----

  lemma {:induction false} NormIs<F(!new)>(K: Ring<F>, v: seq<F>)
    requires IsRing(K) && AllIn(K, v)
    ensures IsPoly(K, Norm(K, v)) && |Norm(K, v)| <= |v|
    ensures forall i: nat :: Coeff(K, Norm(K, v), i) == Coeff(K, v, i)
  {
    if v != [] {
      NormIs(K, v[1..]);
      forall i: nat ensures Coeff(K, Norm(K, v), i) == Coeff(K, v, i) {
        if i > 0 {
          assert Coeff(K, Norm(K, v[1..]), i - 1) == Coeff(K, v[1..], i - 1);
        }
      }
    }
  }

  lemma SameCoeffs<F(!new)>(K: Ring<F>, p: seq<F>, q: seq<F>)
    requires IsPoly(K, p) && IsPoly(K, q)
    requires forall i: nat :: Coeff(K, p, i) == Coeff(K, q, i)
    ensures p == q
  {
    var n := if |p| < |q| then |q| else |p|;
    assert n > 0 ==> Coeff(K, p, n - 1) == Coeff(K, q, n - 1);
    forall i: nat | i < |p| ensures p[i] == q[i] {
      assert Coeff(K, p, i) == Coeff(K, q, i);
    }
  }

  /** A vector stands for p when it has the coefficients of p. */
  lemma NormOf<F(!new)>(K: Ring<F>, v: seq<F>, p: seq<F>)
    requires IsRing(K) && AllIn(K, v) && IsPoly(K, p)
    requires forall i: nat :: Coeff(K, v, i) == Coeff(K, p, i)
    ensures Norm(K, v) == p
  {
    NormIs(K, v);
    SameCoeffs(K, Norm(K, v), p);
  }

  lemma NormOfPoly<F(!new)>(K: Ring<F>, p: seq<F>)
    requires IsRing(K) && IsPoly(K, p)
    ensures Norm(K, p) == p
  {
    NormOf(K, p, p);
  }

  lemma {:induction false} CoeffAdd<F(!new)>(K: Ring<F>, p: seq<F>, q: seq<F>, i: nat)
    requires IsRing(K) && IsPoly(K, p) && IsPoly(K, q)
    ensures Coeff(K, PAdd(K, p, q), i) == K.add(Coeff(K, p, i), Coeff(K, q, i))
  {
    AddZero(K, Coeff(K, p, i));
    AddZero(K, Coeff(K, q, i));
    if p != [] && q != [] && i > 0 {
      CoeffAdd(K, p[1..], q[1..], i - 1);
    }
  }

  lemma {:induction false} CoeffNeg<F(!new)>(K: Ring<F>, p: seq<F>, i: nat)
    requires IsRing(K)
    ensures Coeff(K, PNeg(K, p), i) == K.neg(Coeff(K, p, i))
  {
    NegZero(K);
    if p != [] && i > 0 {
      CoeffNeg(K, p[1..], i - 1);
    }
  }

  lemma CoeffSub<F(!new)>(K: Ring<F>, p: seq<F>, q: seq<F>, i: nat)
    requires IsRing(K) && IsPoly(K, p) && IsPoly(K, q)
    ensures Coeff(K, PSub(K, p, q), i) == Sub(K, Coeff(K, p, i), Coeff(K, q, i))
  {
    PNegPoly(K, q);
    CoeffAdd(K, p, PNeg(K, q), i);
    CoeffNeg(K, q, i);
  }

  lemma {:induction false} CoeffScale<F(!new)>(K: Ring<F>, c: F, p: seq<F>, i: nat)
    requires IsRing(K) && K.has(c)
    ensures Coeff(K, Scale(K, c, p), i) == K.mul(c, Coeff(K, p, i))
  {
    MulZero(K, c);
    if p != [] && i > 0 {
      CoeffScale(K, c, p[1..], i - 1);
    }
  }

  lemma {:induction false} CoeffShiftN<F(!new)>(K: Ring<F>, n: nat, p: seq<F>, i: nat)
    requires IsRing(K) && IsPoly(K, p)
    ensures IsPoly(K, ShiftN(K, n, p)) && |ShiftN(K, n, p)| == if p == [] then 0 else |p| + n
    ensures Coeff(K, ShiftN(K, n, p), i) == if i < n then K.zero else Coeff(K, p, i - n)
  {
    if n > 0 {
      CoeffShiftN(K, n - 1, p, if i > 0 then i - 1 else 0);
      ConsPoly(K, K.zero, ShiftN(K, n - 1, p));
    }
  }

  lemma {:induction false} ShiftNMul<F(!new)>(K: Ring<F>, n: nat, p: seq<F>, q: seq<F>)
    requires IsRing(K) && IsPoly(K, p) && IsPoly(K, q)
    ensures PMul(K, ShiftN(K, n, p), q) == ShiftN(K, n, PMul(K, p, q))
  {
    if n > 0 {
      CoeffShiftN(K, n - 1, p, 0);
      ShiftNMul(K, n - 1, p, q);
      ShiftMul(K, ShiftN(K, n - 1, p), q);
    }
  }

  /** Adding one row c * q, moved up n places, to a product. */
  lemma {:induction false} PMulSnoc<F(!new)>(K: Ring<F>, v: seq<F>, c: F, q: seq<F>)
    requires IsRing(K) && AllIn(K, v) && K.has(c) && IsPoly(K, q)
    ensures PMul(K, Norm(K, v + [c]), q) == PAdd(K, PMul(K, Norm(K, v), q), ShiftN(K, |v|, Scale(K, c, q)))
  {
    ScalePoly(K, c, q);
    if v == [] {
      assert [] + [c] == [c];
      assert Norm(K, [c]) == Const(K, c) by { assert [c][1..] == []; }
      ConstMul(K, c, q);
    } else {
      var t := v[1..];
      assert (v + [c])[0] == v[0] && (v + [c])[1..] == t + [c];
      PMulSnoc(K, t, c, q);
      NormIs(K, t);
      NormIs(K, t + [c]);
      MulCons(K, v[0], Norm(K, t + [c]), q);
      MulCons(K, v[0], Norm(K, t), q);
      var (m, r) := (PMul(K, Norm(K, t), q), ShiftN(K, |t|, Scale(K, c, q)));
      PMulPoly(K, Norm(K, t), q);
      CoeffShiftN(K, |t|, Scale(K, c, q), 0);
      ShiftAdd(K, m, r);
      ScalePoly(K, v[0], q);
      ConsPoly(K, K.zero, m);
      ConsPoly(K, K.zero, r);
      PAddAssoc(K, Scale(K, v[0], q), Shift(K, m), Shift(K, r));
    }
  }

  /** Drops trailing zeros, one at a time. */
  method StripTrailing<F(!new,==)>(K: Ring<F>, v: seq<F>) returns (r: seq<F>)
    requires IsRing(K) && AllIn(K, v)
    ensures r == Norm(K, v) && IsPoly(K, r) && |r| <= |v|
    ensures forall i: nat :: Coeff(K, r, i) == Coeff(K, v, i)
  {
    r := v;
    while r != [] && r[|r| - 1] == K.zero
      invariant |r| <= |v| && r == v[..|r|]
      invariant forall i :: |r| <= i < |v| ==> v[i] == K.zero
      decreases |r|
    {
      r := r[..|r| - 1];
    }
    NormOf(K, v, r);
  }
}
