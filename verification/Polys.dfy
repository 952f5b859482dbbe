/** Dense univariate polynomials, coefficients ascending, over any Ring.

  A polynomial is kept without trailing zeros, so that two polynomials are equal as sequences
  exactly when they are equal as polynomials; [] is zero. */
module Polys {
  import opened Rings

  ghost predicate IsPoly<F(!new)>(K: Ring<F>, p: seq<F>) {
    && (forall i :: 0 <= i < |p| ==> K.has(p[i]))
    && (p != [] ==> p[|p| - 1] != K.zero)
  }

  /** The coefficient of x^i, zero beyond the end. */
  function Coeff<F>(K: Ring<F>, p: seq<F>, i: nat): F {
    if i < |p| then p[i] else K.zero
  }

  /** c + x * t */
  function Cons<F(==)>(K: Ring<F>, c: F, t: seq<F>): (r: seq<F>) {
    if c == K.zero && t == [] then [] else [c] + t
  }

  function PAdd<F(==)>(K: Ring<F>, p: seq<F>, q: seq<F>): seq<F> {
    if p == [] then q
    else if q == [] then p
    else Cons(K, K.add(p[0], q[0]), PAdd(K, p[1..], q[1..]))
  }

  function PNeg<F>(K: Ring<F>, p: seq<F>): (r: seq<F>)
    ensures |r| == |p|
  {
    if p == [] then [] else [K.neg(p[0])] + PNeg(K, p[1..])
  }

  function PSub<F(==)>(K: Ring<F>, p: seq<F>, q: seq<F>): seq<F> {
    PAdd(K, p, PNeg(K, q))
  }

  /** c * p */
  function Scale<F(==)>(K: Ring<F>, c: F, p: seq<F>): seq<F> {
    if p == [] then [] else Cons(K, K.mul(c, p[0]), Scale(K, c, p[1..]))
  }

  /** x * p */
  function Shift<F(==)>(K: Ring<F>, p: seq<F>): seq<F> {
    Cons(K, K.zero, p)
  }

  function PMul<F(==)>(K: Ring<F>, p: seq<F>, q: seq<F>): seq<F> {
    if p == [] then [] else PAdd(K, Scale(K, p[0], q), Shift(K, PMul(K, p[1..], q)))
  }

  function Const<F(==)>(K: Ring<F>, c: F): seq<F> {
    Cons(K, c, [])
  }

  // ----- canonical forms are kept -----

  lemma ConsPoly<F(!new)>(K: Ring<F>, c: F, t: seq<F>)
    requires K.has(c) && IsPoly(K, t)
    ensures IsPoly(K, Cons(K, c, t))
  {}

  lemma TailPoly<F(!new)>(K: Ring<F>, p: seq<F>)
    requires IsPoly(K, p) && p != []
    ensures K.has(p[0]) && IsPoly(K, p[1..]) && Cons(K, p[0], p[1..]) == p
  {}

  lemma {:induction false} PAddPoly<F(!new)>(K: Ring<F>, p: seq<F>, q: seq<F>)
    requires IsRing(K) && IsPoly(K, p) && IsPoly(K, q)
    ensures IsPoly(K, PAdd(K, p, q))
    ensures |PAdd(K, p, q)| <= if |p| < |q| then |q| else |p|
    ensures |p| != |q| ==> |PAdd(K, p, q)| == if |p| < |q| then |q| else |p|
  {
    if p != [] && q != [] {
      PAddPoly(K, p[1..], q[1..]);
    }
  }

  lemma {:induction false} PNegPoly<F(!new)>(K: Ring<F>, p: seq<F>)
    requires IsRing(K) && IsPoly(K, p)
    ensures IsPoly(K, PNeg(K, p))
    ensures PAdd(K, p, PNeg(K, p)) == []
  {
    if p != [] {
      TailPoly(K, p);
      PNegPoly(K, p[1..]);
      AddNeg(K, p[0]);
      if |p| == 1 && K.neg(p[0]) == K.zero {
        AddZero(K, p[0]);
      }
    }
  }

  lemma {:induction false} ScalePoly<F(!new)>(K: Ring<F>, c: F, p: seq<F>)
    requires IsRing(K) && K.has(c) && IsPoly(K, p)
    ensures IsPoly(K, Scale(K, c, p)) && |Scale(K, c, p)| <= |p|
  {
    if p != [] {
      ScalePoly(K, c, p[1..]);
    }
  }

  lemma {:induction false} PMulPoly<F(!new)>(K: Ring<F>, p: seq<F>, q: seq<F>)
    requires IsRing(K) && IsPoly(K, p) && IsPoly(K, q)
    ensures IsPoly(K, PMul(K, p, q))
    ensures p != [] && q != [] ==> |PMul(K, p, q)| <= |p| + |q| - 1
    ensures q == [] ==> PMul(K, p, q) == []
  {
    if p != [] {
      PMulPoly(K, p[1..], q);
      ScalePoly(K, p[0], q);
      ConsPoly(K, K.zero, PMul(K, p[1..], q));
      PAddPoly(K, Scale(K, p[0], q), Shift(K, PMul(K, p[1..], q)));
    }
  }

  // ----- addition -----

  lemma PAddCons<F(!new)>(K: Ring<F>, c: F, s: seq<F>, d: F, t: seq<F>)
    requires IsRing(K) && K.has(c) && K.has(d)
    ensures PAdd(K, Cons(K, c, s), Cons(K, d, t)) == Cons(K, K.add(c, d), PAdd(K, s, t))
  {
    AddZero(K, c);
    AddZero(K, d);
    AddZero(K, K.zero);
    if c == K.zero && s == [] {
    } else if d == K.zero && t == [] {
      assert PAdd(K, s, t) == s;
    } else {
      assert ([c] + s)[1..] == s && ([d] + t)[1..] == t;
    }
  }

  lemma {:induction false} PAddComm<F(!new)>(K: Ring<F>, p: seq<F>, q: seq<F>)
    requires IsRing(K) && IsPoly(K, p) && IsPoly(K, q)
    ensures PAdd(K, p, q) == PAdd(K, q, p)
  {
    if p != [] && q != [] {
      PAddComm(K, p[1..], q[1..]);
      AddComm(K, p[0], q[0]);
    }
  }

  lemma {:induction false} PAddAssoc<F(!new)>(K: Ring<F>, p: seq<F>, q: seq<F>, r: seq<F>)
    requires IsRing(K) && IsPoly(K, p) && IsPoly(K, q) && IsPoly(K, r)
    ensures PAdd(K, PAdd(K, p, q), r) == PAdd(K, p, PAdd(K, q, r))
  {
    if p != [] && q != [] && r != [] {
      TailPoly(K, p);
      TailPoly(K, q);
      TailPoly(K, r);
      PAddAssoc(K, p[1..], q[1..], r[1..]);
      AddAssoc(K, p[0], q[0], r[0]);
      PAddCons(K, K.add(p[0], q[0]), PAdd(K, p[1..], q[1..]), r[0], r[1..]);
      PAddCons(K, p[0], p[1..], K.add(q[0], r[0]), PAdd(K, q[1..], r[1..]));
    }
  }

  // (p + q) + (r + s) == (p + r) + (q + s)
  lemma PAddSwap<F(!new)>(K: Ring<F>, p: seq<F>, q: seq<F>, r: seq<F>, s: seq<F>)
    requires IsRing(K) && IsPoly(K, p) && IsPoly(K, q) && IsPoly(K, r) && IsPoly(K, s)
    ensures PAdd(K, PAdd(K, p, q), PAdd(K, r, s)) == PAdd(K, PAdd(K, p, r), PAdd(K, q, s))
  {
    PAddPoly(K, r, s);
    PAddPoly(K, q, s);
    PAddAssoc(K, p, q, PAdd(K, r, s));
    PAddAssoc(K, q, r, s);
    PAddComm(K, q, r);
    PAddAssoc(K, r, q, s);
    PAddAssoc(K, p, r, PAdd(K, q, s));
  }

  // ----- scaling and shifting -----

  lemma ScaleCons<F(!new)>(K: Ring<F>, c: F, d: F, t: seq<F>)
    requires IsRing(K) && K.has(c) && K.has(d)
    ensures Scale(K, c, Cons(K, d, t)) == Cons(K, K.mul(c, d), Scale(K, c, t))
  {
    MulZero(K, c);
    if d == K.zero && t == [] {
    } else {
      assert ([d] + t)[1..] == t;
    }
  }

  lemma {:induction false} ScaleAdd<F(!new)>(K: Ring<F>, c: F, p: seq<F>, q: seq<F>)
    requires IsRing(K) && K.has(c) && IsPoly(K, p) && IsPoly(K, q)
    ensures Scale(K, c, PAdd(K, p, q)) == PAdd(K, Scale(K, c, p), Scale(K, c, q))
  {
    if p != [] && q != [] {
      ScaleAdd(K, c, p[1..], q[1..]);
      Distr(K, c, p[0], q[0]);
      ScaleCons(K, c, K.add(p[0], q[0]), PAdd(K, p[1..], q[1..]));
      PAddCons(K, K.mul(c, p[0]), Scale(K, c, p[1..]), K.mul(c, q[0]), Scale(K, c, q[1..]));
    }
  }

  lemma {:induction false} AddScale<F(!new)>(K: Ring<F>, c: F, d: F, p: seq<F>)
    requires IsRing(K) && K.has(c) && K.has(d) && IsPoly(K, p)
    ensures Scale(K, K.add(c, d), p) == PAdd(K, Scale(K, c, p), Scale(K, d, p))
  {
    if p != [] {
      AddScale(K, c, d, p[1..]);
      DistrRight(K, c, d, p[0]);
      PAddCons(K, K.mul(c, p[0]), Scale(K, c, p[1..]), K.mul(d, p[0]), Scale(K, d, p[1..]));
    }
  }

  lemma {:induction false} ScaleScale<F(!new)>(K: Ring<F>, c: F, d: F, p: seq<F>)
    requires IsRing(K) && K.has(c) && K.has(d) && IsPoly(K, p)
    ensures Scale(K, c, Scale(K, d, p)) == Scale(K, K.mul(c, d), p)
  {
    if p != [] {
      ScaleScale(K, c, d, p[1..]);
      MulAssoc(K, c, d, p[0]);
      ScaleCons(K, c, K.mul(d, p[0]), Scale(K, d, p[1..]));
    }
  }

  lemma {:induction false} ScaleOne<F(!new)>(K: Ring<F>, p: seq<F>)
    requires IsRing(K) && IsPoly(K, p)
    ensures Scale(K, K.one, p) == p
  {
    if p != [] {
      TailPoly(K, p);
      ScaleOne(K, p[1..]);
      MulOne(K, p[0]);
    }
  }

  lemma {:induction false} ScaleZero<F(!new)>(K: Ring<F>, p: seq<F>)
    requires IsRing(K) && IsPoly(K, p)
    ensures Scale(K, K.zero, p) == []
  {
    if p != [] {
      ScaleZero(K, p[1..]);
      MulZero(K, p[0]);
    }
  }

  lemma ShiftAdd<F(!new)>(K: Ring<F>, p: seq<F>, q: seq<F>)
    requires IsRing(K)
    ensures Shift(K, PAdd(K, p, q)) == PAdd(K, Shift(K, p), Shift(K, q))
  {
    PAddCons(K, K.zero, p, K.zero, q);
    AddZero(K, K.zero);
  }

  lemma ScaleShift<F(!new)>(K: Ring<F>, c: F, p: seq<F>)
    requires IsRing(K) && K.has(c)
    ensures Scale(K, c, Shift(K, p)) == Shift(K, Scale(K, c, p))
  {
    ScaleCons(K, c, K.zero, p);
    MulZero(K, c);
  }

  // ----- multiplication -----

  // (c + x t) q == c q + x (t q)
  lemma MulCons<F(!new)>(K: Ring<F>, c: F, t: seq<F>, q: seq<F>)
    requires IsRing(K) && K.has(c) && IsPoly(K, t) && IsPoly(K, q)
    ensures PMul(K, Cons(K, c, t), q) == PAdd(K, Scale(K, c, q), Shift(K, PMul(K, t, q)))
  {
    if c == K.zero && t == [] {
      ScaleZero(K, q);
    } else {
      assert ([c] + t)[1..] == t;
    }
  }

  // (c q + x u) + (d q + x v) == (c + d) q + x (u + v)
  lemma HornerSum<F(!new)>(K: Ring<F>, c: F, d: F, q: seq<F>, u: seq<F>, v: seq<F>)
    requires IsRing(K) && K.has(c) && K.has(d) && IsPoly(K, q) && IsPoly(K, u) && IsPoly(K, v)
    ensures PAdd(K, PAdd(K, Scale(K, c, q), Shift(K, u)), PAdd(K, Scale(K, d, q), Shift(K, v)))
         == PAdd(K, Scale(K, K.add(c, d), q), Shift(K, PAdd(K, u, v)))
  {
    AddScale(K, c, d, q);
    ShiftAdd(K, u, v);
    ScalePoly(K, c, q);
    ScalePoly(K, d, q);
    PAddSwap(K, Scale(K, c, q), Shift(K, u), Scale(K, d, q), Shift(K, v));
  }

  lemma PMulHead<F(!new)>(K: Ring<F>, p: seq<F>, q: seq<F>)
    requires p != []
    ensures PMul(K, p, q) == PAdd(K, Scale(K, p[0], q), Shift(K, PMul(K, p[1..], q)))
  {}

  lemma PAddHead<F(!new)>(K: Ring<F>, p: seq<F>, q: seq<F>)
    requires p != [] && q != []
    ensures PAdd(K, p, q) == Cons(K, K.add(p[0], q[0]), PAdd(K, p[1..], q[1..]))
  {}

  lemma NothingToAdd<F(!new)>(K: Ring<F>, p: seq<F>, q: seq<F>, r: seq<F>)
    requires p == [] || q == []
    ensures PMul(K, PAdd(K, p, q), r) == PAdd(K, PMul(K, p, r), PMul(K, q, r))
  {}

  lemma {:induction false} PDistrRight<F(!new)>(K: Ring<F>, p: seq<F>, q: seq<F>, r: seq<F>)
    requires IsRing(K) && IsPoly(K, p) && IsPoly(K, q) && IsPoly(K, r)
    ensures PMul(K, PAdd(K, p, q), r) == PAdd(K, PMul(K, p, r), PMul(K, q, r))
  {
    hide PMul, PAdd, Scale, Shift, IsPoly;
    PMulPoly(K, p, r);
    PMulPoly(K, q, r);
    if p == [] || q == [] {
      NothingToAdd(K, p, q, r);
    } else {
      var (s, t) := (p[1..], q[1..]);
      TailPoly(K, p);
      TailPoly(K, q);
      PAddPoly(K, s, t);
      PMulPoly(K, s, r);
      PMulPoly(K, t, r);
      PAddHead(K, p, q);
      PMulHead(K, p, r);
      PMulHead(K, q, r);
      PDistrRight(K, s, t, r);
      MulCons(K, K.add(p[0], q[0]), PAdd(K, s, t), r);
      HornerSum(K, p[0], q[0], r, PMul(K, s, r), PMul(K, t, r));
    }
  }

  lemma {:induction false} ScaleMul<F(!new)>(K: Ring<F>, c: F, p: seq<F>, q: seq<F>)
    requires IsRing(K) && K.has(c) && IsPoly(K, p) && IsPoly(K, q)
    ensures PMul(K, Scale(K, c, p), q) == Scale(K, c, PMul(K, p, q))
  {
    hide PAdd;
    if p != [] {
      TailPoly(K, p);
      var t := p[1..];
      ScaleMul(K, c, t, q);
      ScalePoly(K, c, t);
      MulCons(K, K.mul(c, p[0]), Scale(K, c, t), q);
      ScaleScale(K, c, p[0], q);
      PMulPoly(K, t, q);
      ScaleShift(K, c, PMul(K, t, q));
      ScalePoly(K, p[0], q);
      ScaleAdd(K, c, Scale(K, p[0], q), Shift(K, PMul(K, t, q)));
    }
  }

  // (x p) q == x (p q)
  lemma ShiftMul<F(!new)>(K: Ring<F>, p: seq<F>, q: seq<F>)
    requires IsRing(K) && IsPoly(K, p) && IsPoly(K, q)
    ensures PMul(K, Shift(K, p), q) == Shift(K, PMul(K, p, q))
  {
    MulCons(K, K.zero, p, q);
    ScaleZero(K, q);
  }

  // p (c + x t) == c p + x (p t)
  lemma NothingTimesCons<F(!new)>(K: Ring<F>, c: F, t: seq<F>)
    ensures PMul(K, [], Cons(K, c, t)) == PAdd(K, Scale(K, c, []), Shift(K, PMul(K, [], t)))
  {}

  lemma HeadHas<F(!new)>(K: Ring<F>, p: seq<F>)
    requires IsPoly(K, p) && p != []
    ensures K.has(p[0])
  {}

  lemma ScaleHead<F(!new)>(K: Ring<F>, c: F, p: seq<F>)
    requires p != []
    ensures Scale(K, c, p) == Cons(K, K.mul(c, p[0]), Scale(K, c, p[1..]))
  {}

  lemma {:induction false} MulConsRight<F(!new)>(K: Ring<F>, p: seq<F>, c: F, t: seq<F>)
    requires IsRing(K) && IsPoly(K, p) && K.has(c) && IsPoly(K, t)
    ensures PMul(K, p, Cons(K, c, t)) == PAdd(K, Scale(K, c, p), Shift(K, PMul(K, p, t)))
  {
    hide PMul, PAdd, Scale, Cons, IsPoly;
    if p == [] {
      NothingTimesCons(K, c, t);
    } else {
      TailPoly(K, p);
      var (h, s) := (p[0], p[1..]);
      HeadHas(K, p);
      MulConsRight(K, s, c, t);
      PMulPoly(K, s, t);
      PMulPoly(K, p, t);
      ScalePoly(K, c, s);
      ScalePoly(K, h, t);
      ScaleCons(K, h, c, t);
      MulComm(K, h, c);
      AddZero(K, K.mul(h, c));
      var m := Shift(K, PMul(K, s, t));
      ConsPoly(K, K.zero, PMul(K, s, t));
      PAddPoly(K, Scale(K, c, s), m);
      PMulHead(K, p, Cons(K, c, t));
      PMulHead(K, p, t);
      ScaleHead(K, c, p);
      calc {
        PMul(K, p, Cons(K, c, t));
        PAdd(K, Cons(K, K.mul(h, c), Scale(K, h, t)), Cons(K, K.zero, PAdd(K, Scale(K, c, s), m)));
        { PAddCons(K, K.mul(h, c), Scale(K, h, t), K.zero, PAdd(K, Scale(K, c, s), m)); }
        Cons(K, K.mul(h, c), PAdd(K, Scale(K, h, t), PAdd(K, Scale(K, c, s), m)));
        { PAddAssoc(K, Scale(K, h, t), Scale(K, c, s), m);
          PAddComm(K, Scale(K, h, t), Scale(K, c, s));
          PAddAssoc(K, Scale(K, c, s), Scale(K, h, t), m); }
        Cons(K, K.mul(c, h), PAdd(K, Scale(K, c, s), PMul(K, p, t)));
        { PAddCons(K, K.mul(c, h), Scale(K, c, s), K.zero, PMul(K, p, t)); }
        PAdd(K, Scale(K, c, p), Shift(K, PMul(K, p, t)));
      }
    }
  }

  lemma {:induction false} PMulComm<F(!new)>(K: Ring<F>, p: seq<F>, q: seq<F>)
    requires IsRing(K) && IsPoly(K, p) && IsPoly(K, q)
    ensures PMul(K, p, q) == PMul(K, q, p)
  {
    if p == [] {
      PMulPoly(K, q, p);
    } else {
      TailPoly(K, p);
      PMulComm(K, p[1..], q);
      MulConsRight(K, q, p[0], p[1..]);
    }
  }

  lemma NothingTimes<F(!new)>(K: Ring<F>, q: seq<F>, r: seq<F>)
    ensures PMul(K, PMul(K, [], q), r) == PMul(K, [], PMul(K, q, r))
  {}

  lemma {:induction false} PMulAssoc<F(!new)>(K: Ring<F>, p: seq<F>, q: seq<F>, r: seq<F>)
    requires IsRing(K) && IsPoly(K, p) && IsPoly(K, q) && IsPoly(K, r)
    ensures PMul(K, PMul(K, p, q), r) == PMul(K, p, PMul(K, q, r))
  {
    hide PMul, PAdd, Scale, Cons;
    if p == [] {
      NothingTimes(K, q, r);
    } else {
      TailPoly(K, p);
      var t := p[1..];
      PMulAssoc(K, t, q, r);
      ScalePoly(K, p[0], q);
      PMulPoly(K, t, q);
      ConsPoly(K, K.zero, PMul(K, t, q));
      PMulHead(K, p, q);
      PMulHead(K, p, PMul(K, q, r));
      PDistrRight(K, Scale(K, p[0], q), Shift(K, PMul(K, t, q)), r);
      ScaleMul(K, p[0], q, r);
      ShiftMul(K, PMul(K, t, q), r);
    }
  }

  lemma ConstMul<F(!new)>(K: Ring<F>, c: F, q: seq<F>)
    requires IsRing(K) && K.has(c) && IsPoly(K, q)
    ensures IsPoly(K, Const(K, c))
    ensures PMul(K, Const(K, c), q) == Scale(K, c, q) == PMul(K, q, Const(K, c))
  {
    MulCons(K, c, [], q);
    PMulComm(K, Const(K, c), q);
    ScalePoly(K, c, q);
  }

  // ----- polynomials are themselves a coefficient ring -----

  /** K[x]; only the units of K are inverted. */
  ghost function PolyRing<F(!new)>(K: Ring<F>): Ring<seq<F>> {
    Ring(p => IsPoly(K, p), [], Const(K, K.one),
         (p, q) => PAdd(K, p, q), p => PNeg(K, p), (p, q) => PMul(K, p, q),
         p => if |p| == 1 && K.inverse(p[0]).Some? then Some(Const(K, K.inverse(p[0]).value)) else None)
  }

  lemma PolyRingClosed<F(!new)>(K: Ring<F>)
    requires IsRing(K)
    ensures Closed(PolyRing(K))
  {
    ConsPoly(K, K.one, []);
    forall p, q | IsPoly(K, p) && IsPoly(K, q)
      ensures IsPoly(K, PAdd(K, p, q)) && IsPoly(K, PMul(K, p, q)) && IsPoly(K, PNeg(K, p))
    {
      PAddPoly(K, p, q);
      PMulPoly(K, p, q);
      PNegPoly(K, p);
    }
  }

  lemma PDistr<F(!new)>(K: Ring<F>, p: seq<F>, q: seq<F>, r: seq<F>)
    requires IsRing(K) && IsPoly(K, p) && IsPoly(K, q) && IsPoly(K, r)
    ensures PMul(K, p, PAdd(K, q, r)) == PAdd(K, PMul(K, p, q), PMul(K, p, r))
  {
    PAddPoly(K, q, r);
    PDistrRight(K, q, r, p);
    PMulComm(K, p, PAdd(K, q, r));
    PMulComm(K, p, q);
    PMulComm(K, p, r);
  }

  lemma PolyRingLaws<F(!new)>(K: Ring<F>)
    requires IsRing(K)
    ensures Laws(PolyRing(K))
  {
    var P := PolyRing(K);
    forall p, q | P.has(p) && P.has(q)
      ensures AddCommAt(P, p, q) && MulCommAt(P, p, q)
    {
      PAddComm(K, p, q);
      PMulComm(K, p, q);
    }
    forall p | P.has(p)
      ensures P.add(p, P.neg(p)) == P.zero && P.mul(P.one, p) == p
    {
      PNegPoly(K, p);
      ConstMul(K, K.one, p);
      ScaleOne(K, p);
    }
    forall p, q, r | P.has(p) && P.has(q) && P.has(r)
      ensures AddAssocAt(P, p, q, r) && MulAssocAt(P, p, q, r) && DistrAt(P, p, q, r)
    {
      PAddAssoc(K, p, q, r);
      PMulAssoc(K, p, q, r);
      PDistr(K, p, q, r);
    }
  }

  lemma PolyRingInverse<F(!new)>(K: Ring<F>)
    requires IsRing(K)
    ensures InverseSound(PolyRing(K))
  {
    var P := PolyRing(K);
    forall p | P.has(p) && P.inverse(p).Some?
      ensures P.has(P.inverse(p).value) && P.mul(p, P.inverse(p).value) == P.one
    {
      var i := K.inverse(p[0]).value;
      ConstMul(K, i, p);
      MulComm(K, i, p[0]);
      assert p[1..] == [];
    }
  }

  lemma PolyRingIsRing<F(!new)>(K: Ring<F>)
    requires IsRing(K)
    ensures IsRing(PolyRing(K))
  {
    PolyRingClosed(K);
    PolyRingLaws(K);
    PolyRingInverse(K);
  }

  // ----- degrees over a domain -----

  lemma {:induction false} ScaleTop<F(!new)>(K: Ring<F>, c: F, p: seq<F>)
    requires IsRing(K) && K.has(c) && IsPoly(K, p)
    requires p != [] && K.mul(c, p[|p| - 1]) != K.zero
    ensures |Scale(K, c, p)| == |p| && Scale(K, c, p)[|p| - 1] == K.mul(c, p[|p| - 1])
  {
    if |p| > 1 {
      ScaleTop(K, c, p[1..]);
    }
  }

  lemma ScaleLen<F(!new)>(K: Ring<F>, c: F, p: seq<F>)
    requires IsDomain(K) && K.has(c) && c != K.zero && IsPoly(K, p)
    ensures |Scale(K, c, p)| == |p|
    ensures p != [] ==> Scale(K, c, p)[|p| - 1] == K.mul(c, p[|p| - 1])
  {
    if p != [] {
      ScaleTop(K, c, p);
    }
  }

  lemma {:induction false} ScaleShorter<F(!new)>(K: Ring<F>, c: F, q: seq<F>)
    ensures |Scale(K, c, q)| <= |q|
  {
    if q != [] { ScaleShorter(K, c, q[1..]); }
  }

  lemma {:induction false} PMulTop<F(!new)>(K: Ring<F>, p: seq<F>, q: seq<F>)
    requires IsRing(K) && IsPoly(K, p) && IsPoly(K, q) && p != [] && q != []
    requires K.mul(p[|p| - 1], q[|q| - 1]) != K.zero
    ensures |PMul(K, p, q)| == |p| + |q| - 1
    ensures PMul(K, p, q)[|p| + |q| - 2] == K.mul(p[|p| - 1], q[|q| - 1])
  {
    hide PMul, PAdd, Scale, Shift;
    var t, s := p[1..], Scale(K, p[0], q);
    ScalePoly(K, p[0], q);
    if |p| == 1 {
      ScaleTop(K, p[0], q);
      OneTerm(K, p, q);
    } else {
      TailPoly(K, p);
      PMulPoly(K, t, q);
      PMulHead(K, p, q);
      ScaleShorter(K, p[0], q);
      assert t[|t| - 1] == p[|p| - 1];
      PMulTop(K, t, q);
      AddShifted(K, s, PMul(K, t, q));
    }
  }

  lemma OneTerm<F(!new)>(K: Ring<F>, p: seq<F>, q: seq<F>)
    requires |p| == 1
    ensures PMul(K, p, q) == Scale(K, p[0], q)
  {
    assert p[1..] == [] && PMul(K, [], q) == [];
  }

  lemma AddShifted<F(!new)>(K: Ring<F>, s: seq<F>, m: seq<F>)
    requires IsRing(K) && IsPoly(K, s) && IsPoly(K, m) && m != [] && |s| <= |m|
    ensures var r := PAdd(K, s, Shift(K, m)); |r| == |m| + 1 && r[|m|] == m[|m| - 1]
  {
    ConsPoly(K, K.zero, m);
    PAddTop(K, s, Shift(K, m));
  }

  lemma PMulLen<F(!new)>(K: Ring<F>, p: seq<F>, q: seq<F>)
    requires IsDomain(K) && IsPoly(K, p) && IsPoly(K, q) && p != [] && q != []
    ensures |PMul(K, p, q)| == |p| + |q| - 1
    ensures PMul(K, p, q)[|p| + |q| - 2] == K.mul(p[|p| - 1], q[|q| - 1])
  {
    PMulTop(K, p, q);
  }

  lemma {:induction false} PAddTop<F(!new)>(K: Ring<F>, p: seq<F>, q: seq<F>)
    requires IsRing(K) && IsPoly(K, p) && IsPoly(K, q) && |p| < |q|
    ensures |PAdd(K, p, q)| == |q| && PAdd(K, p, q)[|q| - 1] == q[|q| - 1]
  {
    if p != [] {
      PAddTop(K, p[1..], q[1..]);
    }
  }

  lemma PolyRingIsDomain<F(!new)>(K: Ring<F>)
    requires IsDomain(K)
    ensures IsDomain(PolyRing(K))
  {
    PolyRingIsRing(K);
    forall p, q | IsPoly(K, p) && IsPoly(K, q) && PMul(K, p, q) == []
      ensures p == [] || q == []
    {
      if p != [] && q != [] {
        PMulLen(K, p, q);
      }
    }
  }

  lemma SquareOfX<F(!new)>(K: Ring<F>)
    requires IsRing(K)
    ensures var x := [K.zero, K.one];
      IsPoly(K, x) && PMul(K, x, x) == [K.zero, K.zero, K.one] && IsPoly(K, [K.zero, K.zero, K.one])
  {
    var x := [K.zero, K.one];
    assert x[1..] == [K.one] == Const(K, K.one);
    ConstMul(K, K.one, x);
    ScaleOne(K, x);
    ScaleZero(K, x);
  }
}
