/** Coefficient rings.

  The polynomial algorithms are templates over a coefficient type, and reach it only through
  a small record of operations.  Ring is that record.  A ring that is not a field may still
  invert some of its elements, so inverse is partial. */
module Rings {

  datatype Option<+T> = None | Some(value: T)

  datatype Ring<!F> = Ring(
    has: F -> bool,        // the values in canonical form
    zero: F,
    one: F,
    add: (F, F) -> F,
    neg: F -> F,
    mul: (F, F) -> F,
    inverse: F -> Option<F>)

  // The equational axioms, each behind a name so that they are used only when asked for.

  ghost predicate AddAssocAt<F>(K: Ring<F>, a: F, b: F, c: F) {
    K.add(K.add(a, b), c) == K.add(a, K.add(b, c))
  }

  ghost predicate AddCommAt<F>(K: Ring<F>, a: F, b: F) {
    K.add(a, b) == K.add(b, a)
  }

  ghost predicate MulAssocAt<F>(K: Ring<F>, a: F, b: F, c: F) {
    K.mul(K.mul(a, b), c) == K.mul(a, K.mul(b, c))
  }

  ghost predicate MulCommAt<F>(K: Ring<F>, a: F, b: F) {
    K.mul(a, b) == K.mul(b, a)
  }

  ghost predicate DistrAt<F>(K: Ring<F>, a: F, b: F, c: F) {
    K.mul(a, K.add(b, c)) == K.add(K.mul(a, b), K.mul(a, c))
  }

  ghost predicate Closed<F(!new)>(K: Ring<F>) {
    && K.has(K.zero)
    && K.has(K.one)
    && (forall a, b {:trigger K.add(a, b)} :: K.has(a) && K.has(b) ==> K.has(K.add(a, b)))
    && (forall a {:trigger K.neg(a)} :: K.has(a) ==> K.has(K.neg(a)))
    && (forall a, b {:trigger K.mul(a, b)} :: K.has(a) && K.has(b) ==> K.has(K.mul(a, b)))
  }

  ghost predicate Laws<F(!new)>(K: Ring<F>) {
    && (forall a, b {:trigger AddCommAt(K, a, b)} :: K.has(a) && K.has(b) ==> AddCommAt(K, a, b))
    && (forall a, b {:trigger MulCommAt(K, a, b)} :: K.has(a) && K.has(b) ==> MulCommAt(K, a, b))
    && (forall a, b, c {:trigger AddAssocAt(K, a, b, c)} ::
          K.has(a) && K.has(b) && K.has(c) ==> AddAssocAt(K, a, b, c))
    && (forall a, b, c {:trigger MulAssocAt(K, a, b, c)} ::
          K.has(a) && K.has(b) && K.has(c) ==> MulAssocAt(K, a, b, c))
    && (forall a, b, c {:trigger DistrAt(K, a, b, c)} ::
          K.has(a) && K.has(b) && K.has(c) ==> DistrAt(K, a, b, c))
    && (forall a {:trigger K.add(K.zero, a)} :: K.has(a) ==> K.add(K.zero, a) == a)
    && (forall a {:trigger K.mul(K.one, a)} :: K.has(a) ==> K.mul(K.one, a) == a)
    && (forall a {:trigger K.neg(a)} :: K.has(a) ==> K.add(a, K.neg(a)) == K.zero)
  }

  /** A reported inverse is an inverse, and the unit is inverted. */
  ghost predicate InverseSound<F(!new)>(K: Ring<F>) {
    && K.inverse(K.one).Some?
    && forall a {:trigger K.inverse(a)} :: K.has(a) && K.inverse(a).Some? ==>
      K.has(K.inverse(a).value) && K.mul(a, K.inverse(a).value) == K.one
  }

  /** A non-trivial commutative ring whose partial inverse is sound: what the helpers demand of a
      coefficient type.  (A conditional rather than a conjunction, here and below, so that callers
      pass it on as one fact.) */
  ghost predicate IsRing<F(!new)>(K: Ring<F>) {
    if Closed(K) && Laws(K) && InverseSound(K) && K.zero != K.one then true else false
  }

  /** A ring in which exactly the non-zero elements are inverted. */
  ghost predicate IsField<F(!new)>(K: Ring<F>) {
    if IsRing(K) && InvertsNonZero(K) then true else false
  }

  ghost predicate InvertsNonZero<F(!new)>(K: Ring<F>) {
    forall a {:trigger K.inverse(a)} :: K.has(a) ==> (K.inverse(a).Some? <==> a != K.zero)
  }

  ghost predicate IsDomain<F(!new)>(K: Ring<F>) {
    if IsRing(K) && NoZeroDivisors(K) then true else false
  }

  ghost predicate NoZeroDivisors<F(!new)>(K: Ring<F>) {
    forall a, b {:trigger K.mul(a, b)} ::
      K.has(a) && K.has(b) && K.mul(a, b) == K.zero ==> a == K.zero || b == K.zero
  }

  function Sub<F>(K: Ring<F>, a: F, b: F): F {
    K.add(a, K.neg(b))
  }

  // ----- consequences of the axioms -----

  lemma AddComm<F(!new)>(K: Ring<F>, a: F, b: F)
    requires IsRing(K) && K.has(a) && K.has(b)
    ensures K.add(a, b) == K.add(b, a)
  {
    assert AddCommAt(K, a, b);
  }

  lemma AddAssoc<F(!new)>(K: Ring<F>, a: F, b: F, c: F)
    requires IsRing(K) && K.has(a) && K.has(b) && K.has(c)
    ensures K.add(K.add(a, b), c) == K.add(a, K.add(b, c))
  {
    assert AddAssocAt(K, a, b, c);
  }

  lemma MulComm<F(!new)>(K: Ring<F>, a: F, b: F)
    requires IsRing(K) && K.has(a) && K.has(b)
    ensures K.mul(a, b) == K.mul(b, a)
  {
    assert MulCommAt(K, a, b);
  }

  lemma MulAssoc<F(!new)>(K: Ring<F>, a: F, b: F, c: F)
    requires IsRing(K) && K.has(a) && K.has(b) && K.has(c)
    ensures K.mul(K.mul(a, b), c) == K.mul(a, K.mul(b, c))
  {
    assert MulAssocAt(K, a, b, c);
  }

  lemma Distr<F(!new)>(K: Ring<F>, a: F, b: F, c: F)
    requires IsRing(K) && K.has(a) && K.has(b) && K.has(c)
    ensures K.mul(a, K.add(b, c)) == K.add(K.mul(a, b), K.mul(a, c))
  {
    assert DistrAt(K, a, b, c);
  }

  lemma DistrRight<F(!new)>(K: Ring<F>, a: F, b: F, c: F)
    requires IsRing(K) && K.has(a) && K.has(b) && K.has(c)
    ensures K.mul(K.add(a, b), c) == K.add(K.mul(a, c), K.mul(b, c))
  {
    MulComm(K, K.add(a, b), c);
    Distr(K, c, a, b);
    MulComm(K, c, a);
    MulComm(K, c, b);
  }

  lemma AddZero<F(!new)>(K: Ring<F>, a: F)
    requires IsRing(K) && K.has(a)
    ensures K.add(a, K.zero) == a == K.add(K.zero, a)
  {
    AddComm(K, a, K.zero);
  }

  lemma MulOne<F(!new)>(K: Ring<F>, a: F)
    requires IsRing(K) && K.has(a)
    ensures K.mul(a, K.one) == a == K.mul(K.one, a)
  {
    MulComm(K, a, K.one);
  }

  lemma AddNeg<F(!new)>(K: Ring<F>, a: F)
    requires IsRing(K) && K.has(a)
    ensures K.add(a, K.neg(a)) == K.zero == K.add(K.neg(a), a)
  {
    AddComm(K, a, K.neg(a));
  }

  lemma AddCancel<F(!new)>(K: Ring<F>, a: F, b: F, c: F)
    requires IsRing(K) && K.has(a) && K.has(b) && K.has(c)
    requires K.add(a, b) == K.add(a, c)
    ensures b == c
  {
    AddNeg(K, a);
    AddAssoc(K, K.neg(a), a, b);
    AddAssoc(K, K.neg(a), a, c);
    AddZero(K, b);
    AddZero(K, c);
  }

  lemma MulZero<F(!new)>(K: Ring<F>, a: F)
    requires IsRing(K) && K.has(a)
    ensures K.mul(a, K.zero) == K.zero == K.mul(K.zero, a)
  {
    var z := K.mul(a, K.zero);
    AddZero(K, K.zero);
    Distr(K, a, K.zero, K.zero);
    AddZero(K, z);
    AddCancel(K, z, z, K.zero);
    MulComm(K, a, K.zero);
  }

  /** The additive inverse is unique. */
  lemma NegUnique<F(!new)>(K: Ring<F>, a: F, b: F)
    requires IsRing(K) && K.has(a) && K.has(b)
    requires K.add(a, b) == K.zero
    ensures b == K.neg(a)
  {
    AddNeg(K, a);
    AddCancel(K, a, b, K.neg(a));
  }

  lemma MulNeg<F(!new)>(K: Ring<F>, a: F, b: F)
    requires IsRing(K) && K.has(a) && K.has(b)
    ensures K.mul(a, K.neg(b)) == K.neg(K.mul(a, b)) == K.mul(K.neg(a), b)
  {
    Distr(K, a, b, K.neg(b));
    AddNeg(K, b);
    MulZero(K, a);
    NegUnique(K, K.mul(a, b), K.mul(a, K.neg(b)));
    DistrRight(K, a, K.neg(a), b);
    AddNeg(K, a);
    MulZero(K, b);
    NegUnique(K, K.mul(a, b), K.mul(K.neg(a), b));
  }

  lemma NegNeg<F(!new)>(K: Ring<F>, a: F)
    requires IsRing(K) && K.has(a)
    ensures K.neg(K.neg(a)) == a
  {
    AddNeg(K, a);
    NegUnique(K, K.neg(a), a);
  }

  lemma NegZero<F(!new)>(K: Ring<F>)
    requires IsRing(K)
    ensures K.neg(K.zero) == K.zero
  {
    AddZero(K, K.zero);
    NegUnique(K, K.zero, K.zero);
  }

  /** (a + b) + (c + d) == (a + c) + (b + d) */
  lemma AddSwap<F(!new)>(K: Ring<F>, a: F, b: F, c: F, d: F)
    requires IsRing(K) && K.has(a) && K.has(b) && K.has(c) && K.has(d)
    ensures K.add(K.add(a, b), K.add(c, d)) == K.add(K.add(a, c), K.add(b, d))
  {
    AddAssoc(K, a, b, K.add(c, d));
    AddAssoc(K, b, c, d);
    AddComm(K, b, c);
    AddAssoc(K, c, b, d);
    AddAssoc(K, a, c, K.add(b, d));
  }

  lemma NegAdd<F(!new)>(K: Ring<F>, a: F, b: F)
    requires IsRing(K) && K.has(a) && K.has(b)
    ensures K.neg(K.add(a, b)) == K.add(K.neg(a), K.neg(b))
  {
    AddSwap(K, a, b, K.neg(a), K.neg(b));
    AddNeg(K, a);
    AddNeg(K, b);
    AddZero(K, K.zero);
    NegUnique(K, K.add(a, b), K.add(K.neg(a), K.neg(b)));
  }

  /** a * (b * c) == b * (a * c) */
  lemma MulSwap<F(!new)>(K: Ring<F>, a: F, b: F, c: F)
    requires IsRing(K) && K.has(a) && K.has(b) && K.has(c)
    ensures K.mul(a, K.mul(b, c)) == K.mul(b, K.mul(a, c))
  {
    MulAssoc(K, a, b, c);
    MulComm(K, a, b);
    MulAssoc(K, b, a, c);
  }

  lemma SubSelf<F(!new)>(K: Ring<F>, a: F, b: F)
    requires IsRing(K) && K.has(a) && K.has(b)
    ensures (Sub(K, a, b) == K.zero) <==> a == b
    ensures K.add(Sub(K, a, b), b) == a
  {
    AddNeg(K, b);
    AddAssoc(K, a, K.neg(b), b);
    AddZero(K, a);
    AddZero(K, b);
  }

  /** (a + b) + (c - a) == b + c */
  lemma BorrowAndReturn<F(!new)>(K: Ring<F>, a: F, b: F, c: F)
    requires IsRing(K) && K.has(a) && K.has(b) && K.has(c)
    ensures K.add(K.add(a, b), Sub(K, c, a)) == K.add(b, c)
  {
    AddComm(K, a, b);
    AddAssoc(K, b, a, Sub(K, c, a));
    AddComm(K, a, Sub(K, c, a));
    SubSelf(K, c, a);
  }

  lemma MulSub<F(!new)>(K: Ring<F>, a: F, b: F, c: F)
    requires IsRing(K) && K.has(a) && K.has(b) && K.has(c)
    ensures K.mul(a, Sub(K, b, c)) == Sub(K, K.mul(a, b), K.mul(a, c))
  {
    Distr(K, a, b, K.neg(c));
    MulNeg(K, a, c);
  }

  /** Every field is an integral domain. */
  lemma FieldIsDomain<F(!new)>(K: Ring<F>)
    requires IsField(K)
    ensures IsDomain(K)
  {
    forall a, b | K.has(a) && K.has(b) && K.mul(a, b) == K.zero
      ensures a == K.zero || b == K.zero
    {
      if a != K.zero {
        var i := K.inverse(a).value;
        MulComm(K, a, i);
        MulAssoc(K, i, a, b);
        MulOne(K, b);
        MulZero(K, i);
      }
    }
  }

  /** The inverse is unique. */
  lemma InverseUnique<F(!new)>(K: Ring<F>, a: F, i: F)
    requires IsRing(K) && K.has(a) && K.has(i)
    requires K.inverse(a).Some? && K.mul(a, i) == K.one
    ensures i == K.inverse(a).value
  {
    var j := K.inverse(a).value;
    MulAssoc(K, j, a, i);
    MulComm(K, j, a);
    MulOne(K, i);
    MulOne(K, j);
  }

  lemma SubZero<F(!new)>(K: Ring<F>, a: F)
    requires IsRing(K) && (K.has(a) || a == K.zero)
    ensures Sub(K, a, K.zero) == a
  {
    NegZero(K);
    AddZero(K, a);
  }

  lemma InverseOne<F(!new)>(K: Ring<F>)
    requires IsRing(K)
    ensures K.inverse(K.one) == Some(K.one)
  {
    MulOne(K, K.one);
    InverseUnique(K, K.one, K.one);
  }

  /** An inverted element is no zero divisor. */
  lemma UnitTimesNonZero<F(!new)>(K: Ring<F>, u: F, a: F)
    requires IsRing(K) && K.has(u) && K.has(a)
    requires K.inverse(u).Some? && a != K.zero
    ensures K.mul(u, a) != K.zero && K.mul(a, u) != K.zero && u != K.zero
  {
    var i := K.inverse(u).value;
    MulComm(K, u, i);
    MulAssoc(K, i, u, a);
    MulOne(K, a);
    MulZero(K, i);
    MulComm(K, u, a);
    MulZero(K, a);
  }

  lemma CancelLeft<F(!new)>(K: Ring<F>, a: F, b: F, c: F)
    requires IsDomain(K) && K.has(a) && K.has(b) && K.has(c)
    requires a != K.zero && K.mul(a, b) == K.mul(a, c)
    ensures b == c
  {
    MulSub(K, a, b, c);
    SubSelf(K, K.mul(a, b), K.mul(a, c));
    SubSelf(K, b, c);
  }

  // (a - q b) * c == a * c - q * (b * c)
  lemma SubMul<F(!new)>(K: Ring<F>, a: F, q: F, b: F, c: F)
    requires IsRing(K) && K.has(a) && K.has(q) && K.has(b) && K.has(c)
    ensures K.mul(Sub(K, a, K.mul(q, b)), c) == Sub(K, K.mul(a, c), K.mul(q, K.mul(b, c)))
  {
    DistrRight(K, a, K.neg(K.mul(q, b)), c);
    MulNeg(K, K.mul(q, b), c);
    MulAssoc(K, q, b, c);
  }

  // (a - b) + (c - d) == (a + c) - (b + d)
  lemma SubSwap<F(!new)>(K: Ring<F>, a: F, b: F, c: F, d: F)
    requires IsRing(K) && K.has(a) && K.has(b) && K.has(c) && K.has(d)
    ensures K.add(Sub(K, a, b), Sub(K, c, d)) == Sub(K, K.add(a, c), K.add(b, d))
  {
    AddSwap(K, a, K.neg(b), c, K.neg(d));
    NegAdd(K, b, d);
  }

  lemma SubOfSum<F(!new)>(K: Ring<F>, a: F, b: F, c: F)
    requires IsRing(K) && K.has(a) && K.has(b) && K.has(c) && K.add(a, b) == c
    ensures b == Sub(K, c, a)
  {
    SubSelf(K, c, a);
    AddComm(K, Sub(K, c, a), a);
    AddCancel(K, a, b, Sub(K, c, a));
  }

  // ----- linear combinations and divisibility -----

  function Comb<F>(K: Ring<F>, s: F, a: F, t: F, b: F): F {
    K.add(K.mul(s, a), K.mul(t, b))
  }

  /** One step of the extended Euclidean algorithm keeps the combination. */
  lemma CombStep<F(!new)>(K: Ring<F>, s0: F, s1: F, t0: F, t1: F, q: F, a: F, b: F)
    requires IsRing(K) && K.has(s0) && K.has(s1) && K.has(t0) && K.has(t1) && K.has(q) && K.has(a) && K.has(b)
    ensures Comb(K, Sub(K, s0, K.mul(q, s1)), a, Sub(K, t0, K.mul(q, t1)), b)
         == Sub(K, Comb(K, s0, a, t0, b), K.mul(q, Comb(K, s1, a, t1, b)))
  {
    SubMul(K, s0, q, s1, a);
    SubMul(K, t0, q, t1, b);
    SubSwap(K, K.mul(s0, a), K.mul(q, K.mul(s1, a)), K.mul(t0, b), K.mul(q, K.mul(t1, b)));
    Distr(K, q, K.mul(s1, a), K.mul(t1, b));
  }

  ghost predicate Divides<F(!new)>(K: Ring<F>, d: F, a: F) {
    exists q {:trigger K.mul(q, d)} :: K.has(q) && K.mul(q, d) == a
  }

  lemma DividesIntro<F(!new)>(K: Ring<F>, q: F, d: F, a: F)
    requires K.has(q) && K.mul(q, d) == a
    ensures Divides(K, d, a)
  {}

  lemma DividesSelf<F(!new)>(K: Ring<F>, a: F)
    requires IsRing(K) && K.has(a)
    ensures Divides(K, a, a)
  {
    MulOne(K, a);
    DividesIntro(K, K.one, a, a);
  }

  lemma DividesZero<F(!new)>(K: Ring<F>, a: F)
    requires IsRing(K) && K.has(a)
    ensures Divides(K, a, K.zero)
  {
    MulZero(K, a);
    DividesIntro(K, K.zero, a, K.zero);
  }

  lemma DividesMul<F(!new)>(K: Ring<F>, d: F, a: F, b: F)
    requires IsRing(K) && K.has(d) && K.has(a) && K.has(b) && Divides(K, d, a)
    ensures Divides(K, d, K.mul(b, a)) && Divides(K, d, K.mul(a, b))
  {
    var q :| K.has(q) && K.mul(q, d) == a;
    MulAssoc(K, b, q, d);
    DividesIntro(K, K.mul(b, q), d, K.mul(b, a));
    MulComm(K, a, b);
  }

  lemma DividesTrans<F(!new)>(K: Ring<F>, d: F, a: F, b: F)
    requires IsRing(K) && K.has(d) && K.has(a) && Divides(K, d, a) && Divides(K, a, b)
    ensures Divides(K, d, b)
  {
    var q :| K.has(q) && K.mul(q, a) == b;
    DividesMul(K, d, a, q);
  }

  lemma DividesAdd<F(!new)>(K: Ring<F>, d: F, a: F, b: F)
    requires IsRing(K) && K.has(d) && Divides(K, d, a) && Divides(K, d, b)
    ensures Divides(K, d, K.add(a, b))
  {
    var p :| K.has(p) && K.mul(p, d) == a;
    var q :| K.has(q) && K.mul(q, d) == b;
    DistrRight(K, p, q, d);
    DividesIntro(K, K.add(p, q), d, K.add(a, b));
  }

  lemma DividesNeg<F(!new)>(K: Ring<F>, d: F, a: F)
    requires IsRing(K) && K.has(d) && Divides(K, d, a)
    ensures Divides(K, d, K.neg(a))
  {
    var q :| K.has(q) && K.mul(q, d) == a;
    MulNeg(K, q, d);
    DividesIntro(K, K.neg(q), d, K.neg(a));
  }

  lemma DividesSub<F(!new)>(K: Ring<F>, d: F, a: F, b: F)
    requires IsRing(K) && K.has(d) && Divides(K, d, a) && Divides(K, d, b)
    ensures Divides(K, d, Sub(K, a, b))
  {
    DividesNeg(K, d, b);
    DividesAdd(K, d, a, K.neg(b));
  }

  // ----- powers and multiples -----

  /** The n-fold product. */
  ghost function Power<F>(R: Ring<F>, a: F, n: nat): F {
    if n == 0 then R.one else R.mul(a, Power(R, a, n - 1))
  }

  lemma {:induction false} PowerHas<F(!new)>(R: Ring<F>, a: F, n: nat)
    requires IsRing(R) && R.has(a)
    ensures R.has(Power(R, a, n))
  {
    if n > 0 { PowerHas(R, a, n - 1); }
  }

  lemma {:induction false} PowerAdd<F(!new)>(R: Ring<F>, a: F, m: nat, n: nat)
    requires IsRing(R) && R.has(a)
    ensures Power(R, a, m + n) == R.mul(Power(R, a, m), Power(R, a, n))
  {
    PowerHas(R, a, n);
    if m == 0 {
      MulOne(R, Power(R, a, n));
    } else {
      PowerAdd(R, a, m - 1, n);
      PowerHas(R, a, m - 1);
      MulAssoc(R, a, Power(R, a, m - 1), Power(R, a, n));
      assert m - 1 + n == m + n - 1;
    }
  }

  lemma {:induction false} PowerOfProduct<F(!new)>(R: Ring<F>, a: F, b: F, n: nat)
    requires IsRing(R) && R.has(a) && R.has(b)
    ensures Power(R, R.mul(a, b), n) == R.mul(Power(R, a, n), Power(R, b, n))
  {
    if n == 0 {
      MulOne(R, R.one);
    } else {
      PowerOfProduct(R, a, b, n - 1);
      PowerHas(R, a, n - 1);
      PowerHas(R, b, n - 1);
      MulFour(R, a, b, Power(R, a, n - 1), Power(R, b, n - 1));
    }
  }

  // (a b) (c d) == (a c) (b d)
  lemma MulFour<F(!new)>(R: Ring<F>, a: F, b: F, c: F, d: F)
    requires IsRing(R) && R.has(a) && R.has(b) && R.has(c) && R.has(d)
    ensures R.mul(R.mul(a, b), R.mul(c, d)) == R.mul(R.mul(a, c), R.mul(b, d))
  {
    MulAssoc(R, a, b, R.mul(c, d));
    MulSwap(R, b, c, d);
    MulAssoc(R, a, c, R.mul(b, d));
  }

  /** a + ... + a, n times. */
  ghost function Multiple<F>(R: Ring<F>, n: nat, a: F): F {
    if n == 0 then R.zero else R.add(a, Multiple(R, n - 1, a))
  }

  lemma {:induction false} MultipleHas<F(!new)>(R: Ring<F>, n: nat, a: F)
    requires IsRing(R) && R.has(a)
    ensures R.has(Multiple(R, n, a))
  {
    if n > 0 { MultipleHas(R, n - 1, a); }
  }

  lemma {:induction false} MultipleMul<F(!new)>(R: Ring<F>, n: nat, a: F, b: F)
    requires IsRing(R) && R.has(a) && R.has(b)
    ensures R.mul(Multiple(R, n, a), b) == Multiple(R, n, R.mul(a, b))
  {
    if n == 0 {
      MulZero(R, b);
    } else {
      MultipleMul(R, n - 1, a, b);
      MultipleHas(R, n - 1, a);
      DistrRight(R, a, Multiple(R, n - 1, a), b);
    }
  }

  // ----- instances -----

  /** The integers; only the units are inverted. */
  function Integers(): Ring<int> {
    Ring((a: int) => true, 0, 1,
         (a: int, b: int) => a + b, (a: int) => -a, (a: int, b: int) => a * b,
         (a: int) => if a == 1 || a == -1 then Some(a) else None)
  }

  /** Exact rational arithmetic. */
  function Rationals(): Ring<real> {
    Ring((a: real) => true, 0.0, 1.0,
         (a: real, b: real) => a + b, (a: real) => -a, (a: real, b: real) => a * b,
         (a: real) => if a == 0.0 then None else Some(1.0 / a))
  }

  lemma IntegerLaws(a: int, b: int, c: int)
    ensures (a * b) * c == a * (b * c) && a * (b + c) == a * b + a * c
  {}

  lemma NoZeroProduct(a: int, b: int)
    requires a * b == 0
    ensures a == 0 || b == 0
  {}

  lemma RealLaws(a: real, b: real, c: real)
    ensures (a * b) * c == a * (b * c) && a * (b + c) == a * b + a * c
  {}

  lemma RealInverse(a: real)
    requires a != 0.0
    ensures a * (1.0 / a) == 1.0
  {}

  lemma IntegersLaws()
    ensures Laws(Integers())
  {
    var K := Integers();
    forall a, b, c ensures MulAssocAt(K, a, b, c) && DistrAt(K, a, b, c) { IntegerLaws(a, b, c); }
  }

  lemma IntegersAreDomain()
    ensures IsRing(Integers()) && IsDomain(Integers())
  {
    hide Laws;
    var K := Integers();
    IntegersLaws();
    forall a, b | K.mul(a, b) == K.zero ensures a == K.zero || b == K.zero { NoZeroProduct(a, b); }
  }

  lemma RationalLaws()
    ensures Laws(Rationals())
  {
    var K := Rationals();
    forall a, b, c ensures MulAssocAt(K, a, b, c) && DistrAt(K, a, b, c) { RealLaws(a, b, c); }
  }

  lemma RationalInverses()
    ensures InverseSound(Rationals())
  {
    var K := Rationals();
    forall a: real | K.inverse(a).Some? ensures K.mul(a, K.inverse(a).value) == K.one { RealInverse(a); }
  }

  lemma RationalsAreRing()
    ensures IsRing(Rationals())
  {
    RationalLaws();
    RationalInverses();
  }

  lemma RationalsAreField()
    ensures IsRing(Rationals()) && IsField(Rationals()) && IsDomain(Rationals())
  {
    RationalsAreRing();
    assert InvertsNonZero(Rationals());
    FieldIsDomain(Rationals());
  }
}
