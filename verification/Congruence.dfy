/** Congruence modulo an element of a ring. */
module Congruence {
  import opened Rings

  ghost predicate CongBy<F(!new)>(R: Ring<F>, m: F, a: F, b: F) {
    Divides(R, m, Sub(R, a, b))
  }

  lemma CongSelf<F(!new)>(R: Ring<F>, m: F, a: F)
    requires IsRing(R) && R.has(m) && R.has(a)
    ensures CongBy(R, m, a, a)
  {
    AddNeg(R, a);
    DividesZero(R, m);
  }

  lemma CongSym<F(!new)>(R: Ring<F>, m: F, a: F, b: F)
    requires IsRing(R) && R.has(m) && R.has(a) && R.has(b) && CongBy(R, m, a, b)
    ensures CongBy(R, m, b, a)
  {
    DividesNeg(R, m, Sub(R, a, b));
    NegAdd(R, a, R.neg(b));
    NegNeg(R, b);
    AddComm(R, R.neg(a), b);
  }

  lemma CongTrans<F(!new)>(R: Ring<F>, m: F, a: F, b: F, c: F)
    requires IsRing(R) && R.has(m) && R.has(a) && R.has(b) && R.has(c) && CongBy(R, m, a, b) && CongBy(R, m, b, c)
    ensures CongBy(R, m, a, c)
  {
    DividesAdd(R, m, Sub(R, a, b), Sub(R, b, c));
    AddAssoc(R, a, R.neg(b), Sub(R, b, c));
    AddAssoc(R, R.neg(b), b, R.neg(c));
    AddNeg(R, b);
    AddZero(R, R.neg(c));
  }

  lemma CongPlus<F(!new)>(R: Ring<F>, m: F, a: F, b: F, c: F, d: F)
    requires IsRing(R) && R.has(m) && R.has(a) && R.has(b) && R.has(c) && R.has(d)
    requires CongBy(R, m, a, b) && CongBy(R, m, c, d)
    ensures CongBy(R, m, R.add(a, c), R.add(b, d))
  {
    DividesAdd(R, m, Sub(R, a, b), Sub(R, c, d));
    SubSwap(R, a, b, c, d);
  }

  lemma CongTimesLeft<F(!new)>(R: Ring<F>, m: F, c: F, a: F, b: F)
    requires IsRing(R) && R.has(m) && R.has(a) && R.has(b) && R.has(c) && CongBy(R, m, a, b)
    ensures CongBy(R, m, R.mul(c, a), R.mul(c, b)) && CongBy(R, m, R.mul(a, c), R.mul(b, c))
  {
    DividesMul(R, m, Sub(R, a, b), c);
    MulSub(R, c, a, b);
    MulComm(R, a, c);
    MulComm(R, b, c);
  }

  lemma CongTimes<F(!new)>(R: Ring<F>, m: F, a: F, b: F, c: F, d: F)
    requires IsRing(R) && R.has(m) && R.has(a) && R.has(b) && R.has(c) && R.has(d)
    requires CongBy(R, m, a, b) && CongBy(R, m, c, d)
    ensures CongBy(R, m, R.mul(a, c), R.mul(b, d))
  {
    CongTimesLeft(R, m, c, a, b);
    CongTimesLeft(R, m, b, c, d);
    CongTrans(R, m, R.mul(a, c), R.mul(b, c), R.mul(b, d));
  }

  lemma {:induction false} CongPower<F(!new)>(R: Ring<F>, m: F, a: F, b: F, n: nat)
    requires IsRing(R) && R.has(m) && R.has(a) && R.has(b) && CongBy(R, m, a, b)
    ensures CongBy(R, m, Power(R, a, n), Power(R, b, n))
  {
    PowerHas(R, a, n);
    PowerHas(R, b, n);
    if n == 0 {
      CongSelf(R, m, R.one);
    } else {
      CongPower(R, m, a, b, n - 1);
      PowerHas(R, a, n - 1);
      PowerHas(R, b, n - 1);
      CongTimes(R, m, a, b, Power(R, a, n - 1), Power(R, b, n - 1));
    }
  }

  // a - q m is congruent to a
  lemma CongReduce<F(!new)>(R: Ring<F>, m: F, a: F, q: F)
    requires IsRing(R) && R.has(m) && R.has(a) && R.has(q)
    ensures CongBy(R, m, Sub(R, a, R.mul(q, m)), a)
  {
    var x := R.mul(q, m);
    AddComm(R, a, R.neg(x));
    AddAssoc(R, R.neg(x), a, R.neg(a));
    AddNeg(R, a);
    AddZero(R, R.neg(x));
    DividesIntro(R, q, m, x);
    DividesNeg(R, m, x);
  }
}
