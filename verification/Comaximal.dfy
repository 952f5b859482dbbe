/** Comaximal elements of a ring -- those that combine to one -- and products of families. */
module Comaximal {
  import opened Rings

  /** Some combination of a and b is one. */
  ghost predicate Comax<F(!new)>(R: Ring<F>, a: F, b: F) {
    exists s, t {:trigger Comb(R, s, a, t, b)} :: R.has(s) && R.has(t) && Comb(R, s, a, t, b) == R.one
  }

  lemma ComaxIntro<F(!new)>(R: Ring<F>, s: F, a: F, t: F, b: F)
    requires R.has(s) && R.has(t) && Comb(R, s, a, t, b) == R.one
    ensures Comax(R, a, b)
  {}

  lemma ComaxWitness<F(!new)>(R: Ring<F>, a: F, b: F) returns (s: F, t: F)
    requires Comax(R, a, b)
    ensures R.has(s) && R.has(t) && Comb(R, s, a, t, b) == R.one
  {
    s, t :| R.has(s) && R.has(t) && Comb(R, s, a, t, b) == R.one;
  }

  lemma ComaxSym<F(!new)>(R: Ring<F>, a: F, b: F)
    requires IsRing(R) && R.has(a) && R.has(b) && Comax(R, a, b)
    ensures Comax(R, b, a)
  {
    var s, t := ComaxWitness(R, a, b);
    AddComm(R, R.mul(s, a), R.mul(t, b));
    ComaxIntro(R, t, b, s, a);
  }

  lemma ComaxOne<F(!new)>(R: Ring<F>, a: F)
    requires IsRing(R) && R.has(a)
    ensures Comax(R, a, R.one) && Comax(R, R.one, a)
  {
    MulZero(R, a);
    MulOne(R, R.one);
    AddZero(R, R.one);
    ComaxIntro(R, R.zero, a, R.one, R.one);
    ComaxSym(R, a, R.one);
  }

  // c == (s c) a + (t c) b, and a multiple of a when b c is one
  lemma CombTimes<F(!new)>(R: Ring<F>, s: F, a: F, t: F, b: F, c: F)
    requires IsRing(R) && R.has(s) && R.has(a) && R.has(t) && R.has(b) && R.has(c)
    requires Comb(R, s, a, t, b) == R.one
    ensures c == R.add(R.mul(R.mul(s, c), a), R.mul(t, R.mul(b, c)))
  {
    MulOne(R, c);
    DistrRight(R, R.mul(s, a), R.mul(t, b), c);
    MulAssoc(R, s, a, c);
    MulComm(R, a, c);
    MulAssoc(R, s, c, a);
    MulAssoc(R, t, b, c);
  }

  /** Euclid's lemma for comaximal elements. */
  lemma ComaxDivides<F(!new)>(R: Ring<F>, a: F, b: F, c: F)
    requires IsRing(R) && R.has(a) && R.has(b) && R.has(c)
    requires Comax(R, a, b) && Divides(R, a, R.mul(b, c))
    ensures Divides(R, a, c)
  {
    var s, t := ComaxWitness(R, a, b);
    CombTimes(R, s, a, t, b, c);
    DividesSelf(R, a);
    DividesMul(R, a, a, R.mul(s, c));
    DividesMul(R, a, R.mul(b, c), t);
    DividesAdd(R, a, R.mul(R.mul(s, c), a), R.mul(t, R.mul(b, c)));
  }

  /** Comaximal with two elements is comaximal with their product. */
  lemma ComaxMul<F(!new)>(R: Ring<F>, a: F, p: F, q: F)
    requires IsRing(R) && R.has(a) && R.has(p) && R.has(q) && Comax(R, a, p) && Comax(R, a, q)
    ensures Comax(R, a, R.mul(p, q))
  {
    var s, t := ComaxWitness(R, a, p);
    var s', t' := ComaxWitness(R, a, q);
    // t' q == (s t' q) a + t (p (t' q)), so 1 == (s' + s t' q) a + (t t') (p q)
    var w := R.mul(t', q);
    CombTimes(R, s, a, t, p, w);
    var u := R.mul(s, w);
    AddAssoc(R, R.mul(s', a), R.mul(u, a), R.mul(t, R.mul(p, w)));
    DistrRight(R, s', u, a);
    MulSwap(R, p, t', q);
    MulAssoc(R, t, t', R.mul(p, q));
    ComaxIntro(R, R.add(s', u), a, R.mul(t, t'), R.mul(p, q));
  }

  lemma ComaxFactor<F(!new)>(R: Ring<F>, a: F, p: F, q: F)
    requires IsRing(R) && R.has(a) && R.has(p) && R.has(q) && Comax(R, a, R.mul(p, q))
    ensures Comax(R, a, p) && Comax(R, a, q)
  {
    var s, t := ComaxWitness(R, a, R.mul(p, q));
    MulAssoc(R, t, p, q);
    ComaxIntro(R, s, a, R.mul(t, p), q);
    MulComm(R, p, q);
    MulAssoc(R, t, q, p);
    ComaxIntro(R, s, a, R.mul(t, q), p);
  }

  lemma ComaxDivisor<F(!new)>(R: Ring<F>, a: F, d: F, b: F)
    requires IsRing(R) && R.has(a) && R.has(d) && R.has(b) && Comax(R, a, b) && Divides(R, d, b)
    ensures Comax(R, a, d)
  {
    var q :| R.has(q) && R.mul(q, d) == b;
    ComaxFactor(R, a, q, d);
  }

  /** Comaximal divisors of c multiply to a divisor of c. */
  lemma ComaxProductDivides<F(!new)>(R: Ring<F>, a: F, b: F, c: F)
    requires IsRing(R) && R.has(a) && R.has(b) && R.has(c)
    requires Comax(R, a, b) && Divides(R, a, c) && Divides(R, b, c)
    ensures Divides(R, R.mul(a, b), c)
  {
    var q :| R.has(q) && R.mul(q, b) == c;
    MulComm(R, q, b);
    ComaxDivides(R, a, b, q);
    var p :| R.has(p) && R.mul(p, a) == q;
    MulAssoc(R, p, a, b);
    DividesIntro(R, p, R.mul(a, b), c);
  }

  lemma {:induction false} ComaxPower<F(!new)>(R: Ring<F>, a: F, b: F, n: nat)
    requires IsRing(R) && R.has(a) && R.has(b) && Comax(R, a, b)
    ensures Comax(R, Power(R, a, n), b)
  {
    hide Comax;
    if n == 0 {
      ComaxOne(R, b);
    } else {
      ComaxPower(R, a, b, n - 1);
      PowerHas(R, a, n - 1);
      ComaxSym(R, a, b);
      ComaxSym(R, Power(R, a, n - 1), b);
      ComaxMul(R, b, a, Power(R, a, n - 1));
      ComaxSym(R, b, Power(R, a, n));
    }
  }

  /** x is a combination of a and b. */
  ghost predicate InIdeal<F(!new)>(R: Ring<F>, a: F, b: F, x: F) {
    exists s, t {:trigger Comb(R, s, a, t, b)} :: R.has(s) && R.has(t) && Comb(R, s, a, t, b) == x
  }

  lemma IdealGenerators<F(!new)>(R: Ring<F>, a: F, b: F)
    requires IsRing(R) && R.has(a) && R.has(b)
    ensures InIdeal(R, a, b, a) && InIdeal(R, a, b, b)
  {
    MulZero(R, a);
    MulZero(R, b);
    MulOne(R, a);
    MulOne(R, b);
    AddZero(R, a);
    AddZero(R, b);
    assert Comb(R, R.one, a, R.zero, b) == a;
    assert Comb(R, R.zero, a, R.one, b) == b;
  }

  // x - q y is a combination when x and y are
  lemma IdealStep<F(!new)>(R: Ring<F>, a: F, b: F, x: F, q: F, y: F)
    requires IsRing(R) && R.has(a) && R.has(b) && R.has(q) && InIdeal(R, a, b, x) && InIdeal(R, a, b, y)
    ensures InIdeal(R, a, b, Sub(R, x, R.mul(q, y)))
  {
    var s0, t0 :| R.has(s0) && R.has(t0) && Comb(R, s0, a, t0, b) == x;
    var s1, t1 :| R.has(s1) && R.has(t1) && Comb(R, s1, a, t1, b) == y;
    CombStep(R, s0, s1, t0, t1, q, a, b);
    assert Comb(R, Sub(R, s0, R.mul(q, s1)), a, Sub(R, t0, R.mul(q, t1)), b) == Sub(R, x, R.mul(q, y));
  }

  lemma IdealTimes<F(!new)>(R: Ring<F>, a: F, b: F, c: F, y: F)
    requires IsRing(R) && R.has(a) && R.has(b) && R.has(c) && R.has(y) && InIdeal(R, a, b, y)
    ensures InIdeal(R, a, b, R.mul(c, y))
  {
    var s, t :| R.has(s) && R.has(t) && Comb(R, s, a, t, b) == y;
    Distr(R, c, R.mul(s, a), R.mul(t, b));
    MulAssoc(R, c, s, a);
    MulAssoc(R, c, t, b);
    assert Comb(R, R.mul(c, s), a, R.mul(c, t), b) == R.mul(c, y);
  }

  /** A common divisor divides every combination. */
  lemma IdealDivisor<F(!new)>(R: Ring<F>, a: F, b: F, d: F, x: F)
    requires IsRing(R) && R.has(a) && R.has(b) && R.has(d) && InIdeal(R, a, b, x)
    requires Divides(R, d, a) && Divides(R, d, b)
    ensures Divides(R, d, x)
  {
    var s, t :| R.has(s) && R.has(t) && Comb(R, s, a, t, b) == x;
    DividesMul(R, d, a, s);
    DividesMul(R, d, b, t);
    DividesAdd(R, d, R.mul(s, a), R.mul(t, b));
  }

  // ----- families -----

  ghost predicate Family<F(!new)>(R: Ring<F>, us: seq<F>) {
    forall i :: 0 <= i < |us| ==> R.has(us[i])
  }

  ghost function Prod<F>(R: Ring<F>, us: seq<F>): F {
    if us == [] then R.one else R.mul(us[0], Prod(R, us[1..]))
  }

  lemma {:induction false} ProdHas<F(!new)>(R: Ring<F>, us: seq<F>)
    requires IsRing(R) && Family(R, us)
    ensures R.has(Prod(R, us))
  {
    if us != [] { ProdHas(R, us[1..]); }
  }

  lemma {:induction false} ProdConcat<F(!new)>(R: Ring<F>, us: seq<F>, vs: seq<F>)
    requires IsRing(R) && Family(R, us) && Family(R, vs)
    ensures Prod(R, us + vs) == R.mul(Prod(R, us), Prod(R, vs))
  {
    ProdHas(R, vs);
    if us == [] {
      assert [] + vs == vs;
      MulOne(R, Prod(R, vs));
    } else {
      assert (us + vs)[1..] == us[1..] + vs;
      ProdConcat(R, us[1..], vs);
      ProdHas(R, us[1..]);
      MulAssoc(R, us[0], Prod(R, us[1..]), Prod(R, vs));
    }
  }

  lemma ProdSingle<F(!new)>(R: Ring<F>, u: F)
    requires IsRing(R) && R.has(u)
    ensures Prod(R, [u]) == u
  {
    assert [u][1..] == [];
    MulOne(R, u);
  }

  /** Comaximal with a product exactly when comaximal with every factor. */
  lemma {:induction false} ComaxProd<F(!new)>(R: Ring<F>, a: F, us: seq<F>)
    requires IsRing(R) && R.has(a) && Family(R, us)
    ensures Comax(R, a, Prod(R, us)) <==> forall i :: 0 <= i < |us| ==> Comax(R, a, us[i])
  {
    if us == [] {
      ComaxOne(R, a);
    } else {
      var t := us[1..];
      ComaxProd(R, a, t);
      ProdHas(R, t);
      if Comax(R, a, Prod(R, us)) {
        ComaxFactor(R, a, us[0], Prod(R, t));
        forall i | 0 <= i < |us| ensures Comax(R, a, us[i]) {
          if i > 0 { assert us[i] == t[i - 1]; }
        }
      }
      if forall i :: 0 <= i < |us| ==> Comax(R, a, us[i]) {
        forall i | 0 <= i < |t| ensures Comax(R, a, t[i]) { assert t[i] == us[i + 1]; }
        assert Comax(R, a, us[0]);
        ComaxMul(R, a, us[0], Prod(R, t));
      }
    }
  }

  ghost predicate PairwiseComax<F(!new)>(R: Ring<F>, us: seq<F>) {
    forall i, j :: 0 <= i < j < |us| ==> Comax(R, us[i], us[j])
  }
}
