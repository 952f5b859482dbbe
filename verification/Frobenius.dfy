/** The p-th power map in characteristic p. */
module Frobenius {
  import opened Rings
  import opened Polys
  import opened Numbers
  import opened PrimeField
  import opened Interpolation
  import Taylor

  // ----- multiples -----

  lemma {:induction false} MultipleSum<F(!new)>(R: Ring<F>, m: nat, n: nat, a: F)
    requires IsRing(R) && R.has(a)
    ensures Multiple(R, m + n, a) == R.add(Multiple(R, m, a), Multiple(R, n, a))
  {
    MultipleHas(R, n, a);
    if m == 0 {
      AddZero(R, Multiple(R, n, a));
    } else {
      MultipleSum(R, m - 1, n, a);
      MultipleHas(R, m - 1, a);
      assert m - 1 + n == m + n - 1;
      AddAssoc(R, a, Multiple(R, m - 1, a), Multiple(R, n, a));
    }
  }

  lemma MultipleLeft<F(!new)>(R: Ring<F>, n: nat, a: F, b: F)
    requires IsRing(R) && R.has(a) && R.has(b)
    ensures R.mul(b, Multiple(R, n, a)) == Multiple(R, n, R.mul(b, a))
  {
    MultipleMul(R, n, a, b);
    MultipleHas(R, n, a);
    MulComm(R, b, Multiple(R, n, a));
    MulComm(R, a, b);
  }

  // p times anything is zero
  lemma {:induction false} MultipleOfCharacteristic<F(!new)>(R: Ring<F>, p: nat, q: nat, a: F)
    requires IsRing(R) && R.has(a) && Multiple(R, p, R.one) == R.zero
    ensures Multiple(R, q * p, a) == R.zero
  {
    if q > 0 {
      MultipleOfCharacteristic(R, p, q - 1, a);
      assert q * p == p + (q - 1) * p;
      MultipleSum(R, p, (q - 1) * p, a);
      MultipleMul(R, p, R.one, a);
      MulOne(R, a);
      MulZero(R, a);
      AddZero(R, R.zero);
    }
  }

  // ----- the binomial theorem in a ring -----

  /** C(n, i) a^(n-i) b^i */
  ghost function Term<F>(R: Ring<F>, a: F, b: F, n: nat, i: nat): F
    requires i <= n
  {
    Multiple(R, Binomial(n, i), R.mul(Power(R, a, n - i), Power(R, b, i)))
  }

  ghost function Terms<F>(R: Ring<F>, a: F, b: F, n: nat, j: nat): F
    requires j <= n + 1
  {
    if j == 0 then R.zero else R.add(Terms(R, a, b, n, j - 1), Term(R, a, b, n, j - 1))
  }

  lemma TermHas<F(!new)>(R: Ring<F>, a: F, b: F, n: nat, i: nat)
    requires IsRing(R) && R.has(a) && R.has(b) && i <= n
    ensures R.has(Term(R, a, b, n, i))
  {
    PowerHas(R, a, n - i);
    PowerHas(R, b, i);
    MultipleHas(R, Binomial(n, i), R.mul(Power(R, a, n - i), Power(R, b, i)));
  }

  lemma {:induction false} TermsHas<F(!new)>(R: Ring<F>, a: F, b: F, n: nat, j: nat)
    requires IsRing(R) && R.has(a) && R.has(b) && j <= n + 1
    ensures R.has(Terms(R, a, b, n, j))
  {
    hide Term;
    if j > 0 {
      TermsHas(R, a, b, n, j - 1);
      TermHas(R, a, b, n, j - 1);
    }
  }

  // Pascal's rule for one term: C(n+1, i) splits into b times one term and a times another
  lemma TermSplits<F(!new)>(R: Ring<F>, a: F, b: F, n: nat, i: nat)
    requires IsRing(R) && R.has(a) && R.has(b) && 0 < i <= n + 1
    ensures Term(R, a, b, n + 1, i)
         == R.add(R.mul(b, Term(R, a, b, n, i - 1)), if i <= n then R.mul(a, Term(R, a, b, n, i)) else R.zero)
  {
    hide Multiple, IsRing, Power;
    var x := R.mul(Power(R, a, n + 1 - i), Power(R, b, i));
    PowersHave(R, a, b, n, i);
    Pascal(n + 1, i);
    MultipleSum(R, Binomial(n, i - 1), Binomial(n, i), x);
    MultipleLeft(R, Binomial(n, i - 1), R.mul(Power(R, a, n + 1 - i), Power(R, b, i - 1)), b);
    if i <= n {
      MultipleLeft(R, Binomial(n, i), R.mul(Power(R, a, n - i), Power(R, b, i)), a);
    } else {
      BinomialBeyond(n, i);
      NoMultiple(R, x);
    }
  }

  lemma NoMultiple<F>(R: Ring<F>, x: F)
    ensures Multiple(R, 0, x) == R.zero
  {}

  lemma PowersHave<F(!new)>(R: Ring<F>, a: F, b: F, n: nat, i: nat)
    requires IsRing(R) && R.has(a) && R.has(b) && 0 < i <= n + 1
    ensures R.has(R.mul(Power(R, a, n + 1 - i), Power(R, b, i)))
    ensures R.has(R.mul(Power(R, a, n + 1 - i), Power(R, b, i - 1)))
    ensures R.mul(b, R.mul(Power(R, a, n + 1 - i), Power(R, b, i - 1))) == R.mul(Power(R, a, n + 1 - i), Power(R, b, i))
    ensures i <= n ==> R.has(R.mul(Power(R, a, n - i), Power(R, b, i)))
    ensures i <= n ==>
      R.mul(a, R.mul(Power(R, a, n - i), Power(R, b, i))) == R.mul(Power(R, a, n + 1 - i), Power(R, b, i))
  {
    PowerHas(R, a, n + 1 - i);
    PowerHas(R, b, i);
    PowerHas(R, b, i - 1);
    MulSwap(R, b, Power(R, a, n + 1 - i), Power(R, b, i - 1));
    if i <= n {
      PowerHas(R, a, n - i);
      MulAssoc(R, a, Power(R, a, n - i), Power(R, b, i));
    }
  }

  lemma {:induction false} TermsUp<F(!new)>(R: Ring<F>, a: F, b: F, n: nat, j: nat)
    requires IsRing(R) && R.has(a) && R.has(b) && j <= n + 1
    ensures Terms(R, a, b, n + 1, j + 1)
         == R.add(R.mul(b, Terms(R, a, b, n, j)), R.mul(a, Terms(R, a, b, n, if j <= n then j + 1 else j)))
  {
    hide Term, Terms, IsRing, Binomial, Power, Multiple;
    if j == 0 {
      FirstTerms(R, a, b, n);
    } else {
      TermsNext(R, a, b, n + 1, j + 1);
      TermsNext(R, a, b, n, j);
      if j <= n { TermsNext(R, a, b, n, j + 1); }
      TermsUp(R, a, b, n, j - 1);
      TermSplits(R, a, b, n, j);
      TermHas(R, a, b, n, j - 1);
      TermsHas(R, a, b, n, j - 1);
      TermsHas(R, a, b, n, j);
      var (D, E, c) := (Terms(R, a, b, n, j - 1), Terms(R, a, b, n, j), Term(R, a, b, n, j - 1));
      if j <= n {
        TermHas(R, a, b, n, j);
        TermsMiddle(R, a, b, D, c, E, Term(R, a, b, n, j));
      } else {
        TermsLast(R, a, b, D, c, E);
      }
    }
  }

  lemma TermsNext<F>(R: Ring<F>, a: F, b: F, n: nat, j: nat)
    requires 0 < j <= n + 1
    ensures Terms(R, a, b, n, j) == R.add(Terms(R, a, b, n, j - 1), Term(R, a, b, n, j - 1))
  {}

  lemma FirstTerms<F(!new)>(R: Ring<F>, a: F, b: F, n: nat)
    requires IsRing(R) && R.has(a) && R.has(b)
    ensures Terms(R, a, b, n + 1, 1) == R.add(R.mul(b, R.zero), R.mul(a, Terms(R, a, b, n, 1)))
    ensures Terms(R, a, b, n, 0) == R.zero
  {
    FirstTerm(R, a, b, n);
    FirstTerm(R, a, b, n + 1);
    PowerHas(R, a, n);
    PowerHas(R, a, n + 1);
    hide Term, Power;
    MulZero(R, b);
    AddZero(R, Power(R, a, n));
    AddZero(R, Power(R, a, n + 1));
  }

  lemma FirstTerm<F(!new)>(R: Ring<F>, a: F, b: F, n: nat)
    requires IsRing(R) && R.has(a) && R.has(b)
    ensures Term(R, a, b, n, 0) == Power(R, a, n) && R.has(Power(R, a, n))
    ensures Power(R, a, n + 1) == R.mul(a, Power(R, a, n))
  {
    PowerHas(R, a, n);
    MulOne(R, Power(R, a, n));
    AddZero(R, Power(R, a, n));
    assert Power(R, b, 0) == R.one && Binomial(n, 0) == 1;
    assert Multiple(R, 1, Power(R, a, n)) == R.add(Power(R, a, n), Multiple(R, 0, Power(R, a, n)));
  }

  // (b D + a E) + (b c + a d) == b (D + c) + a (E + d)
  lemma TermsMiddle<F(!new)>(R: Ring<F>, a: F, b: F, D: F, c: F, E: F, d: F)
    requires IsRing(R) && R.has(a) && R.has(b) && R.has(D) && R.has(c) && R.has(E) && R.has(d)
    ensures R.add(R.add(R.mul(b, D), R.mul(a, E)), R.add(R.mul(b, c), R.mul(a, d)))
         == R.add(R.mul(b, R.add(D, c)), R.mul(a, R.add(E, d)))
  {
    Distr(R, b, D, c);
    Distr(R, a, E, d);
    AddSwap(R, R.mul(b, D), R.mul(a, E), R.mul(b, c), R.mul(a, d));
  }

  lemma TermsLast<F(!new)>(R: Ring<F>, a: F, b: F, D: F, c: F, E: F)
    requires IsRing(R) && R.has(a) && R.has(b) && R.has(D) && R.has(c) && R.has(E)
    ensures R.add(R.add(R.mul(b, D), R.mul(a, E)), R.add(R.mul(b, c), R.zero))
         == R.add(R.mul(b, R.add(D, c)), R.mul(a, E))
  {
    MulZero(R, a);
    AddZero(R, E);
    TermsMiddle(R, a, b, D, c, E, R.zero);
  }

  lemma NoTerms<F>(R: Ring<F>, a: F, b: F, n: nat)
    ensures Terms(R, a, b, n, 0) == R.zero
  {}

  lemma {:induction false} RingBinomial<F(!new)>(R: Ring<F>, a: F, b: F, n: nat)
    requires IsRing(R) && R.has(a) && R.has(b)
    ensures Terms(R, a, b, n, n + 1) == Power(R, R.add(b, a), n)
  {
    hide Term, Terms;
    if n == 0 {
      FirstTerm(R, a, b, 0);
      TermsNext(R, a, b, 0, 1);
      NoTerms(R, a, b, 0);
    } else {
      RingBinomial(R, a, b, n - 1);
      TermsUp(R, a, b, n - 1, n);
      TermsHas(R, a, b, n - 1, n);
      DistrRight(R, b, a, Terms(R, a, b, n - 1, n));
    }
  }

  // ----- binomial coefficients of a prime -----

  lemma {:induction false} PrimeBinomial(p: nat, k: nat)
    requires Prime(p) && 0 < k < p
    ensures Numbers.Div(p, Binomial(p, k))
  {
    Taylor.BinomialNext(p, k - 1);
    if k == 1 {
      assert Binomial(p, 0) == 1;
      DivSelf(p);
    } else {
      PrimeBinomial(p, k - 1);
      DivTimes(p, Binomial(p, k - 1), p - (k - 1));
      PrimeDivides(p, Binomial(p, k), k);
      if Numbers.Div(p, k) { DivBound(p, k); }
    }
  }

  // ----- additivity -----

  lemma MiddleTermZero<F(!new)>(R: Ring<F>, p: nat, a: F, b: F, i: nat)
    requires IsRing(R) && R.has(a) && R.has(b) && Prime(p) && Multiple(R, p, R.one) == R.zero && 0 < i < p
    ensures Term(R, a, b, p, i) == R.zero
  {
    PrimeBinomial(p, i);
    var q := DivQuotient(p, Binomial(p, i));
    assert q >= 0 by { NonNegativeFactor(q, p); }
    PowerHas(R, a, p - i);
    PowerHas(R, b, i);
    MultipleOfCharacteristic(R, p, q, R.mul(Power(R, a, p - i), Power(R, b, i)));
  }

  lemma NonNegativeFactor(q: int, p: int)
    requires p > 0 && q * p >= 0
    ensures q >= 0
  {
    assert q < 0 ==> q * p < 0;
  }

  lemma {:induction false} OnlyFirstTerm<F(!new)>(R: Ring<F>, p: nat, a: F, b: F, j: nat)
    requires IsRing(R) && R.has(a) && R.has(b) && Prime(p) && Multiple(R, p, R.one) == R.zero && 1 <= j <= p
    ensures Terms(R, a, b, p, j) == Power(R, a, p)
  {
    hide Term, Power, IsRing;
    FirstTerm(R, a, b, p);
    AddZero(R, Power(R, a, p));
    if j > 1 {
      OnlyFirstTerm(R, p, a, b, j - 1);
      MiddleTermZero(R, p, a, b, j - 1);
    }
  }

  lemma LastTerm<F(!new)>(R: Ring<F>, a: F, b: F, n: nat)
    requires IsRing(R) && R.has(a) && R.has(b)
    ensures Term(R, a, b, n, n) == Power(R, b, n)
  {
    PowerHas(R, b, n);
    MulOne(R, Power(R, b, n));
    AddZero(R, Power(R, b, n));
    BinomialFull(n);
    assert Power(R, a, 0) == R.one;
    assert Multiple(R, 1, Power(R, b, n)) == R.add(Power(R, b, n), Multiple(R, 0, Power(R, b, n)));
  }

  lemma {:induction false} BinomialFull(n: nat)
    ensures Binomial(n, n) == 1
  {
    if n > 0 {
      BinomialFull(n - 1);
      BinomialBeyond(n - 1, n);
    }
  }

  /** (a + b)^p == a^p + b^p in characteristic p. */
  lemma FrobeniusAdds<F(!new)>(R: Ring<F>, p: nat, a: F, b: F)
    requires IsRing(R) && R.has(a) && R.has(b) && Prime(p) && Multiple(R, p, R.one) == R.zero
    ensures Power(R, R.add(a, b), p) == R.add(Power(R, a, p), Power(R, b, p))
  {
    hide Power, Term;
    RingBinomial(R, a, b, p);
    OnlyFirstTerm(R, p, a, b, p);
    LastTerm(R, a, b, p);
    AddComm(R, a, b);
  }

  // ----- residues -----

  lemma {:induction false} ResidueMultiple(p: int, n: nat)
    requires p > 1
    ensures Multiple(Fp(p), n, 1) == n % p
  {
    if n > 0 {
      ResidueMultiple(p, n - 1);
      ModAdd(1, n - 1, p);
    }
  }

  lemma ResidueCharacteristic(p: nat)
    requires Prime(p)
    ensures Multiple(Fp(p), p, Fp(p).one) == Fp(p).zero
  {
    ResidueMultiple(p, p);
    Numbers.ModUnique(p, p, 1, 0);
  }

  /** Fermat: s^p == s. */
  lemma {:induction false} Fermat(p: nat, s: nat)
    requires Prime(p) && s < p
    ensures Power(Fp(p), s, p) == s
  {
    hide FpMod, ModInverse, IsField, IsDomain, Power;
    FpIsField(p);
    var K := Fp(p);
    if s == 0 {
      ZeroPower(K, p);
    } else {
      Fermat(p, s - 1);
      ResidueCharacteristic(p);
      FrobeniusAdds(K, p, s - 1, 1);
      OnePower(K, p);
      NextResidue(p, s);
    }
  }

  lemma NextResidue(p: nat, s: nat)
    requires 0 < s < p && p > 1
    ensures Fp(p).has(s - 1) && Fp(p).has(1) && Fp(p).add(s - 1, 1) == s
  {
    SmallMod(s, p);
  }

  lemma ZeroPower<F(!new)>(R: Ring<F>, n: nat)
    requires IsRing(R) && n > 0
    ensures Power(R, R.zero, n) == R.zero
  {
    PowerHas(R, R.zero, n - 1);
    MulZero(R, Power(R, R.zero, n - 1));
  }

  lemma {:induction false} OnePower<F(!new)>(R: Ring<F>, n: nat)
    requires IsRing(R)
    ensures Power(R, R.one, n) == R.one
  {
    if n > 0 {
      OnePower(R, n - 1);
      MulOne(R, R.one);
    }
  }

  // ----- polynomials modulo p -----

  lemma {:induction false} ConstMultiple<F(!new)>(K: Ring<F>, n: nat)
    requires IsRing(K)
    ensures K.has(Multiple(K, n, K.one))
    ensures Multiple(PolyRing(K), n, PolyRing(K).one) == Const(K, Multiple(K, n, K.one))
  {
    MultipleHas(K, n, K.one);
    if n > 0 {
      ConstMultiple(K, n - 1);
      ConstAdd(K, K.one, Multiple(K, n - 1, K.one));
    }
  }

  lemma ConstAdd<F(!new)>(K: Ring<F>, a: F, b: F)
    requires IsRing(K) && K.has(a) && K.has(b)
    ensures PAdd(K, Const(K, a), Const(K, b)) == Const(K, K.add(a, b))
  {
    AddZero(K, a);
    AddZero(K, b);
    assert Const(K, a) != [] ==> Const(K, a)[1..] == [];
    assert Const(K, b) != [] ==> Const(K, b)[1..] == [];
  }

  lemma PolyCharacteristic(p: nat)
    requires Prime(p)
    ensures IsRing(PolyRing(Fp(p))) && Multiple(PolyRing(Fp(p)), p, PolyRing(Fp(p)).one) == []
  {
    FpIsField(p);
    PolyRingIsRing(Fp(p));
    ConstMultiple(Fp(p), p);
    ResidueCharacteristic(p);
  }

  lemma {:induction false} ConstPower<F(!new)>(K: Ring<F>, c: F, n: nat)
    requires IsRing(K) && K.has(c)
    ensures IsPoly(K, Const(K, c)) && K.has(Power(K, c, n))
    ensures Power(PolyRing(K), Const(K, c), n) == Const(K, Power(K, c, n))
  {
    ConsPoly(K, c, []);
    PowerHas(K, c, n);
    if n > 0 {
      ConstPower(K, c, n - 1);
      ConstTimes(K, c, Power(K, c, n - 1));
    }
  }

  lemma ConstTimes<F(!new)>(K: Ring<F>, a: F, b: F)
    requires IsRing(K) && K.has(a) && K.has(b)
    ensures PMul(K, Const(K, a), Const(K, b)) == Const(K, K.mul(a, b))
  {
    ConsPoly(K, b, []);
    ConstMul(K, a, Const(K, b));
    MulZero(K, a);
    assert Const(K, b) != [] ==> Const(K, b)[1..] == [];
  }
}
