/** Why the emptiness test on a numerator is exact: a Laurent polynomial that vanishes at every multiple
    of a point that tells its frequencies apart has no terms. */
module LaurentZeros {
  import opened Rings
  import opened Laurent
  import opened ComplexNumbers
  import opened TrigProver

  ghost function PowersOf<F(!new)>(K: Ring<F>, E: real -> F, n: nat): real -> F {
    k => Power(K, E(k), n)
  }

  /** E takes different values at the frequencies of m. */
  ghost predicate Separates<F(!new)>(m: LaurentMap<F>, E: real -> F) {
    forall k, l :: k in m && l in m && k != l ==> E(k) != E(l)
  }

  ghost predicate VanishesAt<F(!new)>(K: Ring<F>, m: LaurentMap<F>, E: real -> F, n: nat) {
    Total(K, m, PowersOf(K, E, n)) == K.zero
  }

  lemma PowersWeigh<F(!new)>(K: Ring<F>, E: real -> F, n: nat)
    requires IsRing(K) && Weights(K, E)
    ensures Weights(K, PowersOf(K, E, n))
  {
    forall k ensures K.has(PowersOf(K, E, n)(k)) { PowerHas(K, E(k), n); }
  }

  /** d holds the terms of s, each times E(k) - e. */
  ghost predicate IsDamped<F(!new)>(K: Ring<F>, s: LaurentMap<F>, E: real -> F, e: F, d: LaurentMap<F>) {
    d.Keys == s.Keys && forall k :: k in s ==> d[k] == K.mul(s[k], Sub(K, E(k), e))
  }

  // c (x - e) y == c (x y) - e (c y)
  lemma DampedTerm<F(!new)>(K: Ring<F>, c: F, x: F, e: F, y: F)
    requires IsRing(K) && K.has(c) && K.has(x) && K.has(e) && K.has(y)
    ensures K.mul(K.mul(c, Sub(K, x, e)), y) == Sub(K, K.mul(c, K.mul(x, y)), K.mul(e, K.mul(c, y)))
  {
    MulAssoc(K, c, Sub(K, x, e), y);
    MulComm(K, Sub(K, x, e), y);
    MulSub(K, y, x, e);
    MulComm(K, y, x);
    MulComm(K, y, e);
    MulSub(K, c, K.mul(x, y), K.mul(e, y));
    MulSwap(K, c, e, y);
  }

  // (a - e b) + (a' - e b') == (a + a') - e (b + b')
  lemma DampedSum<F(!new)>(K: Ring<F>, a: F, b: F, a': F, b': F, e: F)
    requires IsRing(K) && K.has(a) && K.has(b) && K.has(a') && K.has(b') && K.has(e)
    ensures K.add(Sub(K, a, K.mul(e, b)), Sub(K, a', K.mul(e, b'))) == Sub(K, K.add(a, a'), K.mul(e, K.add(b, b')))
  {
    SubSwap(K, a, K.mul(e, b), a', K.mul(e, b'));
    Distr(K, e, b, b');
  }

  lemma {:induction false} DampedTotal<F(!new)>(K: Ring<F>, s: LaurentMap<F>, E: real -> F, e: F, d: LaurentMap<F>,
                                                n: nat)
    requires IsRing(K) && IsLaurent(K, s) && IsLaurent(K, d) && Weights(K, E) && K.has(e) && IsDamped(K, s, E, e, d)
    ensures Total(K, d, PowersOf(K, E, n))
         == Sub(K, Total(K, s, PowersOf(K, E, n + 1)), K.mul(e, Total(K, s, PowersOf(K, E, n))))
    decreases |s|
  {
    hide IsRing, Power, Total;
    NoKeys(s);
    NoKeys(d);
    if s == map[] {
      ZeroHas(K);
      EmptyTotal(K, PowersOf(K, E, n));
      EmptyTotal(K, PowersOf(K, E, n + 1));
      MulZero(K, e);
      SubSelf(K, K.zero, K.zero);
    } else {
      var k := Choose(s.Keys);
      Fewer(s, k);
      DampedTotal(K, s - {k}, E, e, d - {k}, n);
      DampedStep(K, s, E, e, d, n, k);
    }
  }

  lemma DampedStep<F(!new)>(K: Ring<F>, s: LaurentMap<F>, E: real -> F, e: F, d: LaurentMap<F>, n: nat, k: real)
    requires IsRing(K) && IsLaurent(K, s) && IsLaurent(K, d) && Weights(K, E) && K.has(e) && k in s
    requires IsDamped(K, s, E, e, d)
    requires Total(K, d - {k}, PowersOf(K, E, n))
      == Sub(K, Total(K, s - {k}, PowersOf(K, E, n + 1)), K.mul(e, Total(K, s - {k}, PowersOf(K, E, n))))
    ensures Total(K, d, PowersOf(K, E, n))
         == Sub(K, Total(K, s, PowersOf(K, E, n + 1)), K.mul(e, Total(K, s, PowersOf(K, E, n))))
  {
    hide IsRing, Power, Total, IsLaurent, Weights, PowersOf, Sub;
    var (f, g) := (PowersOf(K, E, n), PowersOf(K, E, n + 1));
    PowersWeigh(K, E, n);
    PowersWeigh(K, E, n + 1);
    TotalRemove(K, d, f, k);
    TotalRemove(K, s, f, k);
    TotalRemove(K, s, g, k);
    RemoveKeeps(K, s, f, k);
    RemoveKeeps(K, s, g, k);
    TotalHas(K, s - {k}, f);
    TotalHas(K, s - {k}, g);
    WeightAt(K, E, n, k);
    DampedTerm(K, s[k], E(k), e, f(k));
    DampedSum(K, K.mul(s[k], g(k)), K.mul(s[k], f(k)), Total(K, s - {k}, g), Total(K, s - {k}, f), e);
  }

  lemma WeightAt<F(!new)>(K: Ring<F>, E: real -> F, n: nat, k: real)
    requires IsRing(K) && Weights(K, E)
    ensures K.has(E(k)) && K.has(PowersOf(K, E, n)(k))
    ensures PowersOf(K, E, n + 1)(k) == K.mul(E(k), PowersOf(K, E, n)(k))
  {
    PowersWeigh(K, E, n);
  }

  lemma ZeroHas<F(!new)>(K: Ring<F>)
    requires IsRing(K)
    ensures K.has(K.zero)
  {}

  lemma EmptyTotal<F(!new)>(K: Ring<F>, f: real -> F)
    ensures Total(K, map[], f) == K.zero
  {
    NoKeys<F>(map[]);
  }

  lemma PowerStep<F(!new)>(K: Ring<F>, x: F, n: nat)
    ensures Power(K, x, n + 1) == K.mul(x, Power(K, x, n))
  {}

  // without the frequency l, every other term damped by its distance from l
  ghost function Damped<F>(K: Ring<F>, m: LaurentMap<F>, E: real -> F, l: real): LaurentMap<F> {
    map k | k in m && k != l :: K.mul(m[k], Sub(K, E(k), E(l)))
  }

  lemma DampedIsLaurent<F(!new)>(K: Ring<F>, m: LaurentMap<F>, E: real -> F, l: real)
    requires IsDomain(K) && IsLaurent(K, m) && Weights(K, E) && Separates(m, E) && l in m
    ensures IsLaurent(K, Damped(K, m, E, l)) && IsDamped(K, m - {l}, E, E(l), Damped(K, m, E, l))
    ensures Damped(K, m, E, l).Keys == m.Keys - {l}
  {
    forall k | k in m && k != l
      ensures K.has(K.mul(m[k], Sub(K, E(k), E(l)))) && K.mul(m[k], Sub(K, E(k), E(l))) != K.zero
    {
      SubSelf(K, E(k), E(l));
    }
  }

  // the power sums of the damped terms vanish with those of m
  lemma DampedVanishes<F(!new)>(K: Ring<F>, m: LaurentMap<F>, E: real -> F, l: real, n: nat)
    requires IsDomain(K) && IsLaurent(K, m) && Weights(K, E) && Separates(m, E) && l in m
    requires VanishesAt(K, m, E, n) && VanishesAt(K, m, E, n + 1)
    ensures VanishesAt(K, Damped(K, m, E, l), E, n)
  {
    hide IsDomain, IsRing, Power, Total, Damped;
    DomainIsRing(K);
    var (e, rest, f, g) := (E(l), m - {l}, PowersOf(K, E, n), PowersOf(K, E, n + 1));
    DampedIsLaurent(K, m, E, l);
    DampedTotal(K, rest, E, e, Damped(K, m, E, l), n);
    PowersWeigh(K, E, n);
    PowersWeigh(K, E, n + 1);
    TotalRemove(K, m, f, l);
    TotalRemove(K, m, g, l);
    TotalHas(K, rest, f);
    TotalHas(K, rest, g);
    PowerStep(K, e, n);
    Cancelling(K, m[l], e, f(l), Total(K, rest, f), Total(K, rest, g));
  }

  lemma DomainIsRing<F(!new)>(K: Ring<F>)
    requires IsDomain(K)
    ensures IsRing(K)
  {}

  // c y + b == 0 and c (e y) + a == 0 make a - e b == 0
  lemma Cancelling<F(!new)>(K: Ring<F>, c: F, e: F, y: F, b: F, a: F)
    requires IsRing(K) && K.has(c) && K.has(e) && K.has(y) && K.has(b) && K.has(a)
    requires K.add(K.mul(c, y), b) == K.zero && K.add(K.mul(c, K.mul(e, y)), a) == K.zero
    ensures Sub(K, a, K.mul(e, b)) == K.zero
  {
    NegUnique(K, K.mul(c, y), b);
    NegUnique(K, K.mul(c, K.mul(e, y)), a);
    MulSwap(K, c, e, y);
    MulNeg(K, e, K.mul(c, y));
    SubSelf(K, a, K.mul(e, b));
  }

  /** A canonical map is empty exactly when all its power sums vanish. */
  lemma {:induction false} EmptyIffVanishes<F(!new)>(K: Ring<F>, m: LaurentMap<F>, E: real -> F)
    requires IsDomain(K) && IsLaurent(K, m) && Weights(K, E) && Separates(m, E)
    ensures m == map[] <==> forall n: nat :: VanishesAt(K, m, E, n)
    decreases |m|
  {
    hide IsDomain, IsRing, Power, Total, Damped;
    DomainIsRing(K);
    NoKeys(m);
    if m == map[] {
      forall n: nat ensures VanishesAt(K, m, E, n) { EmptyTotal(K, PowersOf(K, E, n)); }
    } else if forall n: nat :: VanishesAt(K, m, E, n) {
      var l := Choose(m.Keys);
      DampedIsLaurent(K, m, E, l);
      var d := Damped(K, m, E, l);
      Fewer(m, l);
      assert d.Keys == (m - {l}).Keys && |d| == |d.Keys| && |m - {l}| == |(m - {l}).Keys|;
      forall n: nat ensures VanishesAt(K, d, E, n) { DampedVanishes(K, m, E, l, n); }
      EmptyIffVanishes(K, d, E);
      SingleTerm(K, m, E, l);
    }
  }

  // one term alone does not vanish
  lemma SingleTerm<F(!new)>(K: Ring<F>, m: LaurentMap<F>, E: real -> F, l: real)
    requires IsRing(K) && IsLaurent(K, m) && Weights(K, E) && m.Keys == {l}
    ensures !VanishesAt(K, m, E, 0)
  {
    PowersWeigh(K, E, 0);
    TotalRemove(K, m, PowersOf(K, E, 0), l);
    assert (m - {l}).Keys == {};
    MulOne(K, m[l]);
    AddZero(K, m[l]);
  }

  lemma NextMultiple(a: real, x: real, t: real)
    ensures RMul(a, RMul(0.0, x)) == 0.0
    ensures RMul(a, RMul(t + 1.0, x)) == RMul(a, x) + RMul(a, RMul(t, x))
  {
    assert (t + 1.0) * x == t * x + x;
    assert a * (t * x + x) == a * (t * x) + a * x;
  }

  // e^(i a n x) == (e^(i a x))^n
  lemma {:induction false} WavePower(M: Meaning, x: real, n: nat, a: real)
    requires IsMeaning(M)
    ensures Wave(M.cis, RMul(n as real, x))(a) == Power(Complexes(), Wave(M.cis, x)(a), n)
  {
    hide RMul;
    NextMultiple(a, x, (n - 1) as real);
    if n > 0 {
      WavePower(M, x, n - 1, a);
      assert (n - 1) as real + 1.0 == n as real;
      assert Multiplies(Complexes(), M.cis, RMul(a, x), RMul(a, RMul((n - 1) as real, x)));
    }
  }

  lemma SameWeights<F(!new)>(K: Ring<F>, m: LaurentMap<F>, f: real -> F, g: real -> F)
    requires IsRing(K) && IsLaurent(K, m) && Weights(K, f) && Weights(K, g) && forall k :: k in m ==> f(k) == g(k)
    ensures Total(K, m, f) == Total(K, m, g)
    decreases |m|
  {
    if m.Keys != {} {
      var k := Choose(m.Keys);
      Fewer(m, k);
      SameWeights(K, m - {k}, f, g);
    }
  }

  /** The numerator vanishes at n x. */
  ghost predicate ZeroAtMultiple(r: LaurentRat, M: Meaning, x: real, n: nat) {
    NumAt(r, Wave(M.cis, RMul(n as real, x))) == CZERO
  }

  /** The test the prover ends with: the numerator has no terms exactly when it vanishes at every
      multiple of one point that tells its frequencies apart. */
  lemma NumeratorDecides(r: LaurentRat, M: Meaning, x: real)
    requires IsLaurentRat(r) && IsMeaning(M) && Separates(r.num, Wave(M.cis, x))
    ensures r.num == map[] <==> forall n: nat :: ZeroAtMultiple(r, M, x, n)
  {
    hide IsDomain, IsRing, Power, Total;
    var K := Complexes();
    ComplexesAreField();
    DomainIsRing(K);
    var E := Wave(M.cis, x);
    EmptyIffVanishes(K, r.num, E);
    forall n: nat ensures VanishesAt(K, r.num, E, n) <==> ZeroAtMultiple(r, M, x, n) {
      PowersWeigh(K, E, n);
      forall k ensures PowersOf(K, E, n)(k) == Wave(M.cis, RMul(n as real, x))(k) { WavePower(M, x, n, k); }
      SameWeights(K, r.num, PowersOf(K, E, n), Wave(M.cis, RMul(n as real, x)));
    }
  }

  // ----- what the verdict is worth -----

  /** One Laurent polynomial that vanishes wherever one of the given ones does. */
  lemma {:induction false} Combined(m: LaurentMap<Complex>, gs: seq<LaurentMap<Complex>>)
    returns (w: LaurentMap<Complex>)
    requires IsLaurent(Complexes(), m) && m != map[] && Guards(gs)
    ensures IsLaurent(Complexes(), w) && w != map[]
    ensures forall E :: IsExponential(Complexes(), E) && Total(Complexes(), w, E) != CZERO ==>
      Total(Complexes(), m, E) != CZERO && NoneVanishes(gs, E)
    decreases |gs|
  {
    hide Total, IsConvolution, IsRing, IsField, IsDomain, IsExponential, CMul;
    if gs == [] {
      w := m;
    } else {
      var K := Complexes();
      var (rest, last) := (gs[..|gs| - 1], gs[|gs| - 1]);
      var u := Combined(m, rest);
      ComplexesAreField();
      w := ConvolutionExists(K, u, last);
      ProductNotEmpty(K, u, last, w);
      forall E | IsExponential(K, E) && Total(K, w, E) != CZERO
        ensures Total(K, m, E) != CZERO && NoneVanishes(gs, E)
      {
        ConvolutionValue(K, u, last, w, E);
        ZeroTimes(Total(K, u, E), Total(K, last, E));
        forall i | 0 <= i < |gs| ensures Total(K, gs[i], E) != CZERO {
          if i < |gs| - 1 { assert gs[i] == rest[i]; }
        }
      }
    }
  }

  lemma ZeroTimes(a: Complex, b: Complex)
    ensures a == CZERO || b == CZERO ==> CMul(a, b) == CZERO
  {}

  /** M with the variable x at t. */
  ghost function AtPoint(M: Meaning, x: string, t: real): Meaning {
    M.(env := (y: string) => if y == x then t else M.env(y))
  }

  /** The expression has a value at n t, and it is not zero. */
  ghost predicate NonZeroAtMultiple(e: Expr, x: string, M: Meaning, t: real, n: nat) {
    var v := Denote(AtPoint(M, x, RMul(n as real, t)), e);
    v.Some? && v.value != CZERO
  }

  ghost predicate NonZeroAtSome(e: Expr, x: string, M: Meaning, t: real) {
    exists n: nat :: NonZeroAtMultiple(e, x, M, t, n)
  }

  /** Whatever the reading of e^(it): at some multiple of any point that tells the frequencies of w apart, the
      expression has a value, and it is not zero. */
  ghost predicate Refuted(e: Expr, x: string, w: LaurentMap<Complex>) {
    forall M: Meaning, t: real {:trigger NonZeroAtSome(e, x, M, t)} ::
      IsMeaning(M) && Separates(w, Wave(M.cis, t)) ==> NonZeroAtSome(e, x, M, t)
  }

  // a Laurent polynomial with terms does not vanish at all multiples of a separating point
  lemma SomeMultiple(w: LaurentMap<Complex>, M: Meaning, t: real) returns (n: nat)
    requires IsLaurent(Complexes(), w) && w != map[] && IsMeaning(M) && Separates(w, Wave(M.cis, t))
    ensures Total(Complexes(), w, Wave(M.cis, RMul(n as real, t))) != CZERO
  {
    hide IsDomain, IsRing, Power, Total, Separates;
    var K := Complexes();
    ComplexesAreField();
    DomainIsRing(K);
    var E := Wave(M.cis, t);
    MeaningWeighs(M, t);
    EmptyIffVanishes(K, w, E);
    n :| !VanishesAt(K, w, E, n);
    PowersWeigh(K, E, n);
    MeaningWeighs(M, RMul(n as real, t));
    forall k ensures PowersOf(K, E, n)(k) == Wave(M.cis, RMul(n as real, t))(k) { WavePower(M, t, n, k); }
    SameWeights(K, w, PowersOf(K, E, n), Wave(M.cis, RMul(n as real, t)));
  }

  lemma MeaningWeighs(M: Meaning, t: real)
    requires IsMeaning(M)
    ensures Weights(Complexes(), Wave(M.cis, t))
  {}

  /** A refusal is a refutation: an expression whose numerator has terms is not zero. */
  lemma FalseIsRefuted(e: Expr, x: string) returns (w: LaurentMap<Complex>)
    requires NonZeroNumerator(e, x)
    ensures IsLaurent(Complexes(), w) && w != map[] && Refuted(e, x, w)
  {
    hide Total, Separates, IsLaurent, Guards, NoneVanishes, Denote, CMul, HasValue;
    var r :| IsLaurentRat(r) && r.num != map[] && Represents(e, x, r);
    var gs :| Guards(gs) && GuardedBy(e, x, gs);
    w := Combined(r.num, gs);
    forall M: Meaning, t: real | IsMeaning(M) && Separates(w, Wave(M.cis, t)) ensures NonZeroAtSome(e, x, M, t) {
      var n := SomeMultiple(w, M, t);
      var N := AtPoint(M, x, RMul(n as real, t));
      MeaningWave(N, x);
      assert N.cis == M.cis && N.env(x) == RMul(n as real, t);
      assert Total(Complexes(), w, Wave(N.cis, N.env(x))) != CZERO;
      ValueNotZero(r, Wave(N.cis, N.env(x)), Denote(N, e).value);
      assert NonZeroAtMultiple(e, x, M, t, n);
    }
  }

  /** The expression is zero wherever it has a value. */
  ghost predicate VanishesEverywhere(e: Expr) {
    forall M: Meaning :: IsMeaning(M) && Denote(M, e).Some? ==> Denote(M, e) == Some(CZERO)
  }

  ghost predicate SomewhereSeparates(M: Meaning, w: LaurentMap<Complex>) {
    exists t: real :: Separates(w, Wave(M.cis, t))
  }

  /** On a supported expression the verdict is exact, as soon as one reading of e^(it) tells any finitely many
      frequencies apart at some point, which the complex exponential does. */
  lemma VerdictIsExact(e: Expr, x: string, M: Meaning)
    requires IsMeaning(M) && forall w: LaurentMap<Complex> :: SomewhereSeparates(M, w)
    requires IdenticallyZero(e, x) || NonZeroNumerator(e, x)
    ensures IdenticallyZero(e, x) <==> VanishesEverywhere(e)
  {
    hide Guarded, Represents, Denote, Separates;
    if IdenticallyZero(e, x) {
      var r :| IsLaurentRat(r) && r.num == map[] && Represents(e, x, r);
      EmptyNumerator(e, x, r);
    }
    if NonZeroNumerator(e, x) {
      var w := FalseIsRefuted(e, x);
      assert SomewhereSeparates(M, w);
      var t: real :| Separates(w, Wave(M.cis, t));
      assert NonZeroAtSome(e, x, M, t);
      var n: nat :| NonZeroAtMultiple(e, x, M, t, n);
      assert IsMeaning(AtPoint(M, x, RMul(n as real, t)));
    }
  }
}
