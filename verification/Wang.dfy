/** Wang's non-divisors test and the peeling of multiplicities. */
module Wang {
  import opened Numbers
  import opened MPolys
  import opened Powers
  import MPolyOps

  // no common prime means coprime
  lemma CoprimeByPrimes(a: int, b: int)
    requires forall p :: Prime(p) && Div(p, a) ==> !Div(p, b)
    ensures Coprime(a, b)
  {
    forall d | d > 1 ensures !(Div(d, a) && Div(d, b)) {
      if Div(d, a) && Div(d, b) {
        var p := PrimeFactor(d);
        DivTrans(p, d, a);
        DivTrans(p, d, b);
      }
    }
  }

  lemma GcdFacts(a: nat, b: nat)
    requires b > 0
    ensures Gcd(a, b) > 0 && Div(Gcd(a, b), a) && Div(Gcd(a, b), b)
    ensures forall d :: Div(d, a) && Div(d, b) ==> Div(d, Gcd(a, b))
  {
    var s, t := GcdBezout(a, b);
    forall d | Div(d, a) && Div(d, b) ensures Div(d, Gcd(a, b)) { GcdUniversal(a, b, d); }
  }

  /** Divides out of q whatever it shares with r0: the loop that chases gcds.  It leaves q coprime to r0
      itself, not only to the last gcd, and every prime that has gone divides r0. */
  method Chase(r0: nat, q0: nat) returns (q: nat)
    requires q0 > 0
    ensures q > 0 && Div(q, q0) && Coprime(q, r0)
    ensures forall p :: Prime(p) && Div(p, q0) ==> Div(p, q) || Div(p, r0)
  {
    hide Gcd, Div, Prime, Coprime;
    q := q0;
    var r := r0;
    DivSelf(q0);
    DivSelf(r0);
    while r != 1
      invariant q > 0 && Div(q, q0) && Div(r, r0)
      invariant forall p :: Prime(p) && Div(p, q) && Div(p, r0) ==> Div(p, r)
      invariant forall p :: Prime(p) && Div(p, q0) ==> Div(p, q) || Div(p, r0)
      decreases q
    {
      var g := Gcd(r, q);
      GcdFacts(r, q);
      if g == 1 { break; }
      ghost var before := q;
      q := q / g;
      ExactQuotient(before, g, q);
      forall p | Prime(p) && Div(p, q0) ensures Div(p, q) || Div(p, r0) {
        if Div(p, before) { PrimeLeaves(p, before, g, q, r, r0); }
      }
      forall p | Prime(p) && Div(p, q) && Div(p, r0) ensures Div(p, g) { DivTrans(p, q, before); }
      DivTrans(q, before, q0);
      DivTrans(g, r, r0);
      r := g;
    }
    forall p | Prime(p) && Div(p, q) ensures !Div(p, r0) { ChaseEnds(p, q, r, r0); }
    CoprimeByPrimes(q, r0);
  }

  lemma ChaseEnds(p: int, q: nat, r: nat, r0: nat)
    requires Prime(p) && Div(p, q) && (Div(p, r0) ==> Div(p, r)) && q > 0 && (r == 1 || Gcd(r, q) == 1)
    ensures !Div(p, r0)
  {
    GcdFacts(r, q);
    UnitHasNoPrime(p);
  }

  lemma UnitHasNoPrime(p: int)
    requires Prime(p)
    ensures !Div(p, 1)
  {
    if Div(p, 1) { DivBound(p, 1); }
  }

  lemma ExactQuotient(a: int, g: int, q: int)
    requires a > 0 && g > 1 && Div(g, a) && q == a / g
    ensures q > 0 && q < a && a == q * g && Div(q, a)
  {
    DivRemainder(g, a);
    QuotientBounds(a, g, q);
    DivIntro(q, g, a);
    DivIntro(g, q, a);
  }

  lemma QuotientBounds(a: int, g: int, q: int)
    requires a > 0 && g > 1 && q == a / g && a % g == 0
    ensures 0 < q < a && a == q * g && a == g * q
  {
    assert a == q * g;
    PositiveFactor(q, g);
  }

  lemma PositiveFactor(q: int, g: int)
    requires g > 1 && q * g > 0
    ensures 0 < q < q * g
  {
    assert q <= 0 ==> q * g <= 0;
    assert q > 0 ==> q * (g - 2) >= 0;
  }

  // a prime of q does not divide what q is coprime to
  lemma PrimeSplits(p: int, q: int, r: int)
    requires Prime(p) && Div(p, q) && Coprime(q, r)
    ensures !Div(p, r)
  {}


  lemma PrimeLeaves(p: int, before: int, g: int, q: int, r: int, r0: int)
    requires Prime(p) && Div(p, before) && before == q * g && Div(g, r) && Div(r, r0)
    ensures Div(p, q) || Div(p, r0)
  {
    PrimeDivides(p, q, g);
    if Div(p, g) {
      DivTrans(p, g, r);
      DivTrans(p, r, r0);
    }
  }

  /** Some divisor of E[i] beyond the units is coprime to c and to every earlier image. */
  ghost predicate Distinguished(E: seq<int>, c: int, i: nat)
    requires i < |E|
  {
    exists d :: d > 1 && Div(d, E[i]) && Coprime(d, c) && forall j :: 0 <= j < i ==> Coprime(d, E[j])
  }

  /** running[0] is |c|, and running[j + 1] is what is left of E[j]. */
  ghost predicate Running(E: seq<int>, c: int, n: nat, running: seq<nat>)
    requires n <= |E|
  {
    && |running| == n + 1 && running[0] == Abs(c)
    && (forall j :: 0 <= j < n ==> Div(running[j + 1], E[j]))
    && (forall j, p :: 0 <= j < n && Prime(p) && Div(p, E[j]) ==> Listed(p, running, 0))
  }

  /** p divides some entry from index k on. */
  ghost predicate Listed(p: int, running: seq<nat>, k: nat) {
    exists t :: k <= t < |running| && Div(p, running[t])
  }

  // coprime to every entry is coprime to c and the images
  lemma CoprimeToAll(E: seq<int>, c: int, n: nat, running: seq<nat>, q: int, j: nat)
    requires n <= |E| && Running(E, c, n, running) && j < n
    requires forall t :: 0 <= t < |running| ==> Coprime(q, running[t])
    ensures Coprime(q, E[j]) && Coprime(q, c)
  {
    forall p | Prime(p) && Div(p, q) ensures !Div(p, E[j]) {
      forall t | 0 <= t < |running| ensures !Div(p, running[t]) { PrimeSplits(p, q, running[t]); }
      assert !Listed(p, running, 0);
    }
    CoprimeByPrimes(q, E[j]);
    CoprimeToFirst(E, c, n, running, q);
  }

  lemma CoprimeToFirst(E: seq<int>, c: int, n: nat, running: seq<nat>, q: int)
    requires n <= |E| && Running(E, c, n, running) && Coprime(q, running[0])
    ensures Coprime(q, c)
  {
    forall d | d > 1 ensures !(Div(d, q) && Div(d, c)) { DivNeg(d, c); }
  }

  // when every prime of E[i] divides c or an earlier image, nothing distinguishes it
  lemma NotDistinguished(E: seq<int>, c: int, i: nat, running: seq<nat>)
    requires i < |E| && Running(E, c, i, running)
    requires forall p :: Prime(p) && Div(p, E[i]) ==> Listed(p, running, 0)
    ensures !Distinguished(E, c, i)
  {
    forall d | d > 1 && Div(d, E[i]) && Coprime(d, c) && forall j :: 0 <= j < i ==> Coprime(d, E[j]) ensures false {
      var p := PrimeFactor(d);
      DivTrans(p, d, E[i]);
      PrimeSplits(p, d, c);
      DivNeg(p, c);
      forall t | 0 <= t < |running| ensures !Div(p, running[t]) {
        if t > 0 {
          PrimeSplits(p, d, E[t - 1]);
          if Div(p, running[t]) { DivTrans(p, running[t], E[t - 1]); }
        }
      }
    }
  }

  /** The reduction of one image against the running list, from the back. */
  method Reduce(running: seq<nat>, q0: nat) returns (q: nat)
    requires q0 > 0
    ensures q > 0 && Div(q, q0)
    ensures q > 1 ==> forall t :: 0 <= t < |running| ==> Coprime(q, running[t])
    ensures forall p :: Prime(p) && Div(p, q0) ==> Div(p, q) || Listed(p, running, 0)
  {
    q := q0;
    DivSelf(q0);
    var i := |running|;
    while i > 0
      invariant 0 <= i <= |running| && q > 0 && Div(q, q0)
      invariant forall t :: i <= t < |running| ==> Coprime(q, running[t])
      invariant forall p :: Prime(p) && Div(p, q0) ==> Div(p, q) || Listed(p, running, i)
    {
      i := i - 1;
      ghost var before := q;
      q := Chase(running[i], q);
      DivTrans(q, before, q0);
      forall t | i <= t < |running| ensures Coprime(q, running[t]) {
        if t > i { CoprimeDown(q, before, running[t]); }
      }
      forall p | Prime(p) && Div(p, q0) ensures Div(p, q) || Listed(p, running, i) {
        if Listed(p, running, i + 1) {
          var t :| i + 1 <= t < |running| && Div(p, running[t]);
        }
      }
      if q == 1 {
        forall p | Prime(p) && Div(p, q0) ensures Listed(p, running, 0) {
          UnitHasNoPrime(p);
          var t :| i <= t < |running| && Div(p, running[t]);
        }
        return;
      }
    }
  }

  /** True exactly when every image is non-zero and has a divisor beyond the units that is coprime to
      cs * ct and to every earlier image. */
  method WangNonDivisorsOk(E: seq<int>, cs: int, ct: int) returns (ok: bool)
    ensures ok <==> forall i: nat :: i < |E| ==> E[i] != 0 && Distinguished(E, cs * ct, i)
  {
    hide Distinguished;
    ghost var c := cs * ct;
    var running: seq<nat> := [Abs(cs * ct)];
    for i := 0 to |E|
      invariant Running(E, c, i, running)
      invariant forall k: nat :: k < i ==> E[k] != 0 && Distinguished(E, c, k)
    {
      if E[i] == 0 { return false; }
      var q := Reduce(running, Abs(E[i]));
      SamePrimes(E[i]);
      DivNeg(q, E[i]);
      if q == 1 {
        forall p | Prime(p) && Div(p, E[i]) ensures Listed(p, running, 0) { UnitHasNoPrime(p); }
        NotDistinguished(E, c, i, running);
        return false;
      }
      FoundDivisor(E, c, i, running, q);
      running := Extend(E, c, i, running, q);
    }
    ok := true;
  }

  lemma SamePrimes(e: int)
    ensures forall p {:trigger Div(p, e)} {:trigger Div(p, Abs(e))} :: Div(p, e) <==> Div(p, Abs(e))
  {
    forall p ensures Div(p, e) <==> Div(p, Abs(e)) { DivNeg(p, e); }
  }

  lemma FoundDivisor(E: seq<int>, c: int, i: nat, running: seq<nat>, q: int)
    requires i < |E| && Running(E, c, i, running) && q > 1 && Div(q, E[i])
    requires forall t :: 0 <= t < |running| ==> Coprime(q, running[t])
    ensures Distinguished(E, c, i)
  {
    assert Coprime(q, running[0]);
    CoprimeToFirst(E, c, i, running, q);
    forall j: nat | j < i ensures Coprime(q, E[j]) { CoprimeToAll(E, c, i, running, q, j); }
  }

  function Extend(E: seq<int>, ghost c: int, i: nat, running: seq<nat>, q: nat): (r: seq<nat>)
    requires i < |E| && Running(E, c, i, running) && Div(q, E[i])
    requires forall p :: Prime(p) && Div(p, E[i]) ==> Div(p, q) || Listed(p, running, 0)
    ensures Running(E, c, i + 1, r)
  {
    ExtendKeeps(E, c, i, running, q);
    running + [q]
  }

  lemma ExtendKeeps(E: seq<int>, c: int, i: nat, running: seq<nat>, q: nat)
    requires i < |E| && Running(E, c, i, running) && Div(q, E[i])
    requires forall p :: Prime(p) && Div(p, E[i]) ==> Div(p, q) || Listed(p, running, 0)
    ensures Running(E, c, i + 1, running + [q])
  {
    var r := running + [q];
    forall j, p | 0 <= j < i + 1 && Prime(p) && Div(p, E[j]) ensures Listed(p, r, 0) {
      if j < i || Listed(p, running, 0) {
        assert Listed(p, running, 0);
        var t :| 0 <= t < |running| && Div(p, running[t]);
        assert Div(p, r[t]);
      } else {
        assert Div(p, r[|running|]);
      }
    }
  }

  // ----- multiplicities -----

  lemma PowerOfBase(e: int, k: nat, x: int)
    ensures x * IPow(e, k + 1) == (x * e) * IPow(e, k)
  {
    var w := IPow(e, k);
    assert x * (e * w) == (x * e) * w;
  }

  lemma SmallerQuotient(d: int, e: int, x: int)
    requires d != 0 && d == x * e && Abs(e) > 1
    ensures x != 0 && Abs(x) < Abs(d)
  {
    SignsOut(x, e);
    if x != 0 { Doubles(Abs(x), Abs(e)); }
  }

  lemma SignsOut(x: int, e: int)
    ensures Abs(x * e) == Abs(x) * Abs(e) && (x == 0 ==> x * e == 0)
  {
    NegatedFactor(x, e);
    if x >= 0 && e >= 0 { NonNegativeProduct(x, e); }
    if x < 0 && e >= 0 { NonNegativeProduct(-x, e); }
    if x >= 0 && e < 0 { NonNegativeProduct(x, -e); }
    if x < 0 && e < 0 { NonNegativeProduct(-x, -e); }
  }

  lemma NegatedFactor(x: int, e: int)
    ensures (-x) * e == -(x * e) && x * (-e) == -(x * e) && (-x) * (-e) == x * e
  {}

  lemma NonNegativeProduct(x: nat, e: nat)
    ensures x * e >= 0
  {}

  lemma Doubles(x: nat, e: nat)
    requires x > 0 && e > 1
    ensures x * e >= 2 * x
  {
    assert x * (e - 2) >= 0;
  }

  lemma QuotientOnce(d: int, e: int, k: nat)
    requires d != 0 && Abs(e) > 1 && d % e == 0
    ensures Abs(d / e) < Abs(d) && (d / e) * IPow(e, k + 1) == d * IPow(e, k)
  {
    var x := d / e;
    assert d == x * e;
    SmallerQuotient(d, e, x);
    PowerOfBase(e, k, x);
  }

  /** Divides e out of each entry in place, as often as it goes, and counts. */
  method PeelMultiplicities(e: int, d: array<int>) returns (ks: seq<nat>)
    requires e != 0
    modifies d
    ensures |ks| == d.Length
    ensures forall j :: 0 <= j < d.Length ==> old(d[j]) == d[j] * IPow(e, ks[j])
    ensures Abs(e) > 1 ==> forall j :: 0 <= j < d.Length ==> d[j] == 0 || !Div(e, d[j])
    ensures forall j :: 0 <= j < d.Length && (Abs(e) == 1 || old(d[j]) == 0) ==> ks[j] == 0
  {
    hide Div, IPow;
    IPowZero();
    ks := seq(d.Length, _ => 0);
    if Abs(e) == 1 { return; }
    for j := 0 to d.Length
      invariant |ks| == d.Length
      invariant forall l :: 0 <= l < j ==> old(d[l]) == d[l] * IPow(e, ks[l]) && (d[l] == 0 || !Div(e, d[l]))
      invariant forall l :: 0 <= l < j && old(d[l]) == 0 ==> ks[l] == 0
      invariant forall l :: j <= l < d.Length ==> d[l] == old(d[l]) && ks[l] == 0
    {
      while d[j] != 0 && d[j] % e == 0
        invariant |ks| == d.Length && old(d[j]) == d[j] * IPow(e, ks[j])
        invariant old(d[j]) == 0 ==> d[j] == 0 && ks[j] == 0
        invariant forall l :: 0 <= l < j ==> old(d[l]) == d[l] * IPow(e, ks[l]) && (d[l] == 0 || !Div(e, d[l]))
        invariant forall l :: 0 <= l < j && old(d[l]) == 0 ==> ks[l] == 0
        invariant forall l :: j < l < d.Length ==> d[l] == old(d[l]) && ks[l] == 0
        decreases Abs(d[j])
      {
        QuotientOnce(d[j], e, ks[j]);
        d[j] := d[j] / e;
        ks := ks[j := ks[j] + 1];
      }
      DivRemainder(e, d[j]);
    }
  }

  // ----- powers of sparse polynomials -----

  lemma {:induction false} IPowHalves(x: int, k: nat)
    ensures IPow(x, 2 * k) == IPow(x * x, k) && IPow(x, 2 * k + 1) == x * IPow(x * x, k)
  {
    if k > 0 {
      IPowHalves(x, k - 1);
      assert IPow(x, 2 * k) == x * (x * IPow(x, 2 * k - 2));
      assert 2 * k - 2 == 2 * (k - 1);
      assert x * (x * IPow(x * x, k - 1)) == (x * x) * IPow(x * x, k - 1);
    }
  }

  lemma PowStep(r: int, b: int, e: nat)
    requires e > 0
    ensures (if e % 2 == 1 then r * b else r) * IPow(b * b, e / 2) == r * IPow(b, e)
  {
    var w := IPow(b * b, e / 2);
    HalfPower(b, e);
    OneMore(r, b, w);
  }

  lemma HalfPower(b: int, e: nat)
    ensures IPow(b, e) == if e % 2 == 1 then b * IPow(b * b, e / 2) else IPow(b * b, e / 2)
  {
    IPowHalves(b, e / 2);
    assert e == 2 * (e / 2) + e % 2;
  }

  lemma OneMore(r: int, b: int, w: int)
    ensures (r * b) * w == r * (b * w)
  {}

  /** p^k by square and multiply. */
  method MPolyPow(p: MPoly, k: nat, n: nat) returns (r: MPoly)
    requires IsMPoly(p, n)
    ensures IsMPoly(r, n)
    ensures forall pt: seq<int> :: |pt| == n ==> EvalAt(r, pt) == IPow(EvalAt(p, pt), k)
  {
    hide EvalAt, IPow, MPolyOps.IsProduct;
    r := One(n);
    IPowZero();
    if k == 0 { return; }
    var base, e := p, k;
    while e > 0
      invariant IsMPoly(r, n) && IsMPoly(base, n)
      invariant forall pt: seq<int> :: |pt| == n ==>
        EvalAt(r, pt) * IPow(EvalAt(base, pt), e) == IPow(EvalAt(p, pt), k)
    {
      ghost var (r0, b0) := (r, base);
      if e % 2 == 1 { r := MPolyOps.Mul(r, base, n); }
      var half := e / 2;
      if half > 0 { base := MPolyOps.Mul(base, base, n); }
      forall pt: seq<int> | |pt| == n
        ensures EvalAt(r, pt) * IPow(EvalAt(base, pt), half) == IPow(EvalAt(p, pt), k)
      {
        PowStep(EvalAt(r0, pt), EvalAt(b0, pt), e);
      }
      e := half;
    }
  }

  lemma IPowZero()
    ensures forall x :: IPow(x, 0) == 1
  {}

  /** The constant one. */
  method One(n: nat) returns (r: MPoly)
    ensures IsMPoly(r, n) && forall pt: seq<int> :: |pt| == n ==> EvalAt(r, pt) == 1
  {
    var zero: Monomial := seq(n, _ => 0);
    r := map[zero := 1];
    forall pt: seq<int> | |pt| == n ensures EvalAt(r, pt) == 1 {
      ZeroMonoVal(zero, pt);
      LinRemove(r, Weight(pt), zero);
      assert r - {zero} == map[];
    }
  }

  lemma {:induction false} ZeroMonoVal(m: Monomial, pt: seq<int>)
    requires |m| <= |pt| && forall i :: 0 <= i < |m| ==> m[i] == 0
    ensures MonoVal(m, pt) == 1
  {
    if m != [] { ZeroMonoVal(m[1..], pt[1..]); }
  }
}
