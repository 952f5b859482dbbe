/** Greatest common divisors, coprimality and primes over the integers. */
module Numbers {
  import opened Rings

  /** d divides a. */
  ghost predicate Div(d: int, a: int) {
    Divides(Integers(), d, a)
  }

  lemma DivIntro(d: int, q: int, a: int)
    requires a == q * d
    ensures Div(d, a)
  {
    DividesIntro(Integers(), q, d, a);
  }

  lemma DivQuotient(d: int, a: int) returns (q: int)
    requires Div(d, a)
    ensures a == q * d
  {
    q :| Integers().mul(q, d) == a;
  }

  lemma DivRemainder(d: int, a: int)
    requires d != 0
    ensures Div(d, a) <==> a % d == 0
  {
    if a % d == 0 {
      DivIntro(d, a / d, a);
    }
    if Div(d, a) {
      var q := DivQuotient(d, a);
      ModUnique(a, d, q, 0);
    }
  }

  lemma ModUnique(a: int, d: int, q: int, r: int)
    requires d != 0 && a == q * d + r && 0 <= r < (if d > 0 then d else -d)
    ensures a % d == r
  {
    var e := a / d - q;
    var s := a % d;
    assert a == (a / d) * d + s;
    assert e * d == r - s by {
      assert e * d == (a / d) * d - q * d;
    }
    SmallMultiple(e, d, r - s);
  }

  lemma SmallMultiple(e: int, d: int, v: int)
    requires d != 0 && e * d == v && -(if d > 0 then d else -d) < v < (if d > 0 then d else -d)
    ensures v == 0
  {
    if e != 0 {
      ProductGrows(e, d);
    }
  }

  lemma DivTrans(d: int, a: int, b: int)
    requires Div(d, a) && Div(a, b)
    ensures Div(d, b)
  {
    IntegersAreDomain();
    DividesTrans(Integers(), d, a, b);
  }

  lemma DivSelf(a: int)
    ensures Div(a, a) && Div(1, a) && Div(a, 0)
  {
    DivIntro(a, 1, a);
    DivIntro(1, a, a);
    DivIntro(a, 0, 0);
  }

  lemma DivSum(d: int, a: int, b: int)
    requires Div(d, a) && Div(d, b)
    ensures Div(d, a + b) && Div(d, a - b)
  {
    IntegersAreDomain();
    DividesAdd(Integers(), d, a, b);
    DividesSub(Integers(), d, a, b);
  }

  lemma DivTimes(d: int, a: int, b: int)
    requires Div(d, a)
    ensures Div(d, a * b) && Div(d, b * a)
  {
    IntegersAreDomain();
    DividesMul(Integers(), d, a, b);
  }

  lemma DivNeg(d: int, a: int)
    ensures Div(d, a) <==> Div(d, -a)
    ensures Div(d, a) <==> Div(-d, a)
  {
    if Div(d, a) { var q := DivQuotient(d, a); DivIntro(d, -q, -a); DivIntro(-d, -q, a); }
    if Div(d, -a) { var q := DivQuotient(d, -a); DivIntro(d, -q, a); }
    if Div(-d, a) { var q := DivQuotient(-d, a); DivIntro(d, -q, a); }
  }

  lemma DivBound(d: int, a: int)
    requires Div(d, a) && a != 0
    ensures d != 0 && -(if a > 0 then a else -a) <= d <= (if a > 0 then a else -a)
  {
    var q := DivQuotient(d, a);
    assert q != 0 && d != 0;
    ProductGrows(q, d);
  }

  lemma ProductGrows(q: int, d: int)
    requires q != 0
    ensures (if d > 0 then d else -d) <= (if q * d > 0 then q * d else -(q * d))
  {
    if q >= 1 {
      assert d > 0 ==> q * d >= d;
      assert d <= 0 ==> q * d <= d;
    } else {
      assert d > 0 ==> q * d <= -d;
      assert d <= 0 ==> q * d >= -d;
    }
  }

  function Abs(a: int): nat { if a < 0 then -a else a }

  /** The greatest common divisor, by Euclid's algorithm. */
  function Gcd(a: nat, b: nat): nat
    decreases b
  {
    if b == 0 then a else Gcd(b, a % b)
  }

  /** Gcd divides both, and is an integer combination of them. */
  lemma {:induction false} GcdBezout(a: nat, b: nat) returns (s: int, t: int)
    ensures Div(Gcd(a, b), a) && Div(Gcd(a, b), b)
    ensures s * a + t * b == Gcd(a, b)
    ensures a != 0 || b != 0 ==> Gcd(a, b) > 0
    decreases b
  {
    var g := Gcd(a, b);
    if b == 0 {
      s, t := 1, 0;
      DivSelf(a);
    } else {
      var q, r := a / b, a % b;
      assert a == q * b + r;
      var s', t' := GcdBezout(b, r);
      DivTimes(g, b, q);
      DivSum(g, q * b, r);
      s, t := t', s' - q * t';
      BezoutStep(a, b, q, r, s', t');
    }
  }

  lemma BezoutStep(a: int, b: int, q: int, r: int, s: int, t: int)
    requires a == q * b + r
    ensures t * a + (s - q * t) * b == s * b + t * r
  {
    assert t * (q * b) == (q * t) * b;
  }

  lemma GcdUniversal(a: nat, b: nat, d: int)
    ensures Div(d, Gcd(a, b)) <==> Div(d, a) && Div(d, b)
  {
    var s, t := GcdBezout(a, b);
    if Div(d, a) && Div(d, b) {
      DivTimes(d, a, s);
      DivTimes(d, b, t);
      DivSum(d, s * a, t * b);
    }
    if Div(d, Gcd(a, b)) {
      DivTrans(d, Gcd(a, b), a);
      DivTrans(d, Gcd(a, b), b);
    }
  }

  /** No divisor beyond the units in common. */
  ghost predicate Coprime(a: int, b: int) {
    forall d {:trigger Div(d, a)} {:trigger Div(d, b)} :: d > 1 ==> !(Div(d, a) && Div(d, b))
  }

  lemma CoprimeGcd(a: int, b: int)
    requires a != 0 || b != 0
    ensures Coprime(a, b) <==> Gcd(Abs(a), Abs(b)) == 1
  {
    var g := Gcd(Abs(a), Abs(b));
    var s, t := GcdBezout(Abs(a), Abs(b));
    forall d: int ensures Div(d, g) <==> Div(d, a) && Div(d, b) {
      GcdUniversal(Abs(a), Abs(b), d);
      DivNeg(d, a);
      DivNeg(d, b);
    }
    DivSelf(g);
    if g == 1 {
      forall d | d > 1 ensures !Div(d, 1) {
        if Div(d, 1) { DivBound(d, 1); }
      }
    }
  }

  lemma CoprimeBezout(a: int, b: int) returns (s: int, t: int)
    requires (a != 0 || b != 0) && Coprime(a, b)
    ensures s * a + t * b == 1
  {
    CoprimeGcd(a, b);
    s, t := GcdBezout(Abs(a), Abs(b));
    if a < 0 { assert (-s) * a == s * (-a); s := -s; }
    if b < 0 { assert (-t) * b == t * (-b); t := -t; }
  }

  /** Euclid's lemma. */
  lemma CoprimeDivides(d: int, a: int, b: int)
    requires (d != 0 || a != 0) && Coprime(d, a) && Div(d, a * b)
    ensures Div(d, b)
  {
    var s, t := CoprimeBezout(d, a);
    DivSelf(d);
    DivTimes(d, d, s * b);
    DivTimes(d, a * b, t);
    DivSum(d, d * (s * b), (a * b) * t);
    assert d * (s * b) + (a * b) * t == (s * d + t * a) * b;
  }

  // a divisor of something coprime to b is coprime to b
  lemma CoprimeDown(d: int, a: int, b: int)
    requires Div(d, a) && Coprime(a, b)
    ensures Coprime(d, b)
  {
    forall e | e > 1 && Div(e, d) && Div(e, b) ensures false {
      DivTrans(e, d, a);
    }
  }

  ghost predicate Prime(r: int) {
    r > 1 && forall d {:trigger Div(d, r)} :: d > 1 && Div(d, r) ==> d == r
  }

  lemma PrimeDivides(r: int, a: int, b: int)
    requires Prime(r) && Div(r, a * b)
    ensures Div(r, a) || Div(r, b)
  {
    if !Div(r, a) {
      assert Coprime(r, a);
      CoprimeDivides(r, a, b);
    }
  }

  lemma {:induction false} PrimeFactor(n: int) returns (r: int)
    requires n > 1
    ensures Prime(r) && Div(r, n)
    decreases n
  {
    if Prime(n) {
      DivSelf(n);
      r := n;
    } else {
      var d :| d > 1 && Div(d, n) && d != n;
      DivBound(d, n);
      r := PrimeFactor(d);
      DivTrans(r, d, n);
    }
  }
}
