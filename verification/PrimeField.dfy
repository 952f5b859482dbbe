/** Arithmetic modulo a prime. */
module PrimeField {
  import opened Rings
  import opened Numbers
  import Vectors

  /** The truncated remainder, moved up by p when it is negative. */
  function FpMod(a: int, p: int): (r: int)
    requires p > 0
    ensures 0 <= r < p && r == a % p
  {
    TruncatedRemainder(a, p);
    var t := if a >= 0 then a % p else -((-a) % p);
    if t < 0 then t + p else t
  }

  lemma TruncatedRemainder(a: int, p: int)
    requires p > 0
    ensures a < 0 ==> a % p == if (-a) % p == 0 then 0 else p - (-a) % p
  {
    if a < 0 {
      var (q, r) := ((-a) / p, (-a) % p);
      assert a == (-q) * p - r by { assert (-q) * p == -(q * p); }
      if r == 0 {
        ModUnique(a, p, -q, 0);
      } else {
        assert a == (-q - 1) * p + (p - r) by { assert (-q - 1) * p == (-q) * p - p; }
        ModUnique(a, p, -q - 1, p - r);
      }
    }
  }

  /** An inverse modulo p, when there is one. */
  function ModInverse(a: int, p: int): (r: Option<int>)
    requires p > 1
    ensures r.Some? ==> 0 <= r.value < p && FpMod(a * r.value, p) == 1
    ensures r.None? ==> forall x :: 0 <= x < p ==> FpMod(a * x, p) != 1
  {
    SearchInverse(a, p, 0)
  }

  function SearchInverse(a: int, p: int, x: nat): (r: Option<int>)
    requires p > 1 && x <= p
    ensures r.Some? ==> x <= r.value < p && FpMod(a * r.value, p) == 1
    ensures r.None? ==> forall y :: x <= y < p ==> FpMod(a * y, p) != 1
    decreases p - x
  {
    if x == p then None
    else if FpMod(a * x, p) == 1 then Some(x)
    else SearchInverse(a, p, x + 1)
  }

  function Fp(p: int): Ring<int>
    requires p > 1
  {
    Ring((a: int) => 0 <= a < p, 0, 1,
         (a: int, b: int) => FpMod(a + b, p), (a: int) => FpMod(-a, p), (a: int, b: int) => FpMod(a * b, p),
         (a: int) => ModInverse(a, p))
  }

  /** The coefficients reduced modulo p. */
  function Residues(p: int, f: seq<int>): (r: seq<int>)
    requires p > 1
    ensures |r| == |f| && forall i :: 0 <= i < |f| ==> r[i] == f[i] % p
  {
    seq(|f|, i requires 0 <= i < |f| => FpMod(f[i], p))
  }

  lemma ResiduesIn(p: int, f: seq<int>)
    requires p > 1
    ensures Vectors.AllIn(Fp(p), Residues(p, f))
  {}

  // ----- congruence -----

  /** p divides a - b. */
  ghost predicate Cong(a: int, b: int, p: int) {
    Div(p, a - b)
  }

  lemma CongMod(a: int, b: int, p: int)
    requires p > 0
    ensures Cong(a, b, p) <==> a % p == b % p
  {
    var (q, r, s, t) := (a / p, a % p, b / p, b % p);
    assert a - b == (q - s) * p + (r - t) by { assert (q - s) * p == q * p - s * p; }
    if r == t { DivIntro(p, q - s, a - b); }
    if Cong(a, b, p) {
      var k := DivQuotient(p, a - b);
      assert (k - (q - s)) * p == r - t by { assert (k - (q - s)) * p == k * p - (q - s) * p; }
      SmallMultiple(k - (q - s), p, r - t);
    }
  }

  lemma CongSelfMod(a: int, p: int)
    requires p > 0
    ensures Cong(a % p, a, p) && Cong(a, a % p, p)
  {
    var q := a / p;
    assert a == q * p + a % p;
    DivIntro(p, q, a - a % p);
    DivNeg(p, a - a % p);
    assert -(a - a % p) == a % p - a;
  }

  lemma CongAdd(a: int, b: int, c: int, d: int, p: int)
    requires Cong(a, b, p) && Cong(c, d, p)
    ensures Cong(a + c, b + d, p)
  {
    DivSum(p, a - b, c - d);
    assert (a - b) + (c - d) == (a + c) - (b + d);
  }

  lemma CongMul(a: int, b: int, c: int, d: int, p: int)
    requires Cong(a, b, p) && Cong(c, d, p)
    ensures Cong(a * c, b * d, p)
  {
    DivTimes(p, a - b, c);
    DivTimes(p, c - d, b);
    DivSum(p, (a - b) * c, (c - d) * b);
    assert (a - b) * c + (c - d) * b == a * c - b * d;
  }

  // ----- reduction is a homomorphism -----

  lemma ModAdd(a: int, b: int, p: int)
    requires p > 0
    ensures (a % p + b % p) % p == (a + b) % p
    ensures (a % p + b) % p == (a + b) % p
    ensures (a + b % p) % p == (a + b) % p
  {
    CongSelfMod(a, p);
    CongSelfMod(b, p);
    CongMod(a, a, p);
    CongMod(b, b, p);
    CongAdd(a % p, a, b % p, b, p);
    CongMod(a % p + b % p, a + b, p);
    CongAdd(a % p, a, b, b, p);
    CongMod(a % p + b, a + b, p);
    CongAdd(a, a, b % p, b, p);
    CongMod(a + b % p, a + b, p);
  }

  lemma ModMul(a: int, b: int, p: int)
    requires p > 0
    ensures ((a % p) * b) % p == (a * b) % p
    ensures (a * (b % p)) % p == (a * b) % p
  {
    CongSelfMod(a, p);
    CongSelfMod(b, p);
    CongMod(a, a, p);
    CongMod(b, b, p);
    CongMul(a % p, a, b, b, p);
    CongMod((a % p) * b, a * b, p);
    CongMul(a, a, b % p, b, p);
    CongMod(a * (b % p), a * b, p);
  }

  lemma SmallMod(a: int, p: int)
    requires 0 <= a < p
    ensures a % p == a
  {}

  lemma FpClosed(p: int)
    requires p > 1
    ensures Closed(Fp(p))
  {}

  lemma FpAddAssoc(a: int, b: int, c: int, p: int)
    requires p > 1
    ensures AddAssocAt(Fp(p), a, b, c)
  {
    ModAdd(a + b, c, p);
    ModAdd(a, b + c, p);
  }

  lemma FpMulAssoc(a: int, b: int, c: int, p: int)
    requires p > 1
    ensures MulAssocAt(Fp(p), a, b, c)
  {
    TripleProduct(a, b, c);
    ModMulFirst(a * b, c, p);
    ModMulSecond(a, b * c, p);
  }

  lemma TripleProduct(a: int, b: int, c: int)
    ensures (a * b) * c == a * (b * c)
  {}

  lemma ModMulFirst(x: int, c: int, p: int)
    requires p > 1
    ensures FpMod(FpMod(x, p) * c, p) == FpMod(x * c, p)
  {
    ModMul(x, c, p);
  }

  lemma ModMulSecond(a: int, y: int, p: int)
    requires p > 1
    ensures FpMod(a * FpMod(y, p), p) == FpMod(a * y, p)
  {
    ModMul(a, y, p);
  }

  lemma FpDistr(a: int, b: int, c: int, p: int)
    requires p > 1
    ensures DistrAt(Fp(p), a, b, c)
  {
    ModMul(a, b + c, p);
    ModAdd(a * b, a * c, p);
    assert a * (b + c) == a * b + a * c;
  }

  lemma FpNeg(a: int, p: int)
    requires p > 1
    ensures Fp(p).add(a, Fp(p).neg(a)) == 0
  {
    ModAdd(a, -a, p);
  }

  lemma FpLaws(p: int)
    requires p > 1
    ensures Laws(Fp(p))
  {
    var K := Fp(p);
    forall a, b ensures AddCommAt(K, a, b) && MulCommAt(K, a, b) { assert a * b == b * a; }
    forall a, b, c ensures AddAssocAt(K, a, b, c) && MulAssocAt(K, a, b, c) {
      FpAddAssoc(a, b, c, p);
      FpMulAssoc(a, b, c, p);
    }
    forall a, b, c ensures DistrAt(K, a, b, c) { FpDistr(a, b, c, p); }
    forall a | K.has(a) ensures K.add(K.zero, a) == a && K.mul(K.one, a) == a && K.add(a, K.neg(a)) == K.zero {
      SmallMod(a, p);
      FpNeg(a, p);
    }
  }

  /** Every residue but zero is inverted. */
  lemma FpInverts(a: int, p: int)
    requires Prime(p) && 0 <= a < p
    ensures Fp(p).inverse(a).Some? <==> a != 0
  {
    if a != 0 {
      forall d | d > 1 && Div(d, a) && Div(d, p) ensures false {
        assert d == p;
        DivBound(p, a);
      }
      var s, t := CoprimeBezout(a, p);
      var x := s % p;
      ModMul(a, s, p);
      CongMod(a * s, 1, p);
      assert a * s - 1 == (-t) * p by { assert (-t) * p == -(t * p); assert s * a == a * s; }
      DivIntro(p, -t, a * s - 1);
      SmallMod(1, p);
      assert FpMod(a * x, p) == 1;
    } else {
      assert forall x :: 0 <= x < p ==> FpMod(0 * x, p) == 0;
    }
  }

  /** Arithmetic modulo any p > 1 is a ring. */
  lemma FpIsRing(p: int)
    requires p > 1
    ensures IsRing(Fp(p))
  {
    hide Closed, Laws, InverseSound, FpMod, ModInverse;
    FpClosed(p);
    FpLaws(p);
    FpInverseSound(p);
  }

  lemma OneIsInverted(p: int)
    requires p > 1
    ensures ModInverse(1, p).Some?
  {
    assert FpMod(1 * 1, p) == 1;
  }

  lemma FpInverseSound(p: int)
    requires p > 1
    ensures InverseSound(Fp(p))
  {
    hide FpMod, ModInverse;
    OneIsInverted(p);
  }

  lemma FpIsField(p: int)
    requires Prime(p)
    ensures IsRing(Fp(p)) && IsField(Fp(p)) && IsDomain(Fp(p))
  {
    hide Closed, Laws, InverseSound, FpMod, ModInverse;
    var K := Fp(p);
    FpIsRing(p);
    forall a | K.has(a) ensures K.inverse(a).Some? <==> a != K.zero { FpInverts(a, p); }
    FieldIsDomain(K);
  }
}
