/** Powers of x_v - a and the expansion of a sparse polynomial around x_v = a. */
module Taylor {
  import opened MPolys
  import opened Powers
  import opened MPolyOps
  import opened Interpolation

  // ----- multiplying by (x_v - a)^k -----

  function Zero(n: nat): (m: Monomial)
    ensures |m| == n
  {
    seq(n, _ => 0)
  }

  lemma {:induction false} ZeroValue(n: nat, pt: seq<int>)
    requires n <= |pt|
    ensures MonoVal(Zero(n), pt) == 1
  {
    if n > 0 {
      assert Zero(n)[1..] == Zero(n - 1);
      ZeroValue(n - 1, pt[1..]);
    }
  }

  lemma UnitValue(n: nat, v: nat, pt: seq<int>)
    requires v < n == |pt|
    ensures MonoVal(Zero(n)[v := 1], pt) == pt[v]
  {
    MonoValUpdate(Zero(n), pt, v, 1);
    ZeroValue(n, pt);
    assert IPow(pt[v], 0) == 1 && IPow(pt[v], 1) == pt[v];
  }

  lemma ShiftValue(n: nat, v: nat, a: int, shift: MPoly, pt: seq<int>)
    requires v < n == |pt|
    requires shift == if a == 0 then map[Zero(n)[v := 1] := 1] else map[Zero(n)[v := 1] := 1, Zero(n) := -a]
    ensures EvalAt(shift, pt) == pt[v] - a
  {
    var mx := Zero(n)[v := 1];
    assert mx[v] != Zero(n)[v];
    UnitValue(n, v, pt);
    ZeroValue(n, pt);
    LinSplit(shift, mx, Weight(pt));
    LinSplit(shift - {mx}, Zero(n), Weight(pt));
    assert shift - {mx} - {Zero(n)} == map[];
  }

  method MulByShiftPower(p: MPoly, v: nat, a: int, k: nat, n: nat) returns (acc: MPoly)
    requires IsMPoly(p, n) && v < n
    ensures IsMPoly(acc, n)
    ensures forall pt: seq<int> :: |pt| == n ==> EvalAt(acc, pt) == EvalAt(p, pt) * IPow(pt[v] - a, k)
  {
    hide EvalAt, IsProduct;
    var mx := Zero(n)[v := 1];
    var shift: MPoly := map[mx := 1];
    if a != 0 { shift := shift[Zero(n) := -a]; }
    assert shift == if a == 0 then map[mx := 1] else map[mx := 1, Zero(n) := -a];
    assert mx[v] != Zero(n)[v];
    acc := p;
    for i := 0 to k
      invariant IsMPoly(acc, n)
      invariant forall pt: seq<int> :: |pt| == n ==> EvalAt(acc, pt) == EvalAt(p, pt) * IPow(pt[v] - a, i)
    {
      ghost var before := acc;
      acc := MPolyOps.Mul(acc, shift, n);
      forall pt: seq<int> | |pt| == n ensures EvalAt(acc, pt) == EvalAt(p, pt) * IPow(pt[v] - a, i + 1) {
        ShiftValue(n, v, a, shift, pt);
        PowerStep(EvalAt(p, pt), pt[v] - a, i);
      }
    }
  }

  lemma PowerStep(e: int, x: int, i: nat)
    ensures (e * IPow(x, i)) * x == e * IPow(x, i + 1)
  {
    var w := IPow(x, i);
    assert (e * w) * x == e * (x * w);
  }

  // ----- the binomial theorem -----

  /** The running update of the binomial coefficient: the division by j + 1 is always exact. */
  lemma {:induction false} BinomialNext(e: nat, j: nat)
    ensures Binomial(e, j) * (e - j) == Binomial(e, j + 1) * (j + 1)
  {
    if e > 0 {
      BinomialNext(e - 1, j);
      if j > 0 {
        BinomialNext(e - 1, j - 1);
        PascalStep(Binomial(e - 1, j - 1), Binomial(e - 1, j), Binomial(e - 1, j + 1), e, j);
      }
    }
  }

  lemma PascalStep(x: int, y: int, z: int, e: int, j: int)
    requires x * (e - 1 - (j - 1)) == y * j && y * (e - 1 - j) == z * (j + 1)
    ensures (x + y) * (e - j) == (y + z) * (j + 1)
  {}

  /** sum over i < j of C(e, i) a^(e-i) y^i */
  ghost function Expansion(e: nat, a: int, y: int, j: nat): int
    requires j <= e + 1
  {
    if j == 0 then 0 else Expansion(e, a, y, j - 1) + Binomial(e, j - 1) * IPow(a, e - (j - 1)) * IPow(y, j - 1)
  }

  // one more power: y * (first j terms) + a * (first j + 1 terms)
  lemma {:induction false} ExpansionUp(e: nat, a: int, y: int, j: nat)
    requires j <= e + 1
    ensures Expansion(e + 1, a, y, j + 1)
         == y * Expansion(e, a, y, j) + a * if j <= e then Expansion(e, a, y, j + 1) else Expansion(e, a, y, j)
  {
    var E := Expansion(e, a, y, j);
    if j == 0 {
      assert Expansion(e, a, y, 0) == 0 && Expansion(e + 1, a, y, 0) == 0;
      assert Binomial(e, 0) == 1 && IPow(y, 0) == 1;
      TimesZero(y);
      assert Expansion(e + 1, a, y, 1) == IPow(a, e + 1);
      assert Expansion(e, a, y, 1) == IPow(a, e);
    } else {
      ExpansionUp(e, a, y, j - 1);
      var c := Binomial(e, j - 1);
      var d := Binomial(e, j);
      var (u, w) := (IPow(a, e + 1 - j), IPow(y, j - 1));
      assert Binomial(e + 1, j) == c + d;
      assert IPow(y, j) == y * w;
      assert Expansion(e + 1, a, y, j + 1) == Expansion(e + 1, a, y, j) + (c + d) * u * (y * w);
      assert E == Expansion(e, a, y, j - 1) + c * u * w;
      UpStep(Expansion(e, a, y, j - 1), E, a, y, c, d, u, w);
      if j <= e {
        assert u == a * IPow(a, e - j);
        assert Expansion(e, a, y, j + 1) == E + d * IPow(a, e - j) * (y * w);
        UpNext(E, a, d, IPow(a, e - j), y * w);
      } else {
        BinomialBeyond(e, j);
        NoTerm(u, y * w);
      }
    }
  }

  lemma NoTerm(u: int, z: int)
    ensures 0 * u * z == 0
  {}

  lemma UpStep(D: int, E: int, a: int, y: int, c: int, d: int, u: int, w: int)
    requires E == D + c * u * w
    ensures y * D + a * E + (c + d) * u * (y * w) == y * E + a * E + d * u * (y * w)
  {
    assert (c + d) * u * (y * w) == c * u * (y * w) + d * u * (y * w) by { SpreadProduct(c, d, u, y * w); }
    assert y * (c * u * w) == c * u * (y * w) by { MoveFactor(c * u, y, w); }
    assert y * E == y * D + y * (c * u * w);
  }

  lemma SpreadProduct(c: int, d: int, u: int, z: int)
    ensures (c + d) * u * z == c * u * z + d * u * z
  {}

  lemma MoveFactor(p: int, y: int, w: int)
    ensures y * (p * w) == p * (y * w)
  {}

  lemma UpNext(E: int, a: int, d: int, t: int, z: int)
    ensures a * (E + d * t * z) == a * E + d * (a * t) * z
  {
    assert a * (d * t * z) == d * (a * t) * z by { ThreeFactors(a, d, t, z); }
  }

  lemma ThreeFactors(a: int, d: int, t: int, z: int)
    ensures a * (d * t * z) == d * (a * t) * z
  {
    assert a * (d * t) == d * (a * t);
    assert a * ((d * t) * z) == (a * (d * t)) * z;
  }

  lemma {:induction false} BinomialTheorem(e: nat, a: int, y: int)
    ensures Expansion(e, a, y, e + 1) == IPow(y + a, e)
  {
    if e == 0 {
      assert Expansion(0, a, y, 0) == 0;
      assert Binomial(0, 0) == 1 && IPow(a, 0) == 1 && IPow(y, 0) == 1;
    } else {
      BinomialTheorem(e - 1, a, y);
      ExpansionUp(e - 1, a, y, e);
      SumTimes(y, a, IPow(y + a, e - 1));
    }
  }

  // ----- substituting x_v + a for x_v -----

  /** s is p with x_v replaced by x_v + a. */
  ghost predicate IsShift(p: MPoly, v: nat, a: int, n: nat, s: MPoly)
    requires IsMPoly(p, n) && v < n
  {
    && IsMPoly(s, n)
    && (forall pt: seq<int> :: |pt| == n ==> EvalAt(s, pt) == EvalAt(p, pt[v := pt[v] + a]))
    && forall d: nat :: DegreeWithin(p, v, d) ==> DegreeWithin(s, v, d)
  }

  ghost predicate DegreeWithin(p: MPoly, v: nat, d: nat) {
    forall m :: m in p ==> v < |m| && m[v] <= d
  }

  /** The coefficient of (x_v - a)^k. */
  ghost predicate IsTaylor(p: MPoly, v: nat, a: int, k: nat, n: nat, r: MPoly)
    requires IsMPoly(p, n) && v < n
  {
    exists s :: IsShift(p, v, a, n, s) && IsCoeffIn(s, v, k, n, r)
  }

  method TaylorCoeff(p: MPoly, v: nat, a: int, k: nat, n: nat) returns (r: MPoly)
    requires IsMPoly(p, n) && v < n
    ensures IsTaylor(p, v, a, k, n, r)
  {
    hide EvalAt, IsCoeffIn;
    var shifted := Shifted(p, v, a, n);
    r := CoeffIn(shifted, v, k, n);
  }

  method Shifted(p: MPoly, v: nat, a: int, n: nat) returns (shifted: MPoly)
    requires IsMPoly(p, n) && v < n
    ensures IsShift(p, v, a, n, shifted)
  {
    hide Lin, MonoVal, IPow, DegreeWithin;
    shifted := map[];
    var todo := p.Keys;
    assert p - todo == map[];
    forall pt: seq<int>, qt: seq<int> ensures Lin(shifted, Weight(pt)) == Lin(p - todo, Weight(qt)) {
      LinZero(map[], Weight(pt));
      LinZero(map[], Weight(qt));
    }
    EmptyDegree(v);
    while todo != {}
      invariant todo <= p.Keys && IsMPoly(shifted, n)
      invariant forall pt: seq<int> :: |pt| == n ==>
        Lin(shifted, Weight(pt)) == Lin(p - todo, Weight(pt[v := pt[v] + a]))
      invariant forall d: nat :: DegreeWithin(p, v, d) ==> DegreeWithin(shifted, v, d)
      decreases todo
    {
      var m :| m in todo;
      ghost var before := shifted;
      shifted := ShiftTerm(shifted, m, p[m], v, a, n);
      forall pt: seq<int> | |pt| == n
        ensures Lin(shifted, Weight(pt)) == Lin(p - (todo - {m}), Weight(pt[v := pt[v] + a]))
      {
        TakeTerm(p, todo, m, Weight(pt[v := pt[v] + a]));
      }
      forall d: nat | DegreeWithin(p, v, d) ensures DegreeWithin(shifted, v, d) { TermDegree(p, m, v, d); }
      todo := todo - {m};
    }
    assert p - {} == p;
  }

  lemma EmptyDegree(v: nat)
    ensures forall d: nat :: DegreeWithin(map[], v, d)
  {}

  lemma TermDegree(p: MPoly, m: Monomial, v: nat, d: nat)
    requires DegreeWithin(p, v, d) && m in p
    ensures v < |m| && m[v] <= d
  {}

  /** Adds c * m with x_v replaced by x_v + a. */
  method ShiftTerm(shifted: MPoly, m: Monomial, c: int, v: nat, a: int, n: nat) returns (r: MPoly)
    requires IsMPoly(shifted, n) && |m| == n && v < n
    ensures IsMPoly(r, n)
    ensures forall pt: seq<int> :: |pt| == n ==>
      Lin(r, Weight(pt)) == Lin(shifted, Weight(pt)) + c * MonoVal(m, pt[v := pt[v] + a])
    ensures forall d: nat :: DegreeWithin(shifted, v, d) && m[v] <= d ==> DegreeWithin(r, v, d)
  {
    hide Lin, MonoVal, IPow, DegreeWithin, Binomial, AddTerm, Expansion;
    var e := m[v];
    r := shifted;
    if e == 0 {
      AddTermCanonical(r, m, c, n);
      r := AddTerm(r, m, c);
      forall pt: seq<int> | |pt| == n
        ensures Lin(r, Weight(pt)) == Lin(shifted, Weight(pt)) + c * MonoVal(m, pt[v := pt[v] + a])
      {
        LinAddTerm(shifted, m, c, Weight(pt));
        MonoValElsewhere(m, pt, v, pt[v] + a);
      }
      forall d: nat | DegreeWithin(shifted, v, d) ensures DegreeWithin(r, v, d) { AddDegree(shifted, m, c, v, d); }
      return;
    }
    var binom := 1;
    assert binom == Binomial(e, 0) by { FirstBinomial(e); }
    forall pt: seq<int> | |pt| == n ensures c * (Expansion(e, a, pt[v], 0) * MonoVal(m[v := 0], pt)) == 0 {
      NothingYet(e, a, pt[v], c, MonoVal(m[v := 0], pt));
    }
    var j: nat := 0;
    while j <= e
      invariant j <= e + 1 && IsMPoly(r, n)
      invariant j <= e ==> binom == Binomial(e, j)
      invariant forall pt: seq<int> :: |pt| == n ==>
        Lin(r, Weight(pt)) == Lin(shifted, Weight(pt)) + c * (Expansion(e, a, pt[v], j) * MonoVal(m[v := 0], pt))
      invariant forall d: nat :: DegreeWithin(shifted, v, d) && m[v] <= d ==> DegreeWithin(r, v, d)
    {
      var term := c * binom;
      if e - j > 0 { term := term * IPow(a, e - j); }
      assert term == c * Binomial(e, j) * IPow(a, e - j) by { LastPower(a, c * Binomial(e, j)); }
      ghost var before := r;
      AddTermCanonical(r, m[v := j], term, n);
      r := AddTerm(r, m[v := j], term);
      forall pt: seq<int> | |pt| == n
        ensures Lin(r, Weight(pt))
             == Lin(shifted, Weight(pt)) + c * (Expansion(e, a, pt[v], j + 1) * MonoVal(m[v := 0], pt))
      {
        ExpandOne(before, m, c, v, a, j, pt);
      }
      forall d: nat | DegreeWithin(shifted, v, d) && m[v] <= d ensures DegreeWithin(r, v, d) {
        AddDegree(before, m[v := j], term, v, d);
      }
      if j < e {
        binom := binom * (e - j) / (j + 1);
        NextExact(e, j);
      }
      j := j + 1;
    }
    forall pt: seq<int> | |pt| == n
      ensures Lin(r, Weight(pt)) == Lin(shifted, Weight(pt)) + c * MonoVal(m, pt[v := pt[v] + a])
    {
      Expanded(m, v, a, pt);
    }
  }

  lemma FirstBinomial(e: nat)
    ensures Binomial(e, 0) == 1
  {}

  lemma LastPower(a: int, c: int)
    ensures IPow(a, 0) == 1 && c * IPow(a, 0) == c
  {}

  lemma NothingYet(e: nat, a: int, y: int, c: int, w: int)
    ensures c * (Expansion(e, a, y, 0) * w) == 0
  {
    assert Expansion(e, a, y, 0) == 0;
  }

  lemma AddDegree(p: MPoly, m: Monomial, c: int, v: nat, d: nat)
    requires DegreeWithin(p, v, d) && v < |m| && m[v] <= d
    ensures DegreeWithin(AddTerm(p, m, c), v, d)
  {}

  lemma NextExact(e: nat, j: nat)
    ensures Binomial(e, j) * (e - j) / (j + 1) == Binomial(e, j + 1)
  {
    BinomialNext(e, j);
    ExactQuotient(Binomial(e, j + 1), j + 1);
  }

  lemma ExactQuotient(x: int, y: int)
    requires y > 0
    ensures x * y / y == x
  {
    var q := x * y / y;
    assert 0 <= x * y - q * y < y;
    NoMultipleBetween(x - q, y);
  }

  lemma NoMultipleBetween(k: int, y: int)
    requires 0 <= k * y < y
    ensures k == 0
  {
    assert k > 0 ==> (k - 1) * y >= 0 && k * y == (k - 1) * y + y;
  }

  // the value of the term with exponent j
  lemma ExpandOne(r: MPoly, m: Monomial, c: int, v: nat, a: int, j: nat, pt: seq<int>)
    requires |m| == |pt| && v < |m| && j <= m[v]
    ensures Lin(AddTerm(r, m[v := j], c * Binomial(m[v], j) * IPow(a, m[v] - j)), Weight(pt))
          + c * (Expansion(m[v], a, pt[v], j) * MonoVal(m[v := 0], pt))
         == Lin(r, Weight(pt)) + c * (Expansion(m[v], a, pt[v], j + 1) * MonoVal(m[v := 0], pt))
  {
    var e := m[v];
    LinAddTerm(r, m[v := j], c * Binomial(e, j) * IPow(a, e - j), Weight(pt));
    MonoValClear(m[v := j], pt, v);
    assert m[v := j][v := 0] == m[v := 0];
    var (E, b, u) := (Expansion(e, a, pt[v], j), Binomial(e, j), IPow(a, e - j));
    var (y, w) := (IPow(pt[v], j), MonoVal(m[v := 0], pt));
    assert Expansion(e, a, pt[v], j + 1) == E + b * u * y;
    ExpandStep(c, E, b, u, y, w);
  }

  lemma ExpandStep(c: int, E: int, b: int, u: int, y: int, w: int)
    ensures c * b * u * (y * w) + c * (E * w) == c * ((E + b * u * y) * w)
  {
    assert (E + b * u * y) * w == E * w + b * u * y * w;
    assert b * u * y * w == (b * u) * (y * w);
    assert c * ((b * u) * (y * w)) == (c * (b * u)) * (y * w);
    assert c * (b * u) == c * b * u;
    assert c * (E * w + b * u * y * w) == c * (E * w) + c * (b * u * y * w);
  }

  lemma Expanded(m: Monomial, v: nat, a: int, pt: seq<int>)
    requires |m| == |pt| && v < |m|
    ensures Expansion(m[v], a, pt[v], m[v] + 1) * MonoVal(m[v := 0], pt) == MonoVal(m, pt[v := pt[v] + a])
  {
    BinomialTheorem(m[v], a, pt[v]);
    MonoValClear(m, pt[v := pt[v] + a], v);
    MonoValElsewhere(m[v := 0], pt, v, pt[v] + a);
  }

  // ----- the round trip -----

  /** The terms of x_v-degree k, with y for x_v. */
  function Part(v: nat, k: nat, pt: seq<int>): Monomial -> int {
    m => if |m| == |pt| && v < |m| && m[v] == k then MonoVal(m, pt) else 0
  }

  function PartBelow(v: nat, k: nat, pt: seq<int>): Monomial -> int {
    m => if |m| == |pt| && v < |m| && m[v] < k then MonoVal(m, pt) else 0
  }

  lemma CoeffRemove(s: MPoly, v: nat, k: nat, n: nat, c: MPoly, m: Monomial)
    requires v < n && IsMPoly(s, n) && IsCoeffIn(s, v, k, n, c) && m in s
    ensures m[v] != k ==> IsCoeffIn(s - {m}, v, k, n, c)
    ensures m[v] == k ==> m[v := 0] in c && c[m[v := 0]] == s[m] && IsCoeffIn(s - {m}, v, k, n, c - {m[v := 0]})
  {
    if m[v] == k {
      assert m[v := 0][v := k] == m;
      assert CoefOf(c, m[v := 0]) == s[m];
      forall l: Monomial | |l| == n && l[v] == 0
        ensures CoefOf(c - {m[v := 0]}, l) == CoefOf(s - {m}, l[v := k])
      {
        assert CoefOf(c, l) == CoefOf(s, l[v := k]);
        assert l == l[v := k][v := 0];
      }
    } else {
      forall l: Monomial | |l| == n && l[v] == 0 ensures CoefOf(c, l) == CoefOf(s - {m}, l[v := k]) {
        assert CoefOf(c, l) == CoefOf(s, l[v := k]);
        assert l[v := k][v] == k;
      }
    }
  }

  lemma RemoveKeeps(s: MPoly, m: Monomial, n: nat)
    requires IsMPoly(s, n) && m in s
    ensures |m| == n && IsMPoly(s - {m}, n)
  {}

  lemma {:induction false} CoeffValue(s: MPoly, v: nat, k: nat, n: nat, c: MPoly, pt: seq<int>)
    requires v < n == |pt| && IsMPoly(s, n) && IsCoeffIn(s, v, k, n, c)
    ensures EvalAt(c, pt) * IPow(pt[v], k) == Lin(s, Part(v, k, pt))
    decreases |s|
  {
    if s == map[] {
      forall m | m in c ensures false { CoeffOfNothing(v, k, n, c, m); }
      LinZero(c, Weight(pt));
      LinZero(s, Part(v, k, pt));
    } else {
      var m :| m in s;
      Smaller(s, m);
      RemoveKeeps(s, m, n);
      CoeffRemove(s, v, k, n, c, m);
      if m[v] == k {
        CoeffValue(s - {m}, v, k, n, c - {m[v := 0]}, pt);
        CoeffHit(s, v, k, c, m, pt);
      } else {
        CoeffValue(s - {m}, v, k, n, c, pt);
        CoeffMiss(s, v, k, m, pt);
      }
    }
  }

  lemma CoeffHit(s: MPoly, v: nat, k: nat, c: MPoly, m: Monomial, pt: seq<int>)
    requires v < |m| == |pt| && m in s && m[v] == k && m[v := 0] in c && c[m[v := 0]] == s[m]
    requires EvalAt(c - {m[v := 0]}, pt) * IPow(pt[v], k) == Lin(s - {m}, Part(v, k, pt))
    ensures EvalAt(c, pt) * IPow(pt[v], k) == Lin(s, Part(v, k, pt))
  {
    LinRemove(s, Part(v, k, pt), m);
    CoeffTerm(c, m, v, pt);
  }

  lemma CoeffMiss(s: MPoly, v: nat, k: nat, m: Monomial, pt: seq<int>)
    requires v < |m| == |pt| && m in s && m[v] != k
    ensures Lin(s, Part(v, k, pt)) == Lin(s - {m}, Part(v, k, pt))
  {
    LinRemove(s, Part(v, k, pt), m);
    TimesZero(s[m]);
  }

  lemma CoeffTerm(c: MPoly, m: Monomial, v: nat, pt: seq<int>)
    requires v < |m| == |pt| && m[v := 0] in c
    ensures EvalAt(c, pt) * IPow(pt[v], m[v])
         == c[m[v := 0]] * MonoVal(m, pt) + EvalAt(c - {m[v := 0]}, pt) * IPow(pt[v], m[v])
  {
    LinRemove(c, Weight(pt), m[v := 0]);
    MonoValClear(m, pt, v);
    ValueOne(c[m[v := 0]], MonoVal(m[v := 0], pt), IPow(pt[v], m[v]), EvalAt(c - {m[v := 0]}, pt));
  }

  lemma CoeffOfNothing(v: nat, k: nat, n: nat, c: MPoly, m: Monomial)
    requires v < n && IsCoeffIn(map[], v, k, n, c)
    ensures m !in c
  {
    assert m in c ==> |m| == n && m[v] == 0 && CoefOf(c, m) == CoefOf(map[], m[v := k]);
  }

  lemma ValueOne(c: int, w: int, y: int, e: int)
    ensures (c * w + e) * y == c * (y * w) + e * y
  {
    assert (c * w) * y == c * (y * w);
  }

  /** sum over k < K of (coefficient k at pt) * y^k */
  ghost function PowerSum(cs: seq<MPoly>, pt: seq<int>, y: int, K: nat): int
    requires K <= |cs|
  {
    if K == 0 then 0 else PowerSum(cs, pt, y, K - 1) + EvalAt(cs[K - 1], pt) * IPow(y, K - 1)
  }

  lemma {:induction false} PowerSumIsPart(s: MPoly, v: nat, n: nat, cs: seq<MPoly>, pt: seq<int>, K: nat)
    requires v < n == |pt| && IsMPoly(s, n) && K <= |cs|
    requires forall k :: 0 <= k < |cs| ==> IsCoeffIn(s, v, k, n, cs[k])
    ensures PowerSum(cs, pt, pt[v], K) == Lin(s, PartBelow(v, K, pt))
  {
    if K == 0 {
      LinZero(s, PartBelow(v, 0, pt));
    } else {
      PowerSumIsPart(s, v, n, cs, pt, K - 1);
      CoeffValue(s, v, K - 1, n, cs[K - 1], pt);
      LinCombine(s, PartBelow(v, K - 1, pt), 1, Part(v, K - 1, pt), PartBelow(v, K, pt));
    }
  }

  // the coefficients do not mention x_v
  lemma CoeffElsewhere(s: MPoly, v: nat, k: nat, n: nat, c: MPoly, pt: seq<int>, y: int)
    requires v < n == |pt| && IsMPoly(s, n) && IsCoeffIn(s, v, k, n, c)
    ensures EvalAt(c, pt[v := y]) == EvalAt(c, pt)
  {
    forall m | m in c ensures Weight(pt[v := y])(m) == Weight(pt)(m) { MonoValElsewhere(m, pt, v, y); }
    LinCong(c, Weight(pt[v := y]), Weight(pt));
  }

  lemma {:induction false} PowerSumElsewhere(s: MPoly, v: nat, n: nat, cs: seq<MPoly>, pt: seq<int>, y: int, K: nat)
    requires v < n == |pt| && IsMPoly(s, n) && K <= |cs|
    requires forall k :: 0 <= k < |cs| ==> IsCoeffIn(s, v, k, n, cs[k])
    ensures PowerSum(cs, pt[v := y], y, K) == PowerSum(cs, pt, y, K)
  {
    if K > 0 {
      PowerSumElsewhere(s, v, n, cs, pt, y, K - 1);
      CoeffElsewhere(s, v, K - 1, n, cs[K - 1], pt, y);
    }
  }

  /** A polynomial is the sum of its coefficients in x_v times the powers of x_v. */
  lemma SumOfCoefficients(s: MPoly, v: nat, n: nat, d: nat, cs: seq<MPoly>, pt: seq<int>, y: int)
    requires v < n == |pt| && IsMPoly(s, n) && |cs| == d + 1 && DegreeWithin(s, v, d)
    requires forall k :: 0 <= k < |cs| ==> IsCoeffIn(s, v, k, n, cs[k])
    ensures PowerSum(cs, pt, y, d + 1) == EvalAt(s, pt[v := y])
  {
    hide IsCoeffIn, PowerSum;
    PowerSumIsPart(s, v, n, cs, pt[v := y], d + 1);
    PowerSumElsewhere(s, v, n, cs, pt, y, d + 1);
    LinCong(s, PartBelow(v, d + 1, pt[v := y]), Weight(pt[v := y]));
  }

  lemma ShiftUnique(p: MPoly, v: nat, a: int, n: nat, s: MPoly, t: MPoly)
    requires IsMPoly(p, n) && v < n && IsShift(p, v, a, n, s) && IsShift(p, v, a, n, t)
    ensures s == t
  {
    hide EvalAt;
    SameEvalEqual(s, t, n);
  }

  /** The Taylor expansion, at every point. */
  lemma TaylorExpansion(p: MPoly, v: nat, a: int, n: nat, d: nat, ts: seq<MPoly>, pt: seq<int>)
    requires IsMPoly(p, n) && v < n == |pt| && DegreeWithin(p, v, d) && |ts| == d + 1
    requires forall k :: 0 <= k < |ts| ==> IsTaylor(p, v, a, k, n, ts[k])
    ensures PowerSum(ts, pt, pt[v] - a, d + 1) == EvalAt(p, pt)
  {
    hide IsCoeffIn, PowerSum, EvalAt, IsShift, IsTaylor;
    var s := CommonShift(p, v, a, n, ts);
    ShiftDegree(p, v, a, n, s, d);
    SumOfCoefficients(s, v, n, d, ts, pt, pt[v] - a);
    ShiftBack(p, v, a, n, s, pt);
  }

  lemma ShiftDegree(p: MPoly, v: nat, a: int, n: nat, s: MPoly, d: nat)
    requires IsMPoly(p, n) && v < n && IsShift(p, v, a, n, s) && DegreeWithin(p, v, d)
    ensures IsMPoly(s, n) && DegreeWithin(s, v, d)
  {}

  lemma ShiftBack(p: MPoly, v: nat, a: int, n: nat, s: MPoly, pt: seq<int>)
    requires IsMPoly(p, n) && v < n == |pt| && IsShift(p, v, a, n, s)
    ensures EvalAt(s, pt[v := pt[v] - a]) == EvalAt(p, pt)
  {
    hide EvalAt, DegreeWithin, IsMPoly, IsShift;
    var q := pt[v := pt[v] - a];
    ShiftAt(p, v, a, n, s, q);
    assert q[v := q[v] + a] == pt;
  }

  lemma ShiftAt(p: MPoly, v: nat, a: int, n: nat, s: MPoly, pt: seq<int>)
    requires IsMPoly(p, n) && v < n == |pt| && IsShift(p, v, a, n, s)
    ensures EvalAt(s, pt) == EvalAt(p, pt[v := pt[v] + a])
  {
    hide EvalAt, DegreeWithin, IsMPoly;
  }

  // all coefficients are those of one and the same shifted polynomial
  lemma CommonShift(p: MPoly, v: nat, a: int, n: nat, ts: seq<MPoly>) returns (s: MPoly)
    requires IsMPoly(p, n) && v < n && ts != []
    requires forall k :: 0 <= k < |ts| ==> IsTaylor(p, v, a, k, n, ts[k])
    ensures IsMPoly(s, n) && IsShift(p, v, a, n, s) && forall k :: 0 <= k < |ts| ==> IsCoeffIn(s, v, k, n, ts[k])
  {
    hide IsCoeffIn, EvalAt;
    assert IsTaylor(p, v, a, 0, n, ts[0]);
    s :| IsShift(p, v, a, n, s) && IsCoeffIn(s, v, 0, n, ts[0]);
    forall k | 0 <= k < |ts| ensures IsCoeffIn(s, v, k, n, ts[k]) {
      var t :| IsShift(p, v, a, n, t) && IsCoeffIn(t, v, k, n, ts[k]);
      ShiftUnique(p, v, a, n, s, t);
    }
  }

  /** Rebuilding: whatever canonical polynomial has the value of the sum of the Taylor coefficients times
      the powers of x_v - a is the polynomial that was expanded. */
  lemma TaylorRoundTrip(p: MPoly, v: nat, a: int, n: nat, d: nat, ts: seq<MPoly>, r: MPoly)
    requires IsMPoly(p, n) && v < n && DegreeWithin(p, v, d) && |ts| == d + 1
    requires forall k :: 0 <= k < |ts| ==> IsTaylor(p, v, a, k, n, ts[k])
    requires IsMPoly(r, n)
    requires forall pt: seq<int> :: |pt| == n ==> EvalAt(r, pt) == PowerSum(ts, pt, pt[v] - a, d + 1)
    ensures r == p
  {
    hide IsTaylor, PowerSum, EvalAt;
    forall pt: seq<int> | |pt| == n ensures EvalAt(r, pt) == EvalAt(p, pt) {
      TaylorExpansion(p, v, a, n, d, ts, pt);
    }
    SameEvalEqual(r, p, n);
  }

  /** Expands p around a and rebuilds it, order by order: the result is p. */
  method Rebuild(p: MPoly, v: nat, a: int, n: nat) returns (r: MPoly)
    requires IsMPoly(p, n) && v < n
    ensures r == p
  {
    hide IsTaylor, PowerSum, EvalAt, IsMPoly;
    var d := DegreeIn(p, v, n);
    ghost var ts: seq<MPoly> := [];
    r := map[];
    EmptyIsMPoly(n);
    for k := 0 to d + 1
      invariant IsMPoly(r, n) && |ts| == k && forall j :: 0 <= j < k ==> IsTaylor(p, v, a, j, n, ts[j])
      invariant forall pt: seq<int> :: |pt| == n ==> EvalAt(r, pt) == PowerSum(ts, pt, pt[v] - a, k)
    {
      var t := TaylorCoeff(p, v, a, k, n);
      TaylorIsMPoly(p, v, a, k, n, t);
      var term := MulByShiftPower(t, v, a, k, n);
      var next := Add(r, term, n);
      forall pt: seq<int> | |pt| == n ensures EvalAt(next, pt) == PowerSum(ts + [t], pt, pt[v] - a, k + 1) {
        PowerSumSnoc(ts, t, pt, pt[v] - a);
      }
      r, ts := next, ts + [t];
    }
    DegreeCovers(p, v, n, d);
    TaylorRoundTrip(p, v, a, n, d, ts, r);
  }

  lemma EmptyIsMPoly(n: nat)
    ensures IsMPoly(map[], n) && forall pt: seq<int> :: EvalAt(map[], pt) == 0 == PowerSum([], pt, 0, 0)
    ensures forall pt: seq<int>, y: int :: PowerSum([], pt, y, 0) == 0
  {}

  lemma TaylorIsMPoly(p: MPoly, v: nat, a: int, k: nat, n: nat, t: MPoly)
    requires IsMPoly(p, n) && v < n && IsTaylor(p, v, a, k, n, t)
    ensures IsMPoly(t, n)
  {}

  lemma DegreeCovers(p: MPoly, v: nat, n: nat, d: nat)
    requires IsMPoly(p, n) && v < n && forall m :: m in p ==> m[v] <= d
    ensures DegreeWithin(p, v, d)
  {}

  lemma {:induction false} PowerSumPrefix(cs: seq<MPoly>, ds: seq<MPoly>, pt: seq<int>, y: int, K: nat)
    requires K <= |cs| && K <= |ds| && forall j :: 0 <= j < K ==> cs[j] == ds[j]
    ensures PowerSum(cs, pt, y, K) == PowerSum(ds, pt, y, K)
  {
    hide EvalAt;
    if K > 0 { PowerSumPrefix(cs, ds, pt, y, K - 1); }
  }

  lemma PowerSumSnoc(ts: seq<MPoly>, t: MPoly, pt: seq<int>, y: int)
    ensures PowerSum(ts + [t], pt, y, |ts| + 1) == PowerSum(ts, pt, y, |ts|) + EvalAt(t, pt) * IPow(y, |ts|)
  {
    hide EvalAt;
    PowerSumPrefix(ts + [t], ts, pt, y, |ts|);
  }
}
