/** Exact division of sparse polynomials by reducing leading monomials in lexicographic order. */
module MPolyDivision {
  import opened Rings
  import opened MPolys
  import opened MPolyOps
  import opened Powers
  import Numbers

  // ----- the order of the map's keys -----

  predicate Less(a: Monomial, b: Monomial)
    requires |a| == |b|
  {
    a != [] && (a[0] < b[0] || (a[0] == b[0] && Less(a[1..], b[1..])))
  }

  lemma {:induction false} LessTotal(a: Monomial, b: Monomial)
    requires |a| == |b|
    ensures a == b || Less(a, b) || Less(b, a)
    ensures !(Less(a, b) && Less(b, a)) && !Less(a, a)
  {
    if a != [] {
      LessTotal(a[1..], b[1..]);
      LessTotal(a[1..], a[1..]);
      if a[0] == b[0] && a[1..] == b[1..] { assert a == [a[0]] + a[1..] && b == [b[0]] + b[1..]; }
    }
  }

  lemma {:induction false} LessTrans(a: Monomial, b: Monomial, c: Monomial)
    requires |a| == |b| == |c| && Less(a, b) && Less(b, c)
    ensures Less(a, c)
  {
    if a[0] == b[0] == c[0] { LessTrans(a[1..], b[1..], c[1..]); }
  }

  lemma {:induction false} LessAdd(s: Monomial, a: Monomial, b: Monomial)
    requires |s| == |a| == |b|
    ensures Less(a, b) <==> Less(MonoAdd(s, a), MonoAdd(s, b))
  {
    if a != [] {
      LessAdd(s[1..], a[1..], b[1..]);
      assert MonoAdd(s, a)[1..] == MonoAdd(s[1..], a[1..]);
      assert MonoAdd(s, b)[1..] == MonoAdd(s[1..], b[1..]);
    }
  }

  lemma AddCommutes(a: Monomial, b: Monomial)
    requires |a| == |b|
    ensures MonoAdd(a, b) == MonoAdd(b, a)
  {}

  ghost predicate IsLead(p: MPoly, m: Monomial, n: nat)
    requires IsMPoly(p, n)
  {
    m in p && forall k :: k in p && k != m ==> Less(k, m)
  }

  lemma {:induction false} LeadExists(p: MPoly, n: nat) returns (m: Monomial)
    requires IsMPoly(p, n) && p != map[]
    ensures IsLead(p, m, n)
    decreases |p|
  {
    m :| m in p;
    if p - {m} != map[] {
      Smaller(p, m);
      var k := LeadExists(p - {m}, n);
      LessTotal(k, m);
      if Less(m, k) {
        m := k;
      } else {
        forall l | l in p && l != m ensures Less(l, m) { if l != k { LessTrans(l, k, m); } }
      }
    } else {
      assert forall l :: l in p && l != m ==> l in p - {m};
    }
  }

  lemma LeadUnique(p: MPoly, a: Monomial, b: Monomial, n: nat)
    requires IsMPoly(p, n) && IsLead(p, a, n) && IsLead(p, b, n)
    ensures a == b
  {
    LessTotal(a, b);
  }

  /** The last key of the map. */
  method Lead(p: MPoly, n: nat) returns (m: Monomial)
    requires IsMPoly(p, n) && p != map[]
    ensures IsLead(p, m, n)
  {
    m :| m in p;
    var todo := p.Keys - {m};
    while todo != {}
      invariant todo <= p.Keys && m in p
      invariant forall k :: k in p && k !in todo && k != m ==> Less(k, m)
      decreases todo
    {
      var k :| k in todo;
      LessTotal(k, m);
      if Less(m, k) {
        forall l | l in p && l !in todo && l != m ensures Less(l, k) { LessTrans(l, m, k); }
        m := k;
      }
      todo := todo - {k};
    }
  }

  /** Subtracts exponents; nothing when one would become negative. */
  function MonoSub(a: Monomial, b: Monomial): (r: Option<Monomial>)
    requires |a| == |b|
    ensures r.Some? ==> |r.value| == |a| && MonoAdd(r.value, b) == a
    ensures r.None? ==> forall s: Monomial :: |s| == |a| ==> MonoAdd(s, b) != a
  {
    if forall i :: 0 <= i < |a| ==> a[i] >= b[i] then
      Some(seq(|a|, i requires 0 <= i < |a| => a[i] - b[i]))
    else
      None
  }

  // ----- coefficients of a product -----

  lemma RowCoefAbsent(s: Monomial, b: MPoly, k: Monomial, n: nat)
    requires IsMPoly(b, n) && |s| == n && forall m :: m in b ==> MonoAdd(s, m) != k
    ensures Lin(b, Moved(s, Indicator(k))) == 0
  {
    LinZero(b, Moved(s, Indicator(k)));
  }

  lemma RowCoef(s: Monomial, b: MPoly, m: Monomial, n: nat)
    requires IsMPoly(b, n) && |s| == n && m in b
    ensures Lin(b, Moved(s, Indicator(MonoAdd(s, m)))) == b[m]
  {
    var k := MonoAdd(s, m);
    LinRemove(b, Moved(s, Indicator(k)), m);
    forall l | l in b - {m} ensures MonoAdd(s, l) != k {
      LessTotal(l, m);
      LessAdd(s, l, m);
      LessAdd(s, m, l);
      LessTotal(k, k);
    }
    RowCoefAbsent(s, b - {m}, k, n);
  }

  lemma LessAddBoth(s: Monomial, d: Monomial, m: Monomial, l: Monomial)
    requires |s| == |d| == |m| == |l|
    requires (s == d || Less(s, d)) && (m == l || Less(m, l)) && !(s == d && m == l)
    ensures Less(MonoAdd(s, m), MonoAdd(d, l))
  {
    LessAdd(s, m, l);
    LessAdd(l, s, d);
    AddCommutes(l, s);
    AddCommutes(l, d);
    if s != d && m != l { LessTrans(MonoAdd(s, m), MonoAdd(s, l), MonoAdd(d, l)); }
  }

  /** Leading terms multiply. */
  lemma ProductLead(d: MPoly, b: MPoly, r: MPoly, ld: Monomial, lb: Monomial, n: nat)
    requires IsMPoly(d, n) && IsMPoly(b, n) && IsMPoly(r, n) && IsProduct(d, b, r)
    requires IsLead(d, ld, n) && IsLead(b, lb, n)
    ensures IsLead(r, MonoAdd(ld, lb), n) && r[MonoAdd(ld, lb)] == d[ld] * b[lb]
  {
    hide Lin, MonoAdd, Moved;
    var k := MonoAdd(ld, lb);
    ProductCoefLead(d, b, ld, lb, n);
    CoefIsLin(r, k);
    assert CoefOf(r, k) == d[ld] * b[lb];
    NonZero(d[ld], b[lb]);
    forall l | l in r && l != k ensures Less(l, k) {
      LessTotal(l, k);
      if Less(k, l) {
        ProductCoefAbove(d, b, ld, lb, l, n);
        CoefIsLin(r, l);
        assert false;
      }
    }
  }

  lemma ProductCoefLead(d: MPoly, b: MPoly, ld: Monomial, lb: Monomial, n: nat)
    requires IsMPoly(d, n) && IsMPoly(b, n) && IsLead(d, ld, n) && IsLead(b, lb, n)
    ensures Lin(d, Product(b, Indicator(MonoAdd(ld, lb)))) == d[ld] * b[lb]
  {
    hide Lin, MonoAdd, Moved;
    var k := MonoAdd(ld, lb);
    LinRemove(d, Product(b, Indicator(k)), ld);
    RowCoef(ld, b, lb, n);
    forall s | s in d - {ld} ensures Product(b, Indicator(k))(s) == 0 {
      forall m | m in b ensures MonoAdd(s, m) != k {
        LessAddBoth(s, ld, m, lb);
        LessTotal(k, k);
      }
      RowCoefAbsent(s, b, k, n);
    }
    LinZero(d - {ld}, Product(b, Indicator(k)));
  }

  lemma ProductCoefAbove(d: MPoly, b: MPoly, ld: Monomial, lb: Monomial, l: Monomial, n: nat)
    requires IsMPoly(d, n) && IsMPoly(b, n) && IsLead(d, ld, n) && IsLead(b, lb, n)
    requires |l| == n && Less(MonoAdd(ld, lb), l)
    ensures Lin(d, Product(b, Indicator(l))) == 0
  {
    hide Lin, MonoAdd, Moved;
    forall s | s in d ensures Product(b, Indicator(l))(s) == 0 {
      forall m | m in b ensures MonoAdd(s, m) != l {
        LessTotal(l, MonoAdd(ld, lb));
        if s != ld || m != lb { LessAddBoth(s, ld, m, lb); LessTotal(l, MonoAdd(s, m)); }
      }
      RowCoefAbsent(s, b, l, n);
    }
    LinZero(d, Product(b, Indicator(l)));
  }

  /** There is at most one quotient. */
  lemma QuotientIsUnique(a: MPoly, b: MPoly, q: MPoly, e: MPoly, n: nat)
    requires IsMPoly(a, n) && IsMPoly(b, n) && b != map[] && IsMPoly(q, n) && IsMPoly(e, n)
    requires IsProduct(q, b, a) && IsProduct(e, b, a)
    ensures q == e
  {
    hide Lin, Product, IsProduct;
    var d := Difference(e, q, n);
    assert Balanced(a, b, q, map[]) by { BalancedWhole(a, b, q); }
    Remaining(a, b, q, map[], e, d);
    if d != map[] {
      var ld := LeadExists(d, n);
      var lb := LeadExists(b, n);
      ProductLead(d, b, map[], ld, lb, n);
      assert false;
    }
    forall f ensures Lin(e, f) == Lin(q, f) { LinZero(d, f); }
    SameLin(q, e, n);
  }

  // ----- the numbering that makes lexicographic descent finite -----

  /** The exponent vector read as a base-B numeral. */
  function Numeral(m: Monomial, B: nat): int {
    if m == [] then 0 else m[0] * IPow(B, |m| - 1) + Numeral(m[1..], B)
  }

  lemma {:induction false} NumeralAdd(a: Monomial, b: Monomial, B: nat)
    requires |a| == |b|
    ensures Numeral(MonoAdd(a, b), B) == Numeral(a, B) + Numeral(b, B)
  {
    if a != [] {
      assert MonoAdd(a, b)[1..] == MonoAdd(a[1..], b[1..]);
      NumeralAdd(a[1..], b[1..], B);
      SumTimes(a[0], b[0], IPow(B, |a| - 1));
    }
  }

  lemma {:induction false} NumeralBound(m: Monomial, B: nat)
    requires forall i :: 0 <= i < |m| ==> m[i] < B
    ensures 0 <= Numeral(m, B) < IPow(B, |m|)
  {
    if m != [] {
      NumeralBound(m[1..], B);
      DigitBound(m[0], B, IPow(B, |m| - 1), Numeral(m[1..], B));
    }
  }

  lemma DigitBound(d: nat, B: nat, w: int, rest: int)
    requires d < B && 0 <= rest < w
    ensures 0 <= d * w + rest < B * w
  {
    assert d * w >= 0;
    assert (d + 1) * w <= B * w;
  }

  lemma {:induction false} NumeralAboveExponents(m: Monomial, B: nat, i: nat)
    requires i < |m| && B > 0
    ensures m[i] <= Numeral(m, B)
  {
    NumeralNonNegative(m[1..], B);
    IPowPositive(B, |m| - 1);
    AtLeast(m[0], IPow(B, |m| - 1));
    if i > 0 { NumeralAboveExponents(m[1..], B, i - 1); }
  }

  lemma AtLeast(d: nat, w: int)
    requires w > 0
    ensures d * w >= d
  {
    if d > 0 { assert d * (w - 1) >= 0; }
  }

  lemma {:induction false} NumeralNonNegative(m: Monomial, B: nat)
    requires B > 0
    ensures Numeral(m, B) >= 0
  {
    if m != [] {
      NumeralNonNegative(m[1..], B);
      IPowPositive(B, |m| - 1);
      AtLeast(m[0], IPow(B, |m| - 1));
    }
  }

  /** When the smaller exponents are digits, the numeral follows the lexicographic order. */
  lemma {:induction false} NumeralOrder(a: Monomial, b: Monomial, B: nat)
    requires |a| == |b| && Less(a, b) && B > 0 && forall i :: 0 <= i < |a| ==> a[i] < B
    ensures Numeral(a, B) < Numeral(b, B)
  {
    if a[0] == b[0] {
      NumeralOrder(a[1..], b[1..], B);
    } else {
      NumeralBound(a[1..], B);
      NumeralNonNegative(b[1..], B);
      LargerDigit(a[0], b[0], IPow(B, |a| - 1), Numeral(a[1..], B));
    }
  }

  lemma LargerDigit(x: nat, y: nat, w: int, rest: int)
    requires x < y && 0 <= rest < w
    ensures x * w + rest < y * w
  {
    assert (x + 1) * w <= y * w;
  }

  // every exponent of p is below B
  lemma {:induction false} ExponentBound(p: MPoly, n: nat) returns (B: nat)
    requires IsMPoly(p, n)
    ensures B > 0 && forall m, i :: m in p && 0 <= i < n ==> m[i] < B
    decreases |p|
  {
    if p == map[] {
      B := 1;
    } else {
      var m :| m in p;
      Smaller(p, m);
      var C := ExponentBound(p - {m}, n);
      var D := MaxExponent(m);
      B := C + D;
      forall k, i | k in p && 0 <= i < n ensures k[i] < B { if k != m { assert k in p - {m}; } }
    }
  }

  lemma {:induction false} MaxExponent(m: Monomial) returns (D: nat)
    ensures forall i :: 0 <= i < |m| ==> m[i] < D
  {
    if m == [] {
      D := 0;
    } else {
      var C := MaxExponent(m[1..]);
      D := C + m[0] + 1;
      forall i | 0 <= i < |m| ensures m[i] < D { if i > 0 { assert m[i] == m[1..][i - 1]; } }
    }
  }

  lemma {:induction false} NumeralLimit(p: MPoly, B: nat) returns (W: nat)
    ensures forall m :: m in p ==> Numeral(m, B) <= W
    decreases |p|
  {
    if p == map[] {
      W := 0;
    } else {
      var m :| m in p;
      Smaller(p, m);
      var V := NumeralLimit(p - {m}, B);
      W := if Numeral(m, B) <= V then V else Numeral(m, B);
      forall k | k in p ensures Numeral(k, B) <= W { if k != m { assert k in p - {m}; } }
    }
  }

  // ----- one reduction -----

  // a == quot * b + rem
  ghost predicate Balanced(a: MPoly, b: MPoly, quot: MPoly, rem: MPoly) {
    forall f :: Lin(a, f) == Lin(quot, Product(b, f)) + Lin(rem, f)
  }

  lemma BalancedStart(a: MPoly, b: MPoly)
    ensures Balanced(a, b, map[], a)
  {
    forall f ensures Lin(map[], Product(b, f)) == 0 { LinZero(map[], Product(b, f)); }
  }

  lemma BalancedEnd(a: MPoly, b: MPoly, quot: MPoly)
    requires Balanced(a, b, quot, map[])
    ensures IsProduct(quot, b, a)
  {
    forall f ensures Lin(a, f) == Lin(quot, Product(b, f)) { LinZero(map[], f); }
  }

  lemma SingleTerm(delta: Monomial, q: int, f: Monomial -> int)
    ensures Lin(map[delta := q], f) == q * f(delta)
  {
    LinRemove(map[delta := q], f, delta);
    assert map[delta := q] - {delta} == map[];
    LinZero(map[], f);
  }

  lemma BalancedStep(a: MPoly, b: MPoly, quot: MPoly, rem: MPoly, delta: Monomial, q: int, row: MPoly, next: MPoly)
    requires Balanced(a, b, quot, rem) && IsProduct(map[delta := q], b, row)
    requires forall f :: Lin(next, f) == Lin(rem, f) - Lin(row, f)
    ensures Balanced(a, b, AddTerm(quot, delta, q), next)
  {
    hide Lin, AddTerm, Product;
    forall f ensures Lin(a, f) == Lin(AddTerm(quot, delta, q), Product(b, f)) + Lin(next, f) {
      LinAddTerm(quot, delta, q, Product(b, f));
      SingleTerm(delta, q, Product(b, f));
    }
  }

  lemma RowCoefs(b: MPoly, delta: Monomial, q: int, row: MPoly, n: nat)
    requires IsMPoly(b, n) && |delta| == n && IsProduct(map[delta := q], b, row)
    ensures forall m :: m in b ==> CoefOf(row, MonoAdd(delta, m)) == q * b[m]
    ensures forall k :: CoefOf(row, k) != 0 ==> exists m :: m in b && MonoAdd(delta, m) == k
  {
    hide Lin, MonoAdd, Moved;
    forall m | m in b ensures CoefOf(row, MonoAdd(delta, m)) == q * b[m] {
      var k := MonoAdd(delta, m);
      CoefIsLin(row, k);
      SingleTerm(delta, q, Product(b, Indicator(k)));
      RowCoef(delta, b, m, n);
    }
    forall k | CoefOf(row, k) != 0 ensures exists m :: m in b && MonoAdd(delta, m) == k {
      if !exists m :: m in b && MonoAdd(delta, m) == k {
        CoefIsLin(row, k);
        SingleTerm(delta, q, Product(b, Indicator(k)));
        RowCoefAbsent(delta, b, k, n);
        TimesZero(q);
      }
    }
  }

  /** Subtracting the row leaves only smaller monomials, and none whose numeral grows. */
  lemma ReductionShrinks(b: MPoly, lb: Monomial, rem: MPoly, lr: Monomial, delta: Monomial, q: int,
                         row: MPoly, next: MPoly, B: nat, W: nat, n: nat)
    requires IsMPoly(b, n) && IsLead(b, lb, n) && IsMPoly(rem, n) && IsLead(rem, lr, n) && IsMPoly(next, n)
    requires |delta| == n && MonoAdd(delta, lb) == lr && rem[lr] == q * b[lb]
    requires IsProduct(map[delta := q], b, row)
    requires forall m :: CoefOf(next, m) == CoefOf(rem, m) - CoefOf(row, m)
    requires B > 0 && forall m, i :: m in b && 0 <= i < n ==> m[i] < B
    requires forall m :: m in rem ==> Numeral(m, B) <= W
    ensures forall k :: k in next ==> Less(k, lr) && Numeral(k, B) <= W
  {
    hide IsProduct, MonoAdd, Numeral, Less;
    RowCoefs(b, delta, q, row, n);
    assert CoefOf(next, lr) == 0;
    forall k | k in next ensures Less(k, lr) && Numeral(k, B) <= W {
      assert CoefOf(next, k) != 0;
      if k !in rem {
        assert CoefOf(row, k) != 0;
        var m :| m in b && MonoAdd(delta, m) == k;
        assert m != lb;
        LessAdd(delta, m, lb);
        NumeralOrder(m, lb, B);
        NumeralAdd(delta, m, B);
        NumeralAdd(delta, lb, B);
      }
    }
  }

  // exponents of a monomial whose base-B numeral is at most W are base-(W + 1) digits
  lemma Digits(m: Monomial, B: nat, W: nat)
    requires B > 0 && Numeral(m, B) <= W
    ensures forall i :: 0 <= i < |m| ==> m[i] < W + 1
  {
    forall i | 0 <= i < |m| ensures m[i] < W + 1 { NumeralAboveExponents(m, B, i); }
  }

  lemma BalancedWhole(a: MPoly, b: MPoly, q: MPoly)
    requires IsProduct(q, b, a)
    ensures Balanced(a, b, q, map[])
  {
    hide Lin, Product;
    forall f ensures Lin(map[], f) == 0 { LinZero(map[], f); }
  }

  lemma Remaining(a: MPoly, b: MPoly, quot: MPoly, rem: MPoly, e: MPoly, d: MPoly)
    requires Balanced(a, b, quot, rem) && IsProduct(e, b, a)
    requires forall f :: Lin(d, f) == Lin(e, f) - Lin(quot, f)
    ensures IsProduct(d, b, rem)
  {
    hide Lin, Product;
  }

  lemma ZeroProduct(b: MPoly, rem: MPoly, k: Monomial)
    requires IsProduct(map[], b, rem)
    ensures CoefOf(rem, k) == 0
  {
    hide Lin, Product;
    CoefIsLin(rem, k);
    LinZero(map[], Product(b, Indicator(k)));
  }

  // when a quotient exists, the remainder is always what is left of it times b
  lemma Obstructed(a: MPoly, b: MPoly, quot: MPoly, rem: MPoly, lb: Monomial, lr: Monomial, e: MPoly, n: nat)
    requires IsMPoly(b, n) && IsMPoly(quot, n) && IsMPoly(rem, n) && IsMPoly(e, n)
    requires IsLead(b, lb, n) && IsLead(rem, lr, n)
    requires Balanced(a, b, quot, rem) && IsProduct(e, b, a)
    ensures MonoSub(lr, lb).Some? && rem[lr] % b[lb] == 0
  {
    hide Lin, MonoAdd, Product, IsProduct, Balanced;
    var d := Difference(e, quot, n);
    Remaining(a, b, quot, rem, e, d);
    if d == map[] {
      ZeroProduct(b, rem, lr);
      assert false;
    } else {
      var ld := LeadExists(d, n);
      ProductLead(d, b, rem, ld, lb, n);
      LeadUnique(rem, lr, MonoAdd(ld, lb), n);
      ProductMod(d[ld], b[lb]);
    }
  }

  lemma ProductMod(x: int, y: int)
    requires y != 0
    ensures (x * y) % y == 0
  {
    Numbers.ModUnique(x * y, y, x, 0);
  }

  /** Succeeds exactly when b is not zero and some integer polynomial times b is a, and returns it. */
  method ExactDiv(a: MPoly, b: MPoly, n: nat) returns (r: Option<MPoly>)
    requires IsMPoly(a, n) && IsMPoly(b, n)
    ensures r.Some? ==> IsMPoly(r.value, n) && IsProduct(r.value, b, a)
    ensures r.Some? <==> b != map[] && exists q :: IsMPoly(q, n) && IsProduct(q, b, a)
  {
    hide IsProduct, Balanced, Less, Numeral, MonoAdd, MonoSub, AddTerm, Lin, EvalAt, CoefOf, IsMPoly;
    EmptyIsMPoly(n);
    if b == map[] { return None; }
    BalancedStart(a, b);
    if a == map[] {
      BalancedEnd(a, b, map[]);
      return Some(map[]);
    }
    var lb := Lead(b, n);
    ghost var B := ExponentBound(b, n);
    ghost var W := NumeralLimit(a, B);
    var rem, quot: MPoly := a, map[];
    ghost var size := LeadSize(a, W, n);
    while rem != map[]
      invariant IsMPoly(rem, n) && IsMPoly(quot, n) && Balanced(a, b, quot, rem)
      invariant forall m :: m in rem ==> Numeral(m, B) <= W
      invariant forall m :: m in rem ==> Numeral(m, W + 1) < size
      decreases size
    {
      var lr := Lead(rem, n);
      LeadLength(b, lb, n);
      LeadLength(rem, lr, n);
      var delta := MonoSub(lr, lb);
      if delta.None? || rem[lr] % b[lb] != 0 {
        if q :| IsMPoly(q, n) && IsProduct(q, b, a) { Obstructed(a, b, quot, rem, lb, lr, q, n); }
        return None;
      }
      var q := rem[lr] / b[lb];
      Quotient(rem[lr], b[lb]);
      AddTermCanonical(quot, delta.value, q, n);
      SingleIsMPoly(delta.value, q, n);
      var row := MPolyOps.Mul(map[delta.value := q], b, n);
      var next := MPolyOps.Sub(rem, row, n);
      BalancedStep(a, b, quot, rem, delta.value, q, row, next);
      ReductionShrinks(b, lb, rem, lr, delta.value, q, row, next, B, W, n);
      quot := AddTerm(quot, delta.value, q);
      size := Descend(next, lr, B, W, n);
      rem := next;
    }
    BalancedEnd(a, b, quot);
    r := Some(quot);
  }

  lemma EmptyIsMPoly(n: nat)
    ensures IsMPoly(map[], n)
  {}

  lemma SingleIsMPoly(m: Monomial, q: int, n: nat)
    requires |m| == n && q != 0
    ensures IsMPoly(map[m := q], n)
  {}

  lemma LeadLength(p: MPoly, m: Monomial, n: nat)
    requires IsMPoly(p, n) && m in p
    ensures |m| == n && p[m] != 0
  {}

  lemma Quotient(x: int, y: int)
    requires y != 0 && x != 0 && x % y == 0
    ensures x == (x / y) * y && x / y != 0
  {}

  lemma LeadSize(p: MPoly, W: nat, n: nat) returns (size: nat)
    requires IsMPoly(p, n)
    ensures forall m :: m in p ==> Numeral(m, W + 1) < size
  {
    var top := NumeralLimit(p, W + 1);
    size := top + 1;
  }

  // the next remainder lies below the numeral of the monomial just cancelled
  lemma Descend(next: MPoly, lr: Monomial, B: nat, W: nat, n: nat) returns (size: nat)
    requires IsMPoly(next, n) && |lr| == n && B > 0
    requires forall k :: k in next ==> Less(k, lr) && Numeral(k, B) <= W
    ensures size == Numeral(lr, W + 1) && forall k :: k in next ==> Numeral(k, W + 1) < size
  {
    NumeralNonNegative(lr, W + 1);
    size := Numeral(lr, W + 1);
    forall k | k in next ensures Numeral(k, W + 1) < size {
      Digits(k, B, W);
      NumeralOrder(k, lr, W + 1);
    }
  }
}
