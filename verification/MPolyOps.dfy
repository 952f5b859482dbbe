/** The arithmetic of sparse polynomials: loops over the terms of the operands, each updating one slot
    of the result. */
module MPolyOps {
  import opened MPolys
  import opened Powers

  ghost predicate SameEval(a: MPoly, b: MPoly, n: nat) {
    forall pt: seq<int> :: |pt| == n ==> EvalAt(a, pt) == EvalAt(b, pt)
  }

  lemma AddTermCanonical(p: MPoly, m: Monomial, c: int, n: nat)
    requires IsMPoly(p, n) && |m| == n
    ensures IsMPoly(AddTerm(p, m, c), n)
  {}

  // taking one more term of p
  lemma TakeTerm(p: MPoly, todo: set<Monomial>, m: Monomial, f: Monomial -> int)
    requires m in todo && todo <= p.Keys
    ensures Lin(p - (todo - {m}), f) == Lin(p - todo, f) + p[m] * f(m)
  {
    var done := p - (todo - {m});
    LinRemove(done, f, m);
    assert done - {m} == p - todo;
  }

  /** What adding b, times c and moved by s, does to every functional. */
  ghost function Moved(s: Monomial, f: Monomial -> int): Monomial -> int {
    m => if |m| == |s| then f(MonoAdd(s, m)) else 0
  }

  // multiplication by name, for proofs in which nothing needs to know what it computes
  ghost function Mult(a: int, b: int): int {
    a * b
  }

  /** r0 + c * x^s * b */
  method Accumulate(r0: MPoly, s: Monomial, c: int, b: MPoly, n: nat) returns (r: MPoly)
    requires IsMPoly(r0, n) && IsMPoly(b, n) && |s| == n
    ensures IsMPoly(r, n)
    ensures forall f :: Lin(r, f) == Lin(r0, f) + Mult(c, Lin(b, Moved(s, f)))
  {
    hide Lin, AddTerm, Moved, MonoAdd;
    r := r0;
    var todo := b.Keys;
    assert b - todo == map[];
    forall f ensures c * Lin(b - todo, Moved(s, f)) == 0 { LinZero(map[], Moved(s, f)); TimesZero(c); }
    while todo != {}
      invariant todo <= b.Keys && IsMPoly(r, n)
      invariant forall f :: Lin(r, f) == Lin(r0, f) + c * Lin(b - todo, Moved(s, f))
      decreases todo
    {
      var m :| m in todo;
      ghost var before := r;
      AddTermCanonical(r, MonoAdd(s, m), c * b[m], n);
      r := AddTerm(r, MonoAdd(s, m), c * b[m]);
      forall f ensures Lin(r, f) == Lin(r0, f) + c * Lin(b - (todo - {m}), Moved(s, f)) {
        AccumulateOne(before, s, c, b, todo, m, f);
      }
      todo := todo - {m};
    }
    assert b - {} == b;
  }

  lemma AccumulateOne(r: MPoly, s: Monomial, c: int, b: MPoly, todo: set<Monomial>, m: Monomial, f: Monomial -> int)
    requires m in todo && todo <= b.Keys && |m| == |s|
    ensures Lin(AddTerm(r, MonoAdd(s, m), c * b[m]), f) + c * Lin(b - todo, Moved(s, f))
         == Lin(r, f) + c * Lin(b - (todo - {m}), Moved(s, f))
  {
    LinAddTerm(r, MonoAdd(s, m), c * b[m], f);
    TakeTerm(b, todo, m, Moved(s, f));
    AccumulateStep(c, b[m], f(MonoAdd(s, m)), Lin(b - todo, Moved(s, f)));
  }

  lemma AccumulateStep(c: int, b: int, w: int, s: int)
    ensures c * s + (c * b) * w == c * (s + b * w)
  {
    assert (c * b) * w == c * (b * w);
  }

  ghost function Product(b: MPoly, f: Monomial -> int): Monomial -> int {
    s => Lin(b, Moved(s, f))
  }

  /** r is the convolution of a and b: with f the indicator of a monomial k this reads the coefficient
      of k as the sum of a[s] * b[m] over s + m == k, and with f a power product at a point it reads
      the value there. */
  ghost predicate IsProduct(a: MPoly, b: MPoly, r: MPoly) {
    forall f :: Lin(r, f) == Lin(a, Product(b, f))
  }

  /** Multiplication. */
  method Mul(a: MPoly, b: MPoly, n: nat) returns (r: MPoly)
    requires IsMPoly(a, n) && IsMPoly(b, n)
    ensures IsMPoly(r, n)
    ensures IsProduct(a, b, r)
    ensures forall pt: seq<int> :: |pt| == n ==> EvalAt(r, pt) == EvalAt(a, pt) * EvalAt(b, pt)
  {
    hide Lin, Moved, MonoVal, Mult, Partial, IsProduct;
    r := map[];
    var todo := a.Keys;
    PartialStart(a, b);
    while todo != {}
      invariant todo <= a.Keys && IsMPoly(r, n) && Partial(r, a, b, todo)
      decreases todo
    {
      var m :| m in todo;
      ghost var before := r;
      r := Accumulate(r, m, a[m], b, n);
      PartialStep(before, r, a, b, todo, m);
      todo := todo - {m};
    }
    PartialDone(r, a, b, n);
  }

  // r is the product with b of the terms of a outside todo
  ghost predicate Partial(r: MPoly, a: MPoly, b: MPoly, todo: set<Monomial>) {
    forall f :: Lin(r, f) == Lin(a - todo, Product(b, f))
  }

  lemma PartialStart(a: MPoly, b: MPoly)
    ensures Partial(map[], a, b, a.Keys)
  {
    assert a - a.Keys == map[];
    forall f ensures Lin(map[], f) == Lin(a - a.Keys, Product(b, f)) {
      LinZero(map[], f);
      LinZero(map[], Product(b, f));
    }
  }

  lemma PartialStep(before: MPoly, r: MPoly, a: MPoly, b: MPoly, todo: set<Monomial>, m: Monomial)
    requires m in todo && todo <= a.Keys && Partial(before, a, b, todo)
    requires forall f :: Lin(r, f) == Lin(before, f) + Mult(a[m], Lin(b, Moved(m, f)))
    ensures Partial(r, a, b, todo - {m})
  {
    hide Lin, Moved, Mult;
    forall f ensures Lin(r, f) == Lin(a - (todo - {m}), Product(b, f)) { TakeProduct(a, b, todo, m, f); }
  }

  lemma PartialDone(r: MPoly, a: MPoly, b: MPoly, n: nat)
    requires IsMPoly(a, n) && IsMPoly(b, n) && Partial(r, a, b, {})
    ensures IsProduct(a, b, r)
    ensures forall pt: seq<int> :: |pt| == n ==> EvalAt(r, pt) == EvalAt(a, pt) * EvalAt(b, pt)
  {
    hide Lin, Moved, MonoVal, Mult;
    assert a - {} == a;
    forall pt: seq<int> | |pt| == n ensures EvalAt(r, pt) == EvalAt(a, pt) * EvalAt(b, pt) {
      ProductEval(a, b, n, pt);
    }
  }

  lemma TakeProduct(a: MPoly, b: MPoly, todo: set<Monomial>, m: Monomial, f: Monomial -> int)
    requires m in todo && todo <= a.Keys
    ensures Lin(a - (todo - {m}), Product(b, f)) == Lin(a - todo, Product(b, f)) + Mult(a[m], Lin(b, Moved(m, f)))
  {
    hide Lin, Moved;
    TakeTerm(a, todo, m, Product(b, f));
    assert Product(b, f)(m) == Lin(b, Moved(m, f));
  }

  lemma MovedEval(s: Monomial, b: MPoly, n: nat, pt: seq<int>)
    requires IsMPoly(b, n) && |s| == n == |pt|
    ensures Lin(b, Moved(s, Weight(pt))) == MonoVal(s, pt) * EvalAt(b, pt)
  {
    var zero := (m: Monomial) => 0;
    LinZero(b, zero);
    forall m | m in b ensures Moved(s, Weight(pt))(m) == zero(m) + MonoVal(s, pt) * Weight(pt)(m) {
      MonoValAdd(s, m, pt);
    }
    LinCombine(b, zero, MonoVal(s, pt), Weight(pt), Moved(s, Weight(pt)));
  }

  lemma ProductEval(a: MPoly, b: MPoly, n: nat, pt: seq<int>)
    requires IsMPoly(a, n) && IsMPoly(b, n) && |pt| == n
    ensures Lin(a, Product(b, Weight(pt))) == EvalAt(a, pt) * EvalAt(b, pt)
  {
    hide Lin, MonoVal, Moved;
    var zero := (m: Monomial) => 0;
    LinZero(a, zero);
    var e := EvalAt(b, pt);
    forall m | m in a ensures Product(b, Weight(pt))(m) == zero(m) + e * Weight(pt)(m) {
      MovedEval(m, b, n, pt);
      Commute(MonoVal(m, pt), e);
    }
    LinCombine(a, zero, e, Weight(pt), Product(b, Weight(pt)));
    Commute(e, EvalAt(a, pt));
  }

  lemma Commute(a: int, b: int)
    ensures a * b == b * a
  {}

  lemma Negated(a: int, b: int)
    ensures (-a) * b == -(a * b)
  {}

  method Add(a: MPoly, b: MPoly, n: nat) returns (r: MPoly)
    requires IsMPoly(a, n) && IsMPoly(b, n)
    ensures IsMPoly(r, n)
    ensures forall f :: Lin(r, f) == Lin(a, f) + Lin(b, f)
    ensures forall m :: CoefOf(r, m) == CoefOf(a, m) + CoefOf(b, m)
    ensures forall pt: seq<int> :: |pt| == n ==> EvalAt(r, pt) == EvalAt(a, pt) + EvalAt(b, pt)
  {
    r := a;
    var todo := b.Keys;
    assert b - todo == map[];
    while todo != {}
      invariant todo <= b.Keys && IsMPoly(r, n)
      invariant forall f :: Lin(r, f) == Lin(a, f) + Lin(b - todo, f)
      decreases todo
    {
      var m :| m in todo;
      ghost var before := r;
      AddTermCanonical(r, m, b[m], n);
      r := AddTerm(r, m, b[m]);
      forall f ensures Lin(r, f) == Lin(a, f) + Lin(b - (todo - {m}), f) {
        LinAddTerm(before, m, b[m], f);
        TakeTerm(b, todo, m, f);
      }
      todo := todo - {m};
    }
    assert b - {} == b;
    forall m ensures CoefOf(r, m) == CoefOf(a, m) + CoefOf(b, m) {
      CoefIsLin(r, m);
      CoefIsLin(a, m);
      CoefIsLin(b, m);
    }
  }

  method Sub(a: MPoly, b: MPoly, n: nat) returns (r: MPoly)
    requires IsMPoly(a, n) && IsMPoly(b, n)
    ensures IsMPoly(r, n)
    ensures forall f :: Lin(r, f) == Lin(a, f) - Lin(b, f)
    ensures forall m :: CoefOf(r, m) == CoefOf(a, m) - CoefOf(b, m)
    ensures forall pt: seq<int> :: |pt| == n ==> EvalAt(r, pt) == EvalAt(a, pt) - EvalAt(b, pt)
  {
    r := a;
    var todo := b.Keys;
    assert b - todo == map[];
    while todo != {}
      invariant todo <= b.Keys && IsMPoly(r, n)
      invariant forall f :: Lin(r, f) == Lin(a, f) - Lin(b - todo, f)
      decreases todo
    {
      var m :| m in todo;
      ghost var before := r;
      AddTermCanonical(r, m, -b[m], n);
      r := AddTerm(r, m, -b[m]);
      forall f ensures Lin(r, f) == Lin(a, f) - Lin(b - (todo - {m}), f) {
        LinAddTerm(before, m, -b[m], f);
        TakeTerm(b, todo, m, f);
        Negated(b[m], f(m));
      }
      todo := todo - {m};
    }
    assert b - {} == b;
    forall m ensures CoefOf(r, m) == CoefOf(a, m) - CoefOf(b, m) {
      CoefIsLin(r, m);
      CoefIsLin(a, m);
      CoefIsLin(b, m);
    }
  }

  method Scale(a: MPoly, s: int, n: nat) returns (r: MPoly)
    requires IsMPoly(a, n)
    ensures IsMPoly(r, n)
    ensures forall m :: CoefOf(r, m) == CoefOf(a, m) * s
    ensures forall pt: seq<int> :: |pt| == n ==> EvalAt(r, pt) == s * EvalAt(a, pt)
  {
    hide Lin, Weight;
    r := map[];
    if s == 0 {
      forall pt: seq<int> ensures Lin(r, Weight(pt)) == 0 { LinZero(r, Weight(pt)); }
      return;
    }
    var todo := a.Keys;
    while todo != {}
      invariant todo <= a.Keys
      invariant forall m :: m in r <==> m in a && m !in todo
      invariant forall m :: m in r ==> r[m] == a[m] * s
      decreases todo
    {
      var m :| m in todo;
      r := r[m := a[m] * s];
      todo := todo - {m};
    }
    forall m | m in a ensures a[m] * s != 0 { NonZero(a[m], s); }
    forall pt: seq<int> | |pt| == n ensures EvalAt(r, pt) == s * EvalAt(a, pt) {
      ScaledLin(a, s, r, Weight(pt));
    }
  }

  lemma NonZero(a: int, s: int)
    requires a != 0 && s != 0
    ensures a * s != 0
  {}

  lemma {:induction false} ScaledLin(a: MPoly, s: int, r: MPoly, f: Monomial -> int)
    requires r.Keys == a.Keys && forall m :: m in a ==> r[m] == a[m] * s
    ensures Lin(r, f) == s * Lin(a, f)
    decreases |a|
  {
    if a == map[] {
      assert r == map[];
    } else {
      var m :| m in a;
      Smaller(a, m);
      LinRemove(a, f, m);
      LinRemove(r, f, m);
      ScaledLin(a - {m}, s, r - {m}, f);
      ScaledStep(a[m], s, f(m), Lin(a - {m}, f));
    }
  }

  lemma ScaledStep(a: int, s: int, w: int, l: int)
    ensures (a * s) * w + s * l == s * (a * w + l)
  {
    assert (a * s) * w == s * (a * w);
  }

  /** Two canonical polynomials are equal exactly when they agree at every integer point. */
  method Equal(a: MPoly, b: MPoly, n: nat) returns (r: bool)
    requires IsMPoly(a, n) && IsMPoly(b, n)
    ensures r <==> SameEval(a, b, n)
  {
    r := a == b;
    if SameEval(a, b, n) { SameEvalEqual(a, b, n); }
  }

  lemma {:induction false} Difference(a: MPoly, b: MPoly, n: nat) returns (d: MPoly)
    requires IsMPoly(a, n) && IsMPoly(b, n)
    ensures IsMPoly(d, n) && forall f :: Lin(d, f) == Lin(a, f) - Lin(b, f)
    decreases |b|
  {
    hide Lin, AddTerm;
    if b == map[] {
      d := a;
      forall f ensures Lin(b, f) == 0 { LinZero(b, f); }
    } else {
      var m :| m in b;
      Smaller(b, m);
      var e := Difference(a, b - {m}, n);
      d := AddTerm(e, m, -b[m]);
      AddTermCanonical(e, m, -b[m], n);
      forall f ensures Lin(d, f) == Lin(a, f) - Lin(b, f) { DifferenceStep(a, b, e, m, f); }
    }
  }

  lemma DifferenceStep(a: MPoly, b: MPoly, e: MPoly, m: Monomial, f: Monomial -> int)
    requires m in b && Lin(e, f) == Lin(a, f) - Lin(b - {m}, f)
    ensures Lin(AddTerm(e, m, -b[m]), f) == Lin(a, f) - Lin(b, f)
  {
    hide Lin, AddTerm;
    LinAddTerm(e, m, -b[m], f);
    LinRemove(b, f, m);
    Negated(b[m], f(m));
  }

  lemma SameEvalEqual(a: MPoly, b: MPoly, n: nat)
    requires IsMPoly(a, n) && IsMPoly(b, n) && SameEval(a, b, n)
    ensures a == b
  {
    var d := Difference(a, b, n);
    forall pt: seq<int> | |pt| == n ensures EvalAt(d, pt) == 0 {}
    Vanishes(d, n);
    forall f ensures Lin(a, f) == Lin(b, f) {
      assert Lin(d, f) == 0;
    }
    SameLin(a, b, n);
  }

  // some canonical polynomial is r0 + c * x^s * b
  lemma {:induction false} MovedExists(r0: MPoly, s: Monomial, c: int, b: MPoly, n: nat) returns (r: MPoly)
    requires IsMPoly(r0, n) && IsMPoly(b, n) && |s| == n
    ensures IsMPoly(r, n)
    ensures forall f :: Lin(r, f) == Lin(r0, f) + Mult(c, Lin(b, Moved(s, f)))
    decreases |b|
  {
    hide Lin, AddTerm, Moved, Mult, MonoAdd;
    if b == map[] {
      r := r0;
      forall f ensures Mult(c, Lin(b, Moved(s, f))) == 0 { MovedNothing(s, c, f); }
    } else {
      var m :| m in b;
      Smaller(b, m);
      var e := MovedExists(r0, s, c, b - {m}, n);
      r := AddTerm(e, MonoAdd(s, m), c * b[m]);
      AddTermCanonical(e, MonoAdd(s, m), c * b[m], n);
      forall f ensures Lin(r, f) == Lin(r0, f) + Mult(c, Lin(b, Moved(s, f))) {
        AccumulateOne(e, s, c, b, {m}, m, f);
        MovedOne(c, b, m, Moved(s, f));
      }
    }
  }

  lemma MovedNothing(s: Monomial, c: int, f: Monomial -> int)
    ensures Mult(c, Lin(map[], Moved(s, f))) == 0
  {
    LinZero(map[], Moved(s, f));
    TimesZero(c);
  }

  lemma MovedOne(c: int, b: MPoly, m: Monomial, f: Monomial -> int)
    requires m in b
    ensures Mult(c, Lin(b - {m}, f)) == c * Lin(b - {m}, f) && Mult(c, Lin(b, f)) == c * Lin(b - ({m} - {m}), f)
  {
    assert b - ({m} - {m}) == b;
  }

  lemma {:induction false} ProductExists(a: MPoly, b: MPoly, n: nat) returns (r: MPoly)
    requires IsMPoly(a, n) && IsMPoly(b, n)
    ensures IsMPoly(r, n) && IsProduct(a, b, r)
    decreases |a|
  {
    hide Lin, Moved, Mult, Product;
    if a == map[] {
      r := a;
      forall f ensures Lin(r, f) == Lin(a, Product(b, f)) {
        LinZero(r, f);
        LinZero(a, Product(b, f));
      }
    } else {
      var m :| m in a;
      Smaller(a, m);
      var e := ProductExists(a - {m}, b, n);
      assert Partial(e, a, b, {m});
      r := MovedExists(e, m, a[m], b, n);
      AddRow(e, r, a, b, m);
    }
  }

  lemma AddRow(e: MPoly, r: MPoly, a: MPoly, b: MPoly, m: Monomial)
    requires m in a && Partial(e, a, b, {m})
    requires forall f :: Lin(r, f) == Lin(e, f) + Mult(a[m], Lin(b, Moved(m, f)))
    ensures IsProduct(a, b, r)
  {
    hide Lin, Product, Partial, Mult;
    PartialStep(e, r, a, b, {m}, m);
    assert {m} - {m} == {};
    PartialAll(r, a, b);
  }

  lemma PartialAll(r: MPoly, a: MPoly, b: MPoly)
    requires Partial(r, a, b, {})
    ensures IsProduct(a, b, r)
  {
    hide Lin, Product;
    assert a - {} == a;
  }

  /** Being the product is being the product at every integer point. */
  lemma PointwiseProduct(a: MPoly, b: MPoly, r: MPoly, n: nat)
    requires IsMPoly(a, n) && IsMPoly(b, n) && IsMPoly(r, n)
    ensures IsProduct(a, b, r)
       <==> forall pt: seq<int> :: |pt| == n ==> EvalAt(r, pt) == EvalAt(a, pt) * EvalAt(b, pt)
  {
    hide Lin, Moved, MonoVal;
    forall pt: seq<int> | |pt| == n ensures Lin(a, Product(b, Weight(pt))) == EvalAt(a, pt) * EvalAt(b, pt) {
      ProductEval(a, b, n, pt);
    }
    if forall pt: seq<int> :: |pt| == n ==> EvalAt(r, pt) == EvalAt(a, pt) * EvalAt(b, pt) {
      var s := ProductExists(a, b, n);
      assert SameEval(r, s, n);
      SameEvalEqual(r, s, n);
    }
  }

  // ----- one variable at a time -----

  lemma {:induction false} MonoValUpdate(m: Monomial, pt: seq<int>, v: nat, e: nat)
    requires |m| == |pt| && v < |m|
    ensures MonoVal(m[v := e], pt) * IPow(pt[v], m[v]) == MonoVal(m, pt) * IPow(pt[v], e)
  {
    if v == 0 {
      assert m[0 := e][1..] == m[1..];
      SwapPowers(IPow(pt[0], e), MonoVal(m[1..], pt[1..]), IPow(pt[0], m[0]));
    } else {
      assert m[v := e][1..] == m[1..][v - 1 := e];
      MonoValUpdate(m[1..], pt[1..], v - 1, e);
      var a := IPow(pt[0], m[0]);
      assert m[v := e][0] == m[0];
      UnderFactor(a, MonoVal(m[1..][v - 1 := e], pt[1..]), IPow(pt[v], m[v]), MonoVal(m[1..], pt[1..]), IPow(pt[v], e));
    }
  }

  lemma SwapPowers(a: int, b: int, c: int)
    ensures (a * b) * c == (c * b) * a
  {}

  lemma UnderFactor(a: int, x: int, p: int, y: int, q: int)
    requires x * p == y * q
    ensures (a * x) * p == (a * y) * q
  {
    assert (a * x) * p == a * (x * p);
    assert (a * y) * q == a * (y * q);
  }

  lemma {:induction false} MonoValElsewhere(m: Monomial, pt: seq<int>, v: nat, x: int)
    requires |m| == |pt| && v < |m| && m[v] == 0
    ensures MonoVal(m, pt[v := x]) == MonoVal(m, pt)
  {
    if v > 0 {
      assert pt[v := x][1..] == pt[1..][v - 1 := x];
      MonoValElsewhere(m[1..], pt[1..], v - 1, x);
    } else {
      assert pt[0 := x][1..] == pt[1..];
    }
  }

  // x^0 m at pt is m with its exponent of v cleared
  lemma MonoValClear(m: Monomial, pt: seq<int>, v: nat)
    requires |m| == |pt| && v < |m|
    ensures MonoVal(m, pt) == IPow(pt[v], m[v]) * MonoVal(m[v := 0], pt)
  {
    MonoValUpdate(m, pt, v, 0);
  }

  // the value of one term once v has been replaced
  lemma TermWithout(m: Monomial, pt: seq<int>, v: nat, value: int, c: int)
    requires |m| == |pt| && v < |m|
    ensures (c * IPow(value, m[v])) * MonoVal(m[v := 0], pt) == c * MonoVal(m, pt[v := value])
  {
    MonoValClear(m, pt[v := value], v);
    MonoValElsewhere(m[v := 0], pt, v, value);
    Reassociate(c, IPow(value, m[v]), MonoVal(m[v := 0], pt));
  }

  lemma Reassociate(a: int, b: int, c: int)
    ensures (a * b) * c == a * (b * c)
  {}

  /** Substitutes an integer for variable v; its exponent becomes zero everywhere. */
  method EvalVar(p: MPoly, v: nat, value: int, n: nat) returns (r: MPoly)
    requires IsMPoly(p, n) && v < n
    ensures IsMPoly(r, n) && forall m :: m in r ==> m[v] == 0
    ensures forall pt: seq<int> :: |pt| == n ==> EvalAt(r, pt) == EvalAt(p, pt[v := value])
  {
    hide Lin, MonoVal;
    r := map[];
    var todo := p.Keys;
    assert p - todo == map[];
    forall pt: seq<int> ensures Lin(r, Weight(pt)) == 0 { LinZero(r, Weight(pt)); }
    while todo != {}
      invariant todo <= p.Keys && IsMPoly(r, n) && forall m :: m in r ==> m[v] == 0
      invariant forall pt: seq<int> :: |pt| == n ==>
        Lin(r, Weight(pt)) == Lin(p - todo, Weight(pt[v := value]))
      decreases todo
    {
      var m :| m in todo;
      ghost var before := r;
      var c := p[m];
      if m[v] > 0 { c := c * IPow(value, m[v]); }
      assert c == p[m] * IPow(value, m[v]);
      AddTermCanonical(r, m[v := 0], c, n);
      r := AddTerm(r, m[v := 0], c);
      forall pt: seq<int> | |pt| == n
        ensures Lin(r, Weight(pt)) == Lin(p - (todo - {m}), Weight(pt[v := value]))
      {
        EvalVarStep(before, p, todo, m, v, value, pt);
      }
      todo := todo - {m};
    }
    assert p - {} == p;
  }

  lemma EvalVarStep(r: MPoly, p: MPoly, todo: set<Monomial>, m: Monomial, v: nat, value: int, pt: seq<int>)
    requires m in todo && todo <= p.Keys && |m| == |pt| && v < |m|
    ensures Lin(AddTerm(r, m[v := 0], p[m] * IPow(value, m[v])), Weight(pt)) + Lin(p - todo, Weight(pt[v := value]))
         == Lin(r, Weight(pt)) + Lin(p - (todo - {m}), Weight(pt[v := value]))
  {
    hide Lin, AddTerm, MonoVal;
    LinAddTerm(r, m[v := 0], p[m] * IPow(value, m[v]), Weight(pt));
    TakeTerm(p, todo, m, Weight(pt[v := value]));
    TermWithout(m, pt, v, value, p[m]);
  }

  /** The largest exponent of variable v; zero for the zero polynomial. */
  method DegreeIn(p: MPoly, v: nat, n: nat) returns (d: nat)
    requires IsMPoly(p, n) && v < n
    ensures forall m :: m in p ==> m[v] <= d
    ensures p == map[] ==> d == 0
    ensures p != map[] ==> exists m :: m in p && m[v] == d
  {
    d := 0;
    var todo := p.Keys;
    while todo != {}
      invariant todo <= p.Keys
      invariant forall m :: m in p && m !in todo ==> m[v] <= d
      invariant todo == p.Keys ==> d == 0
      invariant todo != p.Keys ==> exists m :: m in p && m[v] == d
      decreases todo
    {
      var m :| m in todo;
      if m[v] > d || todo == p.Keys { d := m[v]; }
      assert m in p;
      todo := todo - {m};
    }
  }

  /** The coefficient of x_v^deg, with the exponent of v cleared. */
  ghost predicate IsCoeffIn(p: MPoly, v: nat, deg: nat, n: nat, r: MPoly)
    requires v < n && IsMPoly(p, n)
  {
    && IsMPoly(r, n)
    && (forall m :: m in r ==> m[v] == 0)
    && forall m {:trigger CoefOf(r, m)} :: |m| == n && m[v] == 0 ==> CoefOf(r, m) == CoefOf(p, m[v := deg])
  }

  method CoeffIn(p: MPoly, v: nat, deg: nat, n: nat) returns (r: MPoly)
    requires IsMPoly(p, n) && v < n
    ensures IsCoeffIn(p, v, deg, n, r)
  {
    r := map[];
    var todo := p.Keys;
    while todo != {}
      invariant todo <= p.Keys
      invariant forall m :: m in r ==> |m| == n && m[v] == 0
      invariant forall m {:trigger CoefOf(r, m)} :: |m| == n && m[v] == 0 ==>
        CoefOf(r, m) == if m[v := deg] in todo then 0 else CoefOf(p, m[v := deg])
      decreases todo
    {
      var m :| m in todo;
      if m[v] == deg {
        var k := m[v := 0];
        assert k[v := deg] == m;
        ghost var before := r;
        assert CoefOf(before, k) == 0;
        r := r[k := CoefOf(r, k) + p[m]];
        forall l: Monomial | |l| == n && l[v] == 0
          ensures CoefOf(r, l) == if l[v := deg] in todo - {m} then 0 else CoefOf(p, l[v := deg])
        {
          if l[v := deg] == m { assert l == l[v := deg][v := 0]; }
          assert l != k ==> CoefOf(r, l) == CoefOf(before, l);
        }
      }
      todo := todo - {m};
    }
    r := Prune(r, n);
  }

  /** Drops zero coefficients. */
  method Prune(p: MPoly, n: nat) returns (r: MPoly)
    requires forall m :: m in p ==> |m| == n
    ensures IsMPoly(r, n) && r.Keys <= p.Keys
    ensures forall m :: CoefOf(r, m) == CoefOf(p, m)
  {
    r := p;
    var todo := p.Keys;
    while todo != {}
      invariant todo <= p.Keys && r.Keys <= p.Keys
      invariant forall m :: CoefOf(r, m) == CoefOf(p, m)
      invariant forall m :: m in r && m !in todo ==> r[m] != 0
      decreases todo
    {
      var m :| m in todo;
      ghost var before := r;
      if m in r && r[m] == 0 {
        r := r - {m};
        forall k ensures CoefOf(r, k) == CoefOf(p, k) { assert CoefOf(before, k) == CoefOf(p, k); }
      }
      todo := todo - {m};
    }
  }
}
