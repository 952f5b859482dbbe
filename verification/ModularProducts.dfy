/** Reduction modulo m of integer polynomials, and of products of some of a list. */
module ModularProducts {
  import opened Rings
  import opened Polys
  import opened Vectors
  import opened PrimeField
  import opened IntPolys
  import opened Comaximal

  // ----- reduction modulo m is a homomorphism -----

  /** p with its coefficients modulo m, stripped. */
  function Modulo(m: int, p: seq<int>): seq<int>
    requires m > 1
  {
    Norm(Fp(m), Residues(m, p))
  }

  lemma ModuloCoeff(m: int, p: seq<int>)
    requires m > 1
    ensures IsPoly(Fp(m), Modulo(m, p))
    ensures forall i: nat :: Coeff(Fp(m), Modulo(m, p), i) == Coeff(Integers(), p, i) % m
  {
    hide Norm, FpMod, IsRing, ModInverse;
    FpIsRing(m);
    ResiduesIn(m, p);
    NormIs(Fp(m), Residues(m, p));
    forall i: nat ensures Coeff(Fp(m), Modulo(m, p), i) == Coeff(Integers(), p, i) % m {
      assert Coeff(Fp(m), Modulo(m, p), i) == Coeff(Fp(m), Residues(m, p), i);
    }
  }

  lemma ModuloIs(m: int, p: seq<int>, r: seq<int>)
    requires m > 1 && IsPoly(Fp(m), r)
    requires forall i: nat :: Coeff(Fp(m), r, i) == Coeff(Integers(), p, i) % m
    ensures Modulo(m, p) == r
  {
    hide Modulo, FpMod, ModInverse;
    ModuloCoeff(m, p);
    forall i: nat ensures Coeff(Fp(m), Modulo(m, p), i) == Coeff(Fp(m), r, i) {
      assert Coeff(Fp(m), r, i) == Coeff(Integers(), p, i) % m;
    }
    SameCoeffs(Fp(m), Modulo(m, p), r);
  }

  lemma ModuloAdd(m: int, p: IntPoly, q: IntPoly)
    requires m > 1 && IsIntPoly(p) && IsIntPoly(q)
    ensures Modulo(m, PAdd(Integers(), p, q)) == PAdd(Fp(m), Modulo(m, p), Modulo(m, q))
  {
    hide Modulo, PAdd, FpMod, ModInverse, IsRing, IsDomain;
    FpIsRing(m);
    IntegersAreDomain();
    var (a, b) := (Modulo(m, p), Modulo(m, q));
    ModuloCoeff(m, p);
    ModuloCoeff(m, q);
    PAddPoly(Fp(m), a, b);
    forall i: nat ensures Coeff(Fp(m), PAdd(Fp(m), a, b), i) == Coeff(Integers(), PAdd(Integers(), p, q), i) % m {
      CoeffAdd(Fp(m), a, b, i);
      CoeffAdd(Integers(), p, q, i);
      ModAdd(Coeff(Integers(), p, i), Coeff(Integers(), q, i), m);
      assert Coeff(Fp(m), a, i) == Coeff(Integers(), p, i) % m && Coeff(Fp(m), b, i) == Coeff(Integers(), q, i) % m;
    }
    ModuloIs(m, PAdd(Integers(), p, q), PAdd(Fp(m), a, b));
  }

  lemma ModuloScale(m: int, c: int, q: IntPoly)
    requires m > 1 && IsIntPoly(q)
    ensures Modulo(m, ScaleBy(c, q)) == Scale(Fp(m), c % m, Modulo(m, q))
  {
    hide Modulo, Scale, FpMod, ModInverse, IsRing, IsDomain;
    FpIsRing(m);
    var b := Modulo(m, q);
    ModuloCoeff(m, q);
    ResidueIn(m, c);
    ScalePoly(Fp(m), c % m, b);
    forall i: nat ensures Coeff(Fp(m), Scale(Fp(m), c % m, b), i) == Coeff(Integers(), ScaleBy(c, q), i) % m {
      ScaledCoeff(m, c, q, b, i);
    }
    ModuloIs(m, ScaleBy(c, q), Scale(Fp(m), c % m, b));
  }

  lemma ResidueIn(m: int, c: int)
    requires m > 1
    ensures Fp(m).has(c % m)
  {}

  lemma ScaledCoeff(m: int, c: int, q: IntPoly, b: seq<int>, i: nat)
    requires m > 1 && IsIntPoly(q) && IsPoly(Fp(m), b) && Coeff(Fp(m), b, i) == Coeff(Integers(), q, i) % m
    ensures Coeff(Fp(m), Scale(Fp(m), c % m, b), i) == Coeff(Integers(), ScaleBy(c, q), i) % m
  {
    hide Scale, Coeff, IsRing, IsDomain, ModInverse;
    FpIsRing(m);
    IntegersAreDomain();
    ResidueIn(m, c);
    var x := Coeff(Integers(), q, i);
    CoeffScale(Fp(m), c % m, b, i);
    CoeffScale(Integers(), c, q, i);
    ModMul(c, x % m, m);
    ModMul(c, x, m);
  }

  lemma ModuloCons(m: int, c: int, t: IntPoly)
    requires m > 1 && IsIntPoly(t)
    ensures Modulo(m, Cons(Integers(), c, t)) == Cons(Fp(m), c % m, Modulo(m, t))
  {
    hide Modulo, FpMod, ModInverse, IsRing, IsDomain;
    FpIsRing(m);
    var b := Modulo(m, t);
    ModuloCoeff(m, t);
    ConsPoly(Fp(m), c % m, b);
    forall i: nat
      ensures Coeff(Fp(m), Cons(Fp(m), c % m, b), i) == Coeff(Integers(), Cons(Integers(), c, t), i) % m
    {
      if i > 0 { assert Coeff(Fp(m), b, i - 1) == Coeff(Integers(), t, i - 1) % m; }
    }
    ModuloIs(m, Cons(Integers(), c, t), Cons(Fp(m), c % m, b));
  }

  /** Reduction keeps products. */
  lemma {:induction false} ModuloTimes(m: int, p: IntPoly, q: IntPoly)
    requires m > 1 && IsIntPoly(p) && IsIntPoly(q)
    ensures Modulo(m, Times(p, q)) == PMul(Fp(m), Modulo(m, p), Modulo(m, q))
  {
    hide Modulo, Scale, PAdd, Cons, FpMod, ModInverse, IsRing, IsDomain;
    FpIsRing(m);
    IntegersAreDomain();
    var (Z, K) := (Integers(), Fp(m));
    ModuloCoeff(m, q);
    if p == [] {
      ModuloIs(m, [], []);
    } else {
      var (c, t) := (p[0], p[1..]);
      TailPoly(Z, p);
      ModuloTimes(m, t, q);
      ModuloCons(m, c, t);
      ModuloCoeff(m, t);
      MulCons(K, c % m, Modulo(m, t), Modulo(m, q));
      ScalePoly(Z, c, q);
      PMulPoly(Z, t, q);
      ConsPoly(Z, 0, PMul(Z, t, q));
      ModuloAdd(m, Scale(Z, c, q), Shift(Z, PMul(Z, t, q)));
      ModuloScale(m, c, q);
      ModuloCons(m, 0, PMul(Z, t, q));
    }
  }

  /** Congruent modulo m, coefficient by coefficient. */
  ghost predicate CongruentModulo(m: int, a: IntPoly, b: IntPoly)
    requires m > 1
  {
    forall i: nat :: Coeff(Integers(), a, i) % m == Coeff(Integers(), b, i) % m
  }

  lemma CongruentIff(m: int, a: IntPoly, b: IntPoly)
    requires m > 1
    ensures CongruentModulo(m, a, b) <==> Modulo(m, a) == Modulo(m, b)
  {
    hide Modulo, FpMod, ModInverse;
    ModuloCoeff(m, a);
    ModuloCoeff(m, b);
    if CongruentModulo(m, a, b) {
      forall i: nat ensures Coeff(Fp(m), Modulo(m, b), i) == Coeff(Integers(), a, i) % m {
        assert Coeff(Integers(), a, i) % m == Coeff(Integers(), b, i) % m;
      }
      ModuloIs(m, a, Modulo(m, b));
    }
    if Modulo(m, a) == Modulo(m, b) {
      forall i: nat ensures Coeff(Integers(), a, i) % m == Coeff(Integers(), b, i) % m {
        assert Coeff(Fp(m), Modulo(m, a), i) == Coeff(Fp(m), Modulo(m, b), i);
      }
    }
  }

  // ----- some of a list -----

  ghost predicate Increasing(js: seq<nat>) {
    forall a, b :: 0 <= a < b < |js| ==> js[a] < js[b]
  }

  /** Increasing lists with the same members are equal. */
  lemma {:induction false} SameIncreasing(js: seq<nat>, ks: seq<nat>)
    requires Increasing(js) && Increasing(ks) && forall x: nat :: x in js <==> x in ks
    ensures js == ks
  {
    assert (js != [] ==> js[|js| - 1] in js) && (ks != [] ==> ks[|ks| - 1] in ks);
    if js != [] {
      var (j, k) := (js[|js| - 1], ks[|ks| - 1]);
      LargestLast(js, k);
      LargestLast(ks, j);
      var (us, vs) := (js[..|js| - 1], ks[..|ks| - 1]);
      forall x: nat ensures x in us <==> x in vs {
        LastApart(js, x);
        LastApart(ks, x);
      }
      SameIncreasing(us, vs);
      assert js == us + [j] && ks == vs + [k];
    }
  }

  lemma LargestLast(js: seq<nat>, x: nat)
    requires Increasing(js) && x in js
    ensures x <= js[|js| - 1]
  {
    var i :| 0 <= i < |js| && js[i] == x;
  }

  lemma LastApart(js: seq<nat>, x: nat)
    requires Increasing(js) && js != []
    ensures x in js[..|js| - 1] <==> x in js && x != js[|js| - 1]
  {
    assert js == js[..|js| - 1] + [js[|js| - 1]];
    if x in js[..|js| - 1] {
      var i :| 0 <= i < |js| - 1 && js[..|js| - 1][i] == x;
      assert js[i] == x;
    }
  }

  /** The positions selected among the first n. */
  ghost function Indices(t: seq<bool>, n: nat): (js: seq<nat>)
    requires n <= |t|
  {
    if n == 0 then [] else Indices(t, n - 1) + if t[n - 1] then [n - 1] else []
  }

  lemma {:induction false} IndicesAre(t: seq<bool>, n: nat)
    requires n <= |t|
    ensures Increasing(Indices(t, n)) && forall x: nat :: x in Indices(t, n) <==> x < n && t[x]
  {
    if n > 0 {
      IndicesAre(t, n - 1);
      var js := Indices(t, n - 1);
      forall a | 0 <= a < |js| ensures js[a] < n - 1 { assert js[a] in js; }
    }
  }

  ghost predicate Within(js: seq<nat>, n: nat) {
    forall a :: 0 <= a < |js| ==> js[a] < n
  }

  /** The entries at the given positions. */
  ghost function Entries<T>(u: seq<T>, js: seq<nat>): (fs: seq<T>)
    requires Within(js, |u|)
    ensures |fs| == |js| && forall a :: 0 <= a < |js| ==> fs[a] == u[js[a]]
  {
    seq(|js|, a requires 0 <= a < |js| => u[js[a]])
  }

  /** The product over Z. */
  ghost function Product(fs: seq<IntPoly>): IntPoly {
    Prod(PolyRing(Integers()), fs)
  }

  ghost predicate AllPolys(fs: seq<IntPoly>) {
    forall i :: 0 <= i < |fs| ==> IsIntPoly(fs[i])
  }

  lemma ProductSnoc(fs: seq<IntPoly>, g: IntPoly)
    requires AllPolys(fs) && IsIntPoly(g)
    ensures IsIntPoly(Product(fs)) && Product(fs + [g]) == Times(Product(fs), g) && Product([]) == [1]
  {
    hide PMul, Prod, IsRing, IsDomain;
    IntegersAreDomain();
    var P := PolyRing(Integers());
    PolyRingIsRing(Integers());
    ProdHas(P, fs);
    ProdConcat(P, fs, [g]);
    ProdSingle(P, g);
    EmptyProduct();
  }

  lemma EmptyProduct()
    ensures Product([]) == [1]
  {}

  /** The degrees of non-zero factors add up. */
  lemma ProductLen(fs: seq<IntPoly>, g: IntPoly)
    requires AllPolys(fs) && IsIntPoly(g) && g != [] && Product(fs) != []
    ensures |Product(fs + [g])| == |Product(fs)| + |g| - 1
  {
    hide Product, PMul;
    ProductSnoc(fs, g);
    IntegersAreDomain();
    PMulLen(Integers(), Product(fs), g);
  }
}
