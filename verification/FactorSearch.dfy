/** The whole factor search: the non-constant lifted factors are collected, and some of them multiply to a factor
    of f whenever f has a true one that comes from them. */
module FactorSearch {
  import opened Rings
  import opened Polys
  import opened Vectors
  import opened Numbers
  import opened Powers
  import opened PrimeField
  import opened IntPolys
  import opened Recombination
  import opened ModularProducts
  import opened SubsetSearch

  // ----- collecting the factors -----

  /** u holds the non-constant entries with their trailing zeros dropped, each as often as it is given and in
      the given order: entry k is the one at position places[k]. */
  ghost predicate KeepsNonConstant(lifted: seq<seq<int>>, u: seq<IntPoly>, places: seq<nat>) {
    && |places| == |u| && Increasing(places) && Within(places, |lifted|)
    && (forall k :: 0 <= k < |u| ==> u[k] == Norm(Integers(), lifted[places[k]]))
    && forall i: nat :: i < |lifted| ==> (i in places <==> |Norm(Integers(), lifted[i])| >= 2)
  }

  method CollectUsable(lifted: seq<seq<int>>, maxDegree: nat)
    returns (u: seq<IntPoly>, selectable: bool, ghost places: seq<nat>)
    ensures KeepsNonConstant(lifted, u, places)
    ensures selectable <==> exists i :: 0 <= i < |u| && |u[i]| - 1 <= maxDegree
  {
    hide IsRing, Norm, IsPoly;
    u, selectable, places := [], false, [];
    IntegersAreDomain();
    assert lifted[..0] == [];
    for k := 0 to |lifted|
      invariant KeepsNonConstant(lifted[..k], u, places)
      invariant selectable <==> exists i :: 0 <= i < |u| && |u[i]| - 1 <= maxDegree
    {
      var factor := StripTrailing(Integers(), lifted[k]);
      assert lifted[..k + 1] == lifted[..k] + [lifted[k]];
      KeepsNext(lifted[..k], u, places, lifted[k]);
      if |factor| >= 2 {
        if |factor| - 1 <= maxDegree { selectable := true; }
        ghost var before := u;
        u := u + [factor];
        places := places + [k];
        assert forall i :: 0 <= i < |before| ==> u[i] == before[i];
        assert u[|before|] == factor;
      }
    }
    assert lifted[..|lifted|] == lifted;
  }

  lemma KeepsNext(lifted: seq<seq<int>>, u: seq<IntPoly>, places: seq<nat>, g: seq<int>)
    requires KeepsNonConstant(lifted, u, places)
    ensures var h := Norm(Integers(), g);
      if |h| >= 2 then KeepsNonConstant(lifted + [g], u + [h], places + [|lifted|])
      else KeepsNonConstant(lifted + [g], u, places)
  {
    hide Norm;
    var (all, n) := (lifted + [g], |lifted|);
    assert all[n] == g && forall i :: 0 <= i < n ==> all[i] == lifted[i];
    assert n !in places;
    var more := places + [n];
    forall i: nat ensures i in more <==> i in places || i == n {}
  }

  lemma UsableIn(lifted: seq<seq<int>>, u: seq<IntPoly>, places: seq<nat>)
    requires KeepsNonConstant(lifted, u, places)
    ensures AllPolys(u) && forall k :: 0 <= k < |u| ==> |u[k]| >= 2
  {
    IntegersAreDomain();
    forall k | 0 <= k < |u| ensures IsIntPoly(u[k]) && |u[k]| >= 2 {
      assert places[k] in places;
      NormIs(Integers(), lifted[places[k]]);
    }
  }

  // ----- the coefficient bound -----

  /** The largest absolute value of a coefficient. */
  ghost function MaxAbs(f: seq<int>): (top: nat)
    ensures forall k :: 0 <= k < |f| ==> Abs(f[k]) <= top
    ensures top == 0 || exists k :: 0 <= k < |f| && Abs(f[k]) == top
  {
    if f == [] then 0
    else
      var rest := MaxAbs(f[..|f| - 1]);
      if Abs(f[|f| - 1]) > rest then Abs(f[|f| - 1]) else rest
  }

  /** The bound on the coefficients: 2^d times the largest, plus one. */
  method FactorBound(f: seq<int>, d: nat) returns (b: int)
    ensures b == MaxAbs(f) * IPow(2, d) + 1
    ensures forall k :: 0 <= k < |f| ==> Abs(f[k]) * IPow(2, d) < b
  {
    hide IPow, Abs;
    var top := 0;
    for k := 0 to |f|
      invariant top == MaxAbs(f[..k])
    {
      assert f[..k + 1][..k] == f[..k];
      if Abs(f[k]) > top { top := Abs(f[k]); }
    }
    assert f[..|f|] == f;
    b := top;
    NoDoubling(top);
    var n := 0;
    while n < d
      invariant n <= d && b == top * IPow(2, n)
    {
      Doubling(top, n);
      b := b * 2;
      n := n + 1;
    }
    AllBelow(f, top, d);
    b := b + 1;
  }

  lemma NoDoubling(top: int)
    ensures top * IPow(2, 0) == top
  {}

  lemma Doubling(top: int, n: nat)
    ensures (top * IPow(2, n)) * 2 == top * IPow(2, n + 1)
  {
    assert 2 * (top * IPow(2, n)) == top * (2 * IPow(2, n));
  }

  lemma AllBelow(f: seq<int>, top: int, d: nat)
    requires forall k :: 0 <= k < |f| ==> Abs(f[k]) <= top
    ensures forall k :: 0 <= k < |f| ==> Abs(f[k]) * IPow(2, d) <= top * IPow(2, d)
  {
    IPowPositive(2, d);
    forall k | 0 <= k < |f| ensures Abs(f[k]) * IPow(2, d) <= top * IPow(2, d) {
      LargerOrEqual(IPow(2, d), top, Abs(f[k]));
    }
  }

  // ----- the product of a selection -----

  /** The selected entries, stripped. */
  ghost function Chosen(lifted: seq<seq<int>>, js: seq<nat>): (fs: seq<IntPoly>)
    requires Within(js, |lifted|)
    ensures |fs| == |js| && forall k :: 0 <= k < |js| ==> fs[k] == Norm(Integers(), lifted[js[k]])
  {
    seq(|js|, k requires 0 <= k < |js| => Norm(Integers(), lifted[js[k]]))
  }

  /** Positions of non-constant entries, at least one, whose product has degree at most maxDegree. */
  ghost predicate Selection(lifted: seq<seq<int>>, js: seq<nat>, maxDegree: nat) {
    && js != [] && Increasing(js) && Within(js, |lifted|)
    && (forall k :: 0 <= k < |js| ==> |Norm(Integers(), lifted[js[k]])| >= 2)
    && |Product(Chosen(lifted, js))| - 1 <= maxDegree
  }

  /** lc(f) times the product over Z of the selected entries, reduced modulo m and centred. */
  ghost function CentredProduct(f: IntPoly, lifted: seq<seq<int>>, m: int, js: seq<nat>): IntPoly
    requires f != [] && m > 1 && Within(js, |lifted|)
  {
    CentredAll(Modulo(m, ScaleBy(f[|f| - 1], Product(Chosen(lifted, js)))), m)
  }

  ghost predicate SelectionPasses(f: IntPoly, lifted: seq<seq<int>>, m: int, maxDegree: nat, js: seq<nat>)
    requires f != [] && m > 1
  {
    && Selection(lifted, js, maxDegree)
    && CandidatePasses(f, CentredProduct(f, lifted, m, js), maxDegree, MaxAbs(f) * IPow(2, maxDegree) + 1)
  }

  // the running product over the bits is the integer product over the positions, reduced
  lemma {:induction false} ProductOfIndices(lead: int, u: seq<IntPoly>, t: seq<bool>, m: int, k: nat)
    requires m > 1 && k <= |u| == |t| && AllPolys(u)
    ensures Within(Indices(t, k), |u|) && AllPolys(Entries(u, Indices(t, k)))
    ensures IsIntPoly(Product(Entries(u, Indices(t, k))))
    ensures SubsetProduct(lead, u, t, m, k) == Modulo(m, ScaleBy(lead, Product(Entries(u, Indices(t, k)))))
  {
    hide Product, PMul, Modulo, Scale, IsPoly, FpMod, ModInverse;
    IndicesAre(t, k);
    forall a | 0 <= a < |Indices(t, k)| ensures Indices(t, k)[a] < |u| { assert Indices(t, k)[a] in Indices(t, k); }
    var fs := Entries(u, Indices(t, k));
    if k == 0 {
      ProductSnoc([], []) by { EmptyIsPoly(); }
      ReducedLead(lead, m);
      assert fs == [];
    } else {
      ProductOfIndices(lead, u, t, m, k - 1);
      var before := Entries(u, Indices(t, k - 1));
      if t[k - 1] {
        assert fs == before + [u[k - 1]];
        ProductSnoc(before, u[k - 1]);
        LeadThrough(lead, Product(before), u[k - 1], m);
      } else {
        assert fs == before;
      }
    }
    ProductIsPoly(fs);
  }

  lemma EmptyIsPoly()
    ensures IsIntPoly([]) && AllPolys([])
  {}

  lemma ProductIsPoly(fs: seq<IntPoly>)
    requires AllPolys(fs)
    ensures IsIntPoly(Product(fs))
  {
    EmptyIsPoly();
    ProductSnoc(fs, []);
  }

  lemma ReducedLead(lead: int, m: int)
    requires m > 1
    ensures Const(Fp(m), FpMod(lead, m)) == Modulo(m, ScaleBy(lead, [1]))
  {
    hide Modulo, FpMod, ModInverse;
    EmptyIsPoly();
    ModuloCons(m, lead, []);
    ModuloIs(m, [], []);
    assert [1][1..] == [];
    assert ScaleBy(lead, [1]) == Cons(Integers(), lead, []);
  }

  // lead (p g) reduced is the product of lead p and g reduced
  lemma LeadThrough(lead: int, p: IntPoly, g: IntPoly, m: int)
    requires m > 1 && IsIntPoly(p) && IsIntPoly(g)
    ensures IsIntPoly(Times(p, g))
    ensures PMul(Fp(m), Modulo(m, ScaleBy(lead, p)), Norm(Fp(m), Residues(m, g)))
         == Modulo(m, ScaleBy(lead, Times(p, g)))
  {
    hide Scale, PMul;
    IntegersAreDomain();
    ScalePoly(Integers(), lead, p);
    PMulPoly(Integers(), p, g);
    ScaleMul(Integers(), lead, p, g);
    ModuloTimes(m, ScaleBy(lead, p), g);
  }

  // the degrees of the selected factors add up to the degree of their product
  lemma {:induction false} DegreeOfIndices(u: seq<IntPoly>, t: seq<bool>, k: nat)
    requires k <= |u| == |t| && AllPolys(u) && forall i :: 0 <= i < |u| ==> |u[i]| >= 2
    ensures Within(Indices(t, k), |u|) && Product(Entries(u, Indices(t, k))) != []
    ensures Selected(t, Degrees(u), 0) == |Product(Entries(u, Indices(t, k)))| - 1 + Selected(t, Degrees(u), k)
  {
    hide Product;
    IndicesAre(t, k);
    forall a | 0 <= a < |Indices(t, k)| ensures Indices(t, k)[a] < |u| { assert Indices(t, k)[a] in Indices(t, k); }
    var fs := Entries(u, Indices(t, k));
    if k == 0 {
      EmptyProduct();
      assert fs == [];
    } else {
      DegreeOfIndices(u, t, k - 1);
      var before := Entries(u, Indices(t, k - 1));
      if t[k - 1] {
        assert fs == before + [u[k - 1]];
        ProductLen(before, u[k - 1]);
      } else {
        assert fs == before;
      }
    }
  }

  // ----- selections of the given list and of the collected one -----

  /** The positions in the given list of what t selects from the collected one. */
  ghost function Placed(places: seq<nat>, t: seq<bool>): seq<nat>
    requires |t| == |places|
  {
    IndicesAre(t, |t|);
    IndicesWithin(t);
    Entries(places, Indices(t, |t|))
  }

  lemma IndicesWithin(t: seq<bool>)
    ensures Within(Indices(t, |t|), |t|)
  {
    IndicesAre(t, |t|);
    forall a | 0 <= a < |Indices(t, |t|)| ensures Indices(t, |t|)[a] < |t| {
      assert Indices(t, |t|)[a] in Indices(t, |t|);
    }
  }

  lemma SamePassing(S: Search, lifted: seq<seq<int>>, places: seq<nat>, t: seq<bool>)
    requires Sound(S) && KeepsNonConstant(lifted, S.lifted, places) && |t| == |S.lifted|
    requires forall i :: 0 <= i < |S.lifted| ==> |S.lifted[i]| >= 1
    ensures Within(Placed(places, t), |lifted|) && Increasing(Placed(places, t))
    ensures CentredProduct(S.f, lifted, S.modulus, Placed(places, t)) == Lifted(S, t)
    ensures Selection(lifted, Placed(places, t), S.maxDegree)
      <==> (true in t && Selected(t, Degrees(S.lifted), 0) <= S.maxDegree)
  {
    hide Norm, Product, Modulo, IsIntPoly, Scale, CentredAll, KeepsNonConstant, Indices, Degrees, Selected, AllPolys;
    KeepsLength(lifted, S.lifted, places);
    var (u, js, ks) := (S.lifted, Indices(t, |t|), Placed(places, t));
    UsableIn(lifted, u, places);
    IndicesWithin(t);
    IndicesAre(t, |t|);
    PlacedAre(lifted, u, places, js, ks);
    assert Chosen(lifted, ks) == Entries(u, js);
    ProductOfIndices(S.f[|S.f| - 1], u, t, S.modulus, |t|);
    SomeIndex(t);
    DegreeOfAll(u, t);
  }

  lemma SomeIndex(t: seq<bool>)
    ensures true in t <==> Indices(t, |t|) != []
  {
    var js := Indices(t, |t|);
    IndicesAre(t, |t|);
    if true in t { var i: nat :| i < |t| && t[i]; assert i in js; }
    if js != [] { assert js[0] in js; }
  }

  lemma DegreeOfAll(u: seq<IntPoly>, t: seq<bool>)
    requires |u| == |t| && AllPolys(u) && forall i :: 0 <= i < |u| ==> |u[i]| >= 2
    ensures Within(Indices(t, |t|), |u|)
    ensures Selected(t, Degrees(u), 0) == |Product(Entries(u, Indices(t, |t|)))| - 1
  {
    hide Product;
    DegreeOfIndices(u, t, |t|);
  }

  lemma PlacedAre(lifted: seq<seq<int>>, u: seq<IntPoly>, places: seq<nat>, js: seq<nat>, ks: seq<nat>)
    requires KeepsNonConstant(lifted, u, places) && Increasing(js) && Within(js, |u|)
    requires ks == Entries(places, js)
    ensures Within(ks, |lifted|) && Increasing(ks)
    ensures forall k :: 0 <= k < |ks| ==>
      u[js[k]] == Norm(Integers(), lifted[ks[k]]) && |Norm(Integers(), lifted[ks[k]])| >= 2
  {
    hide Norm;
    forall k | 0 <= k < |ks| ensures |Norm(Integers(), lifted[ks[k]])| >= 2 { assert places[js[k]] in places; }
  }

  /** Every selection of the given list is one of the collected list. */
  lemma SelectionPlaced(lifted: seq<seq<int>>, u: seq<IntPoly>, places: seq<nat>, ks: seq<nat>) returns (t: seq<bool>)
    requires KeepsNonConstant(lifted, u, places) && Increasing(ks) && Within(ks, |lifted|)
    requires forall k :: 0 <= k < |ks| ==> |Norm(Integers(), lifted[ks[k]])| >= 2
    ensures |t| == |u| && Placed(places, t) == ks
  {
    hide Norm;
    t := seq(|u|, k requires 0 <= k < |u| => places[k] in ks);
    var js := Indices(t, |t|);
    IndicesAre(t, |t|);
    IndicesWithin(t);
    PlacedAre(lifted, u, places, js, Placed(places, t));
    forall x: nat ensures x in Placed(places, t) <==> x in ks {
      if x in Placed(places, t) {
        var a :| 0 <= a < |js| && Placed(places, t)[a] == x;
        assert js[a] in js;
      }
      if x in ks {
        var b :| 0 <= b < |ks| && ks[b] == x;
        var k: nat :| k < |places| && places[k] == x;
        assert t[k] && k in js;
        var a :| 0 <= a < |js| && js[a] == k;
        assert Placed(places, t)[a] == x;
      }
    }
    SameIncreasing(Placed(places, t), ks);
  }

  lemma SearchIsOverSelections(S: Search, lifted: seq<seq<int>>, places: seq<nat>)
    requires Sound(S) && KeepsNonConstant(lifted, S.lifted, places)
    requires S.bound == MaxAbs(S.f) * IPow(2, S.maxDegree) + 1
    requires forall i :: 0 <= i < |S.lifted| ==> |S.lifted[i]| >= 1
    ensures SomePasses(S) <==> exists js :: SelectionPasses(S.f, lifted, S.modulus, S.maxDegree, js)
  {
    hide Norm, Product, CentredProduct, CandidatePasses, Lifted, KeepsNonConstant, IPow, Placed;
    if SomePasses(S) {
      var t: seq<bool> :| |t| == |S.lifted| && true in t && Selected(t, Degrees(S.lifted), 0) <= S.maxDegree
        && Passes(S, t);
      KeepsLength(lifted, S.lifted, places);
      SamePassing(S, lifted, places, t);
      assert SelectionPasses(S.f, lifted, S.modulus, S.maxDegree, Placed(places, t));
    }
    if js :| SelectionPasses(S.f, lifted, S.modulus, S.maxDegree, js) {
      var t := SelectionPlaced(lifted, S.lifted, places, js);
      SamePassing(S, lifted, places, t);
      assert Passes(S, t);
    }
  }

  lemma KeepsLength(lifted: seq<seq<int>>, u: seq<IntPoly>, places: seq<nat>)
    requires KeepsNonConstant(lifted, u, places)
    ensures |places| == |u|
  {}

  // ----- true factors -----

  /** h is a primitive proper factor of f of degree at most maxDegree, with positive lead, cofactor q and coefficients
      within the bound, and the modulus tells the coefficients of lc(q) h apart. */
  ghost predicate FactorWithin(f: IntPoly, m: int, maxDegree: nat, h: IntPoly, q: IntPoly) {
    && IsIntPoly(h) && Primitive(h) && h[|h| - 1] > 0 && IsIntPoly(q) && q != [] && f == Times(q, h)
    && 2 <= |h| < |f| && |h| - 1 <= maxDegree
    && forall k :: 0 <= k < |h| ==> WithinBound(f, maxDegree, h[k]) && 2 * Abs(q[|q| - 1] * h[k]) < m
  }

  ghost predicate WithinBound(f: IntPoly, maxDegree: nat, x: int) {
    exists i :: 0 <= i < |f| && Abs(x) <= Abs(f[i]) * IPow(2, maxDegree) + 1
  }

  /** lc(q) h is congruent to lc(f) times the product of the selected entries. */
  ghost predicate ComesFrom(f: IntPoly, lifted: seq<seq<int>>, m: int, js: seq<nat>, h: IntPoly, q: IntPoly)
    requires f != [] && q != [] && m > 1 && Within(js, |lifted|)
  {
    CongruentModulo(m, ScaleBy(q[|q| - 1], h), ScaleBy(f[|f| - 1], Product(Chosen(lifted, js))))
  }

  /** The true factor h with cofactor q comes from the selected entries of the given list. */
  ghost predicate TrueSelection(f: IntPoly, lifted: seq<seq<int>>, m: int, maxDegree: nat, js: seq<nat>, h: IntPoly,
                                q: IntPoly)
    requires f != [] && m > 1
  {
    FactorWithin(f, m, maxDegree, h, q) && Selection(lifted, js, maxDegree) && ComesFrom(f, lifted, m, js, h, q)
  }

  lemma BoundCovers(f: IntPoly, maxDegree: nat, x: int)
    requires WithinBound(f, maxDegree, x)
    ensures Abs(x) <= MaxAbs(f) * IPow(2, maxDegree) + 1
  {
    hide IPow, Abs;
    var i :| 0 <= i < |f| && Abs(x) <= Abs(f[i]) * IPow(2, maxDegree) + 1;
    AllBelow(f, MaxAbs(f), maxDegree);
  }

  /** Such a factor passes the test for the selection it comes from, which yields exactly it. */
  lemma TrueFactorSelected(f: IntPoly, lifted: seq<seq<int>>, m: int, maxDegree: nat, js: seq<nat>, h: IntPoly,
                           q: IntPoly)
    requires IsIntPoly(f) && f != [] && m > 1 && TrueSelection(f, lifted, m, maxDegree, js, h, q)
    ensures SelectionPasses(f, lifted, m, maxDegree, js)
    ensures forall c :: IsPrimitivePart(CentredProduct(f, lifted, m, js), c) ==> c == h
  {
    hide Product, Times, IPow, Primitive, ScaleBy, CentredAll, Content, WithinBound, CentredProduct, DividesOverQ,
         TooLarge, IsIntPoly;
    var (s, bound) := (q[|q| - 1], MaxAbs(f) * IPow(2, maxDegree) + 1);
    var g := ScaleBy(s, h);
    ScaledFactor(f, h, q, s);
    forall k | 0 <= k < |h| ensures g[k] == s * h[k] && Abs(h[k]) <= bound {
      ScaledAt(s, h, g, k);
      BoundCovers(f, maxDegree, h[k]);
    }
    CentredIs(f, lifted, m, js, g);
    SameOverQ(f, g, h, s);
    LargeIsTooLarge(g, h, s, bound);
    assert IsPrimitivePart(g, h);
    forall c | IsPrimitivePart(g, c) ensures c == h { PrimitivePartUnique(g, h, c); }
  }

  // centring recovers a polynomial with small coefficients
  lemma CentredIs(f: IntPoly, lifted: seq<seq<int>>, m: int, js: seq<nat>, g: IntPoly)
    requires f != [] && m > 1 && Within(js, |lifted|) && IsIntPoly(g) && forall k :: 0 <= k < |g| ==> 2 * Abs(g[k]) < m
    requires CongruentModulo(m, g, ScaleBy(f[|f| - 1], Product(Chosen(lifted, js))))
    ensures CentredProduct(f, lifted, m, js) == g
  {
    hide Product, ScaleBy, CentredAll, Norm, FpMod;
    CentreUndoesResidues(g, m);
    CongruentIff(m, g, ScaleBy(f[|f| - 1], Product(Chosen(lifted, js))));
  }

  // ----- the whole search -----

  /** c is what the test makes of the selection: the primitive part of its centred product. */
  ghost predicate SelectionYields(f: IntPoly, lifted: seq<seq<int>>, m: int, maxDegree: nat, js: seq<nat>, c: IntPoly)
    requires f != [] && m > 1
  {
    SelectionPasses(f, lifted, m, maxDegree, js) && IsPrimitivePart(CentredProduct(f, lifted, m, js), c)
  }

  /** The whole search: something is found exactly when some selection of the given non-constant factors passes
      the test, and always when a true factor within the bounds comes from one. */
  method FindFactor(f: IntPoly, lifted: seq<seq<int>>, modulus: int, maxDegree: nat) returns (r: Option<IntPoly>)
    requires IsIntPoly(f)
    ensures f == [] || modulus <= 1 || lifted == [] ==> r.None?
    ensures f != [] && modulus > 1 ==> (r.Some? <==> exists js :: SelectionPasses(f, lifted, modulus, maxDegree, js))
    ensures r.Some? ==> Certified(f, r.value) && |r.value| - 1 <= maxDegree
    ensures r.Some? ==> exists js :: SelectionYields(f, lifted, modulus, maxDegree, js, r.value)
    ensures f != [] && modulus > 1 ==>
      forall js, h, q :: TrueSelection(f, lifted, modulus, maxDegree, js, h, q) ==> r.Some?
  {
    hide Passes, Certified, Failed, SomePasses, IsIntPoly, IPow, KeepsNonConstant, TrueSelection,
         CandidatePasses, CentredProduct, Product, Norm, Lifted, IsPrimitivePart;
    if f == [] || modulus <= 1 { return None; }
    if lifted == [] {
      forall js ensures !Selection(lifted, js, maxDegree) { NothingSelected(js, maxDegree); }
      forall js, h, q ensures !TrueSelection(f, lifted, modulus, maxDegree, js, h, q) {
        NoTrueSelection(f, modulus, maxDegree, js, h, q);
      }
      return None;
    }
    var u, selectable, places := CollectUsable(lifted, maxDegree);
    UsableIn(lifted, u, places);
    KeepsLength(lifted, u, places);
    var b := FactorBound(f, maxDegree);
    var S := Search(f, u, modulus, maxDegree, b);
    SearchIsOverSelections(S, lifted, places);
    forall js, h, q | TrueSelection(f, lifted, modulus, maxDegree, js, h, q) ensures SomePasses(S) {
      TrueFactorSelected(f, lifted, modulus, maxDegree, js, h, q);
    }
    if !selectable {
      NoneSelectable(S);
      return None;
    }
    var selected := new bool[|u|];
    for i := 0 to |u|
      invariant forall j :: 0 <= j < i ==> !selected[j]
    {
      selected[i] := false;
    }
    FailedIsNone(S, selected[..]);
    r := RecombineFrom(S, Degrees(u), 0, selected, 0);
    if r.Some? { FoundYields(S, lifted, places, selected[..], r.value); }
  }

  lemma NothingSelected(js: seq<nat>, maxDegree: nat)
    ensures !Selection([], js, maxDegree)
  {}

  lemma NoTrueSelection(f: IntPoly, m: int, maxDegree: nat, js: seq<nat>, h: IntPoly, q: IntPoly)
    requires f != [] && m > 1
    ensures !TrueSelection(f, [], m, maxDegree, js, h, q)
  {}

  lemma FoundYields(S: Search, lifted: seq<seq<int>>, places: seq<nat>, t: seq<bool>, c: IntPoly)
    requires Sound(S) && KeepsNonConstant(lifted, S.lifted, places) && |t| == |S.lifted|
    requires S.bound == MaxAbs(S.f) * IPow(2, S.maxDegree) + 1
    requires forall i :: 0 <= i < |S.lifted| ==> |S.lifted[i]| >= 1
    requires true in t && Selected(t, Degrees(S.lifted), 0) <= S.maxDegree && Passes(S, t) && Found(S, t, c)
    ensures Certified(S.f, c) && |c| - 1 <= S.maxDegree
    ensures exists js :: SelectionYields(S.f, lifted, S.modulus, S.maxDegree, js, c)
  {
    hide Norm, Product, CentredProduct, CandidatePasses, Lifted, IPow, Placed, Selected, Selection, IsPrimitivePart;
    KeepsLength(lifted, S.lifted, places);
    SamePassing(S, lifted, places, t);
    assert SelectionYields(S.f, lifted, S.modulus, S.maxDegree, Placed(places, t), c);
  }
}
