/** The Zassenhaus search on lifted factors: the product of a subset modulo p^a, centred, is tested as a
    factor of f in Z[x]. */
module SubsetSearch {
  import opened Rings
  import opened Polys
  import opened Vectors
  import opened Numbers
  import opened PrimeField
  import opened IntPolys
  import opened Recombination
  import TowerLoops

  // ----- the product of a subset -----

  /** lc(f) times the selected factors among the first k, modulo m. */
  ghost function SubsetProduct(lead: int, lifted: seq<IntPoly>, t: seq<bool>, m: int, k: nat): seq<int>
    requires m > 1 && k <= |lifted| == |t|
  {
    if k == 0 then Const(Fp(m), FpMod(lead, m))
    else
      var before := SubsetProduct(lead, lifted, t, m, k - 1);
      if t[k - 1] then PMul(Fp(m), before, Norm(Fp(m), Residues(m, lifted[k - 1]))) else before
  }

  /** The product of integer polynomials, reduced modulo m. */
  method MultiplyMod(a: seq<int>, b: seq<int>, m: int) returns (r: seq<int>)
    requires m > 1
    ensures r == PMul(Fp(m), Norm(Fp(m), Residues(m, a)), Norm(Fp(m), Residues(m, b))) && IsPoly(Fp(m), r)
  {
    FpIsRing(m);
    ResiduesIn(m, a);
    ResiduesIn(m, b);
    r := TowerLoops.PolyMul(Fp(m), Residues(m, a), Residues(m, b));
  }

  lemma ReducedAlready(p: seq<int>, m: int)
    requires m > 1 && IsPoly(Fp(m), p)
    ensures Residues(m, p) == p && Norm(Fp(m), Residues(m, p)) == p
  {
    hide IsRing, FpMod, ModInverse, Norm;
    FpIsRing(m);
    forall i | 0 <= i < |p| ensures Residues(m, p)[i] == p[i] { SmallMod(p[i], m); }
    assert Residues(m, p) == p;
    NormOfPoly(Fp(m), p);
  }

  method ProductOfSubset(lead: int, lifted: seq<IntPoly>, t: seq<bool>, m: int) returns (product: seq<int>)
    requires m > 1 && |lifted| == |t|
    ensures product == SubsetProduct(lead, lifted, t, m, |lifted|) && IsPoly(Fp(m), product)
  {
    hide IsRing, FpMod, PMul, Norm;
    FpIsRing(m);
    var c := FpMod(lead, m);
    LeadIsPoly(lead, m);
    product := StripTrailing(Fp(m), [c]);
    NormOf(Fp(m), [c], Const(Fp(m), c));
    for k := 0 to |lifted|
      invariant product == SubsetProduct(lead, lifted, t, m, k) && IsPoly(Fp(m), product)
    {
      if t[k] {
        ReducedAlready(product, m);
        product := MultiplyMod(product, lifted[k], m);
      }
    }
  }

  lemma LeadIsPoly(lead: int, m: int)
    requires m > 1
    ensures IsPoly(Fp(m), Const(Fp(m), FpMod(lead, m))) && AllIn(Fp(m), [FpMod(lead, m)])
    ensures forall i: nat :: Coeff(Fp(m), [FpMod(lead, m)], i) == Coeff(Fp(m), Const(Fp(m), FpMod(lead, m)), i)
  {
    FpIsRing(m);
    ConsPoly(Fp(m), FpMod(lead, m), []);
  }

  // ----- centring -----

  /** The representative of x modulo m that is nearest to zero. */
  function Centred(x: int, m: int): (c: int)
    requires m > 0
    ensures FpMod(c, m) == FpMod(x, m) && -m < 2 * c <= m
  {
    var r := FpMod(x, m);
    var c := if 2 * r > m then r - m else r;
    CentredCong(x, r, c, m);
    c
  }

  lemma CentredCong(x: int, r: int, c: int, m: int)
    requires m > 0 && r == x % m && (c == r || c == r - m)
    ensures c % m == x % m
  {
    ModAdd(r, -m, m);
    assert (-m) % m == 0 by { assert -m == (-1) * m + 0; ModUnique(-m, m, -1, 0); }
    SmallMod(r, m);
  }

  /** It is the only one. */
  lemma CentredUnique(x: int, c: int, m: int)
    requires m > 0 && c % m == x % m && -m < 2 * c <= m
    ensures Centred(x, m) == c
  {
    var d := Centred(x, m);
    CongMod(c, d, m);
    var k := DivQuotient(m, c - d);
    SmallMultiple(k, m, c - d);
  }

  function CentredAll(p: seq<int>, m: int): (c: seq<int>)
    requires m > 0
    ensures |c| == |p| && forall k :: 0 <= k < |p| ==> c[k] == Centred(p[k], m)
  {
    seq(|p|, k requires 0 <= k < |p| => Centred(p[k], m))
  }

  lemma CentredIsPoly(p: seq<int>, m: int)
    requires m > 1 && IsPoly(Fp(m), p)
    ensures IsIntPoly(CentredAll(p, m))
  {
    if p != [] {
      var x := p[|p| - 1];
      SmallMod(x, m);
      SmallMod(0, m);
      assert Centred(x, m) != 0;
    }
  }

  method Centre(p: seq<int>, m: int) returns (c: IntPoly)
    requires m > 1 && IsPoly(Fp(m), p)
    ensures c == CentredAll(p, m) && IsIntPoly(c)
  {
    c := [];
    for k := 0 to |p|
      invariant |c| == k && forall j :: 0 <= j < k ==> c[j] == Centred(p[j], m)
    {
      c := c + [Centred(p[k], m)];
    }
    CentredIsPoly(p, m);
  }

  // ----- the test of one subset -----

  datatype Search = Search(f: IntPoly, lifted: seq<IntPoly>, modulus: int, maxDegree: nat, bound: int)

  ghost predicate Sound(S: Search) {
    IsIntPoly(S.f) && S.f != [] && S.modulus > 1
  }

  /** lc(f) times the product of the subset, centred. */
  ghost function Lifted(S: Search, t: seq<bool>): IntPoly
    requires Sound(S) && |t| == |S.lifted|
  {
    CentredAll(SubsetProduct(S.f[|S.f| - 1], S.lifted, t, S.modulus, |t|), S.modulus)
  }

  ghost predicate Passes(S: Search, t: seq<bool>)
    requires Sound(S) && |t| == |S.lifted|
  {
    CandidatePasses(S.f, Lifted(S, t), S.maxDegree, S.bound)
  }

  /** The test: whatever it returns is a primitive factor of f in Z[x], the primitive part of the
      centred product. */
  method CheckSubset(S: Search, t: seq<bool>) returns (r: Option<IntPoly>)
    requires Sound(S) && |t| == |S.lifted|
    ensures r.Some? <==> Passes(S, t)
    ensures r.Some? ==> Found(S, t, r.value)
  {
    hide IsIntPoly, SubsetProduct, Certified, DividesOverQ, TooLarge, IsPrimitivePart, CentredAll;
    var product := ProductOfSubset(S.f[|S.f| - 1], S.lifted, t, S.modulus);
    if |product| <= 1 || |product| - 1 > S.maxDegree { return None; }
    var centred := Centre(product, S.modulus);
    r := CheckCandidate(S.f, centred, S.maxDegree, S.bound);
  }

  ghost predicate Found(S: Search, t: seq<bool>, c: IntPoly)
    requires Sound(S) && |t| == |S.lifted|
  {
    Certified(S.f, c) && |c| - 1 <= S.maxDegree && IsPrimitivePart(Lifted(S, t), c)
  }

  // ----- no true factor is missed -----

  /** h is a true factor of f within the caps, with cofactor q. */
  ghost predicate TrueFactor(S: Search, h: IntPoly, q: IntPoly) {
    && IsIntPoly(h) && Primitive(h) && h[|h| - 1] > 0 && IsIntPoly(q) && S.f == Times(q, h)
    && 2 <= |h| < |S.f| && |h| - 1 <= S.maxDegree
    && forall k :: 0 <= k < |h| ==> Abs(h[k]) <= S.bound
  }

  /** lc(q) h is lc(f) times the product of the subset modulo m, and the modulus is large enough to
      tell its coefficients apart. */
  ghost predicate Matches(S: Search, t: seq<bool>, h: IntPoly, q: IntPoly)
    requires Sound(S) && |t| == |S.lifted| && q != []
  {
    var g := ScaleBy(q[|q| - 1], h);
    && Norm(Fp(S.modulus), Residues(S.modulus, g)) == SubsetProduct(S.f[|S.f| - 1], S.lifted, t, S.modulus, |t|)
    && forall k :: 0 <= k < |g| ==> 2 * Abs(g[k]) < S.modulus
  }

  // centring undoes the reduction of small coefficients
  lemma CentreUndoesResidues(g: IntPoly, m: int)
    requires m > 1 && IsIntPoly(g) && forall k :: 0 <= k < |g| ==> 2 * Abs(g[k]) < m
    ensures CentredAll(Norm(Fp(m), Residues(m, g)), m) == g
  {
    hide FpMod;
    var p := Norm(Fp(m), Residues(m, g));
    FpIsRing(m);
    ResiduesIn(m, g);
    NormIs(Fp(m), Residues(m, g));
    if g != [] { LeadSurvives(g, m); }
    assert |p| == |g|;
    forall k | 0 <= k < |g| ensures Centred(p[k], m) == g[k] {
      assert p[k] == Coeff(Fp(m), p, k) == g[k] % m;
      SmallMod(p[k], m);
      CentredUnique(p[k], g[k], m);
    }
  }

  lemma LeadSurvives(g: IntPoly, m: int)
    requires m > 1 && IsIntPoly(g) && g != [] && 2 * Abs(g[|g| - 1]) < m
    ensures |Norm(Fp(m), Residues(m, g))| == |g|
  {
    FpIsRing(m);
    ResiduesIn(m, g);
    NormIs(Fp(m), Residues(m, g));
    var (p, n) := (Norm(Fp(m), Residues(m, g)), |g| - 1);
    CongMod(g[n], 0, m);
    if g[n] % m == 0 {
      var k := DivQuotient(m, g[n]);
      SmallMultiple(k, m, g[n]);
    }
    assert Coeff(Fp(m), p, n) == g[n] % m;
  }

  /** A true factor that matches a subset passes the test, and the test returns exactly it. */
  lemma TrueFactorPasses(S: Search, t: seq<bool>, h: IntPoly, q: IntPoly)
    requires Sound(S) && |t| == |S.lifted| && TrueFactor(S, h, q) && q != [] && Matches(S, t, h, q)
    ensures Passes(S, t) && forall c :: Found(S, t, c) ==> c == h
  {
    hide Primitive, Times, ScaleBy, SubsetProduct, Norm, Content;
    var s := q[|q| - 1];
    var g := ScaleBy(s, h);
    ScaledFactor(S.f, h, q, s);
    CentreUndoesResidues(g, S.modulus);
    assert Lifted(S, t) == g;
    SameOverQ(S.f, g, h, s);
    LargeIsTooLarge(g, h, s, S.bound);
    assert IsPrimitivePart(g, h);
    forall c | Found(S, t, c) ensures c == h { PrimitivePartUnique(g, h, c); }
  }

  lemma ScaledFactor(f: IntPoly, h: IntPoly, q: IntPoly, s: int)
    requires IsIntPoly(f) && IsIntPoly(h) && h != [] && IsIntPoly(q) && q != [] && f == Times(q, h) && s == q[|q| - 1]
    ensures s != 0 && IsIntPoly(ScaleBy(s, h)) && |ScaleBy(s, h)| == |h| && DividesOverQ(f, h)
  {
    IntegersAreDomain();
    ScalePoly(Integers(), s, h);
    ScaleTop(Integers(), s, h);
    ScaleOne(Integers(), f);
    DividesOverQIntro(f, h, 1, q);
  }

  // ----- the search -----

  function Degrees(lifted: seq<IntPoly>): (d: seq<nat>)
    requires forall i :: 0 <= i < |lifted| ==> |lifted[i]| >= 1
    ensures |d| == |lifted| && forall i :: 0 <= i < |d| ==> d[i] == |lifted[i]| - 1
  {
    seq(|lifted|, i requires 0 <= i < |lifted| => |lifted[i]| - 1)
  }

  /** No extension of s that selects something between start and upto passes. */
  ghost predicate Failed(S: Search, s: seq<bool>, degrees: seq<nat>, start: nat, used: nat, upto: nat)
    requires Sound(S) && |s| == |degrees| == |S.lifted| && start <= |s|
  {
    forall t: seq<bool> |
      |t| == |s| && Extension(s, t, degrees, start, used, S.maxDegree) && !NoneSelected(t, start, upto) ::
      !Passes(S, t)
  }

  // one more index: alone, and with everything after it
  lemma FailedNext(S: Search, s: seq<bool>, degrees: seq<nat>, start: nat, used: nat, index: nat)
    requires Sound(S) && |s| == |degrees| == |S.lifted| && start <= index < |s| && NoneSelected(s, start, |s|)
    requires Failed(S, s, degrees, start, used, index)
    requires used + degrees[index] > S.maxDegree || (!Passes(S, s[index := true])
      && Failed(S, s[index := true], degrees, index + 1, used + degrees[index], |s|))
    ensures Failed(S, s, degrees, start, used, index + 1)
  {
    hide Passes, Sound;
    forall t: seq<bool> |
      |t| == |s| && Extension(s, t, degrees, start, used, S.maxDegree) && !NoneSelected(t, start, index + 1)
      ensures !Passes(S, t)
    {
      if NoneSelected(t, start, index) { ExtensionSplits(s, t, degrees, start, index, used, S.maxDegree); }
    }
  }

  /** The recursive search.  Nothing is found exactly when no extension of the selection passes, and then
      the selection is as it was; what is found comes from the extension left in `selected`. */
  method RecombineFrom(S: Search, degrees: seq<nat>, start: nat, selected: array<bool>, used: nat)
    returns (r: Option<IntPoly>)
    requires Sound(S) && selected.Length == |degrees| == |S.lifted| && start <= |degrees|
    requires NoneSelected(selected[..], start, |degrees|)
    modifies selected
    ensures r.None? ==> selected[..] == old(selected[..])
    ensures r.None? <==> Failed(S, old(selected[..]), degrees, start, used, |degrees|)
    ensures r.Some? ==> Passes(S, selected[..]) && Found(S, selected[..], r.value)
    ensures r.Some? ==> Extension(old(selected[..]), selected[..], degrees, start, used, S.maxDegree)
    decreases |degrees| - start
  {
    hide Extension, Passes, Found, Sound, Failed;
    ghost var s := selected[..];
    NothingYet(S, s, degrees, start, used);
    for index := start to |degrees|
      invariant selected[..] == s && Failed(S, s, degrees, start, used, index)
    {
      var next := used + degrees[index];
      if next > S.maxDegree {
        FailedNext(S, s, degrees, start, used, index);
        continue;
      }
      selected[index] := true;
      assert selected[..] == s[index := true];
      var candidate := CheckSubset(S, selected[..]);
      SingleExtension(s, degrees, start, index, used, S.maxDegree);
      if candidate.Some? {
        NotFailed(S, s, degrees, start, used, selected[..]);
        return candidate;
      }
      var nested := RecombineFrom(S, degrees, index + 1, selected, next);
      if nested.Some? {
        ExtensionJoins(s, selected[..], degrees, start, index, used, S.maxDegree);
        NotFailed(S, s, degrees, start, used, selected[..]);
        return nested;
      }
      selected[index] := false;
      assert selected[..] == s;
      FailedNext(S, s, degrees, start, used, index);
    }
    r := None;
  }

  lemma NothingYet(S: Search, s: seq<bool>, degrees: seq<nat>, start: nat, used: nat)
    requires Sound(S) && |s| == |degrees| == |S.lifted| && start <= |s|
    ensures Failed(S, s, degrees, start, used, start)
  {}

  lemma NotFailed(S: Search, s: seq<bool>, degrees: seq<nat>, start: nat, used: nat, t: seq<bool>)
    requires Sound(S) && |s| == |degrees| == |S.lifted| && start <= |s| && |t| == |s|
    requires Extension(s, t, degrees, start, used, S.maxDegree) && Passes(S, t)
    ensures !Failed(S, s, degrees, start, used, |s|)
  {}

  // ----- the whole search -----

  /** Some non-empty subset within the degree cap passes. */
  ghost predicate SomePasses(S: Search)
    requires Sound(S) && forall i :: 0 <= i < |S.lifted| ==> |S.lifted[i]| >= 1
  {
    exists t: seq<bool> :: (
      |t| == |S.lifted| && true in t && Selected(t, Degrees(S.lifted), 0) <= S.maxDegree && Passes(S, t))
  }

  /** The search finds something whenever f has a true factor that matches a subset within the cap: "none"
      means that no lifted subset comes from a factor. */
  lemma NoFactorMissed(S: Search, t: seq<bool>, h: IntPoly, q: IntPoly)
    requires Sound(S) && forall i :: 0 <= i < |S.lifted| ==> |S.lifted[i]| >= 1
    requires |t| == |S.lifted| && true in t && Selected(t, Degrees(S.lifted), 0) <= S.maxDegree
    requires TrueFactor(S, h, q) && q != [] && Matches(S, t, h, q)
    ensures SomePasses(S)
  {
    hide Passes, TrueFactor, Matches, Sound;
    TrueFactorPasses(S, t, h, q);
  }

  lemma ExtensionOfNothing(s: seq<bool>, t: seq<bool>, degrees: seq<nat>, maxDegree: nat)
    requires |s| == |degrees| && |t| == |s|
    ensures Extension(s, t, degrees, 0, 0, maxDegree) <==> (true in t && Selected(t, degrees, 0) <= maxDegree)
  {}

  lemma FailedIsNone(S: Search, s: seq<bool>)
    requires Sound(S) && (forall i :: 0 <= i < |S.lifted| ==> |S.lifted[i]| >= 1) && |s| == |S.lifted|
    ensures Failed(S, s, Degrees(S.lifted), 0, 0, |s|) <==> !SomePasses(S)
  {
    hide Passes, Sound, Extension, Selected;
    forall t: seq<bool> | |t| == |s|
      ensures Extension(s, t, Degrees(S.lifted), 0, 0, S.maxDegree)
        <==> (true in t && Selected(t, Degrees(S.lifted), 0) <= S.maxDegree)
      ensures Extension(s, t, Degrees(S.lifted), 0, 0, S.maxDegree) ==> !NoneSelected(t, 0, |s|)
    {
      ExtensionOfNothing(s, t, Degrees(S.lifted), S.maxDegree);
      if Extension(s, t, Degrees(S.lifted), 0, 0, S.maxDegree) {
        ExtensionSelects(s, t, Degrees(S.lifted), 0, 0, S.maxDegree);
      }
    }
  }

  lemma NoneSelectable(S: Search)
    requires Sound(S) && forall i :: 0 <= i < |S.lifted| ==> |S.lifted[i]| >= 1 && |S.lifted[i]| - 1 > S.maxDegree
    ensures !SomePasses(S)
  {
    hide Passes, Sound;
    forall t: seq<bool> | |t| == |S.lifted| && true in t ensures Selected(t, Degrees(S.lifted), 0) > S.maxDegree {
      var i :| 0 <= i < |t| && t[i];
      OneSelected(t, Degrees(S.lifted), 0, i);
    }
  }
}
