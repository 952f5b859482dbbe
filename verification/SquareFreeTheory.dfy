/** Square-free decomposition: the invariant of the loop, over any field of characteristic zero. */
module SquareFreeTheory {
  import opened Rings
  import opened Polys
  import opened Division
  import opened Euclid
  import opened Comaximal
  import opened Factors
  import opened Embedding

  /** z_1^m_1 * ... * z_n^m_n */
  ghost function ProdPow<F>(R: Ring<F>, zs: seq<F>, ms: seq<nat>): F
    requires |zs| == |ms|
  {
    if zs == [] then R.one
    else R.mul(ProdPow(R, zs[..|zs| - 1], ms[..|zs| - 1]), Power(R, zs[|zs| - 1], ms[|zs| - 1]))
  }

  lemma {:induction false} ProdPowHas<F(!new)>(R: Ring<F>, zs: seq<F>, ms: seq<nat>)
    requires IsRing(R) && Family(R, zs) && |zs| == |ms|
    ensures R.has(ProdPow(R, zs, ms))
  {
    if zs != [] {
      ProdPowHas(R, zs[..|zs| - 1], ms[..|zs| - 1]);
      PowerHas(R, zs[|zs| - 1], ms[|zs| - 1]);
    }
  }

  lemma ProdPowSnoc<F>(R: Ring<F>, zs: seq<F>, ms: seq<nat>, z: F, m: nat)
    requires |zs| == |ms|
    ensures ProdPow(R, zs + [z], ms + [m]) == R.mul(ProdPow(R, zs, ms), Power(R, z, m))
  {
    assert (zs + [z])[..|zs|] == zs && (ms + [m])[..|zs|] == ms;
  }

  /** Square-free, non-constant and pairwise comaximal. */
  ghost predicate Parts<F(!new)>(K: Ring<F>, zs: seq<seq<F>>) {
    && Family(PolyRing(K), zs)
    && (forall j :: 0 <= j < |zs| ==> |zs[j]| >= 2 && SquareFree(K, zs[j]))
    && PairwiseComax(PolyRing(K), zs)
  }

  /** The loop invariant: f ~ (prod z_j^m_j) * w^i * g, where w is square-free, comaximal with every
      part found so far, and divisible by every irreducible factor of g. */
  ghost predicate Decomposing<F(!new)>(K: Ring<F>, f: seq<F>, zs: seq<seq<F>>, ms: seq<nat>, w: seq<F>, g: seq<F>,
                                       i: nat)
    requires |zs| == |ms|
  {
    var P := PolyRing(K);
    && Parts(K, zs) && (forall j :: 0 <= j < |zs| ==> Comax(P, zs[j], w))
    && IsPoly(K, w) && w != [] && SquareFree(K, w)
    && IsPoly(K, g) && g != [] && RadicalIn(K, g, w)
    && Similar(K, f, Triple(P, ProdPow(P, zs, ms), w, i, g))
  }

  /** y is a greatest common divisor of w and g; z, w' and g' are w / y, y and g / y up to constants. */
  ghost predicate Splits<F(!new)>(K: Ring<F>, w: seq<F>, g: seq<F>, y: seq<F>, z: seq<F>, w': seq<F>, g': seq<F>) {
    var P := PolyRing(K);
    && IsPoly(K, y) && IsPoly(K, z) && IsPoly(K, w') && IsPoly(K, g')
    && z != [] && w' != [] && g' != []
    && Divides(P, y, w) && Divides(P, y, g) && InIdeal(P, w, g, y)
    && Similar(K, w, PMul(K, z, y)) && Similar(K, g, PMul(K, g', y)) && Similar(K, w', y)
  }

  // ----- what one round does to each part of the invariant -----

  lemma SimilarSquareFree<F(!new)>(K: Ring<F>, a: seq<F>, b: seq<F>)
    requires IsField(K) && IsPoly(K, a) && IsPoly(K, b) && Similar(K, a, b) && SquareFree(K, a)
    ensures SquareFree(K, b)
  {
    SimilarDivides(K, a, b);
    SquareFreeDivisor(K, b, a);
  }

  lemma NextComax<F(!new)>(K: Ring<F>, w: seq<F>, y: seq<F>, z: seq<F>, w': seq<F>)
    requires IsField(K) && IsPoly(K, w) && IsPoly(K, y) && IsPoly(K, z) && IsPoly(K, w') && z != []
    requires SquareFree(K, w) && Similar(K, w, PMul(K, z, y)) && Similar(K, w', y)
    ensures SquareFree(K, z) && SquareFree(K, w') && Comax(PolyRing(K), z, w')
    ensures Divides(PolyRing(K), z, w) && Divides(PolyRing(K), w', w)
  {
    PolyRingIsRing(K);
    var P := PolyRing(K);
    PMulPoly(K, z, y);
    var zy := PMul(K, z, y);
    SimilarSquareFree(K, w, zy);
    SquareFreeSplits(K, z, y);
    SimilarDivides(K, w', y);
    ComaxDivisor(P, z, w', y);
    SimilarDivides(K, w, zy);
    DividesIntro(P, z, y, zy);
    DividesTrans(P, y, zy, w);
    DividesTrans(P, w', y, w);
    MulComm(P, z, y);
    DividesIntro(P, y, z, zy);
    DividesTrans(P, z, zy, w);
    SquareFreeDivisor(K, z, w);
    SquareFreeDivisor(K, w', w);
  }

  lemma NextRadical<F(!new)>(K: Ring<F>, w: seq<F>, g: seq<F>, y: seq<F>, z: seq<F>, w': seq<F>, g': seq<F>)
    requires IsField(K) && IsPoly(K, w) && IsPoly(K, g) && Splits(K, w, g, y, z, w', g') && RadicalIn(K, g, w)
    ensures RadicalIn(K, g', w')
  {
    PolyRingIsRing(K);
    var P := PolyRing(K);
    var gy := PMul(K, g', y);
    PMulPoly(K, g', y);
    SimilarDivides(K, g, gy);
    SimilarDivides(K, w', y);
    forall p | IrreduciblePoly(K, p) && Divides(P, p, g') ensures Divides(P, p, w') {
      DividesMul(P, p, g', y);
      DividesTrans(P, p, gy, g);
      IdealDivisor(P, w, g, p, y);
      DividesTrans(P, p, y, w');
    }
  }

  // (F (z y)^i) (g y) == ((F z^i) y^(i+1)) g
  lemma ShiftPowers<F(!new)>(R: Ring<F>, F0: F, z: F, y: F, g: F, i: nat)
    requires IsRing(R) && R.has(F0) && R.has(z) && R.has(y) && R.has(g)
    ensures R.mul(R.mul(F0, Power(R, R.mul(z, y), i)), R.mul(g, y))
         == R.mul(R.mul(R.mul(F0, Power(R, z, i)), Power(R, y, i + 1)), g)
  {
    PowerOfProduct(R, z, y, i);
    var (a, b) := (Power(R, z, i), Power(R, y, i));
    PowerHas(R, z, i);
    PowerHas(R, y, i);
    MulAssoc(R, F0, a, b);
    var c := R.mul(F0, a);
    MulComm(R, g, y);
    MulAssoc(R, R.mul(c, b), y, g);
    MulAssoc(R, c, b, y);
    MulComm(R, b, y);
  }

  ghost function Triple<F>(R: Ring<F>, c: F, w: F, n: nat, g: F): F {
    R.mul(R.mul(c, Power(R, w, n)), g)
  }

  lemma TripleHas<F(!new)>(R: Ring<F>, c: F, w: F, n: nat, g: F)
    requires IsRing(R) && R.has(c) && R.has(w) && R.has(g)
    ensures R.has(Triple(R, c, w, n, g))
  {
    PowerHas(R, w, n);
  }

  lemma ReplaceFactors<F(!new)>(K: Ring<F>, c: seq<F>, w: seq<F>, v: seq<F>, n: nat, g: seq<F>, h: seq<F>)
    requires IsField(K) && IsPoly(K, c) && IsPoly(K, w) && IsPoly(K, v) && IsPoly(K, g) && IsPoly(K, h)
    requires Similar(K, w, v) && Similar(K, g, h)
    ensures Similar(K, Triple(PolyRing(K), c, w, n, g), Triple(PolyRing(K), c, v, n, h))
  {
    PolyRingIsRing(K);
    var P := PolyRing(K);
    PowerHas(P, w, n);
    PowerHas(P, v, n);
    SimilarPower(K, w, v, n);
    SimilarRefl(K, c);
    SimilarMul(K, c, c, Power(P, w, n), Power(P, v, n));
    SimilarMul(K, P.mul(c, Power(P, w, n)), P.mul(c, Power(P, v, n)), g, h);
  }

  lemma ExpandRound<F(!new)>(K: Ring<F>, f: seq<F>, F0: seq<F>, w: seq<F>, g: seq<F>, y: seq<F>, z: seq<F>,
                             g': seq<F>, i: nat)
    requires IsField(K) && IsPoly(K, F0) && IsPoly(K, w) && IsPoly(K, g)
    requires IsPoly(K, y) && IsPoly(K, z) && IsPoly(K, g')
    requires Similar(K, w, PMul(K, z, y)) && Similar(K, g, PMul(K, g', y))
    requires Similar(K, f, Triple(PolyRing(K), F0, w, i, g))
    ensures var P := PolyRing(K);
            && P.has(P.mul(F0, Power(P, z, i)))
            && Similar(K, f, Triple(P, P.mul(F0, Power(P, z, i)), y, i + 1, g'))
  {
    PolyRingIsRing(K);
    var P := PolyRing(K);
    var zy, gy := P.mul(z, y), P.mul(g', y);
    PowerHas(P, z, i);
    assert P.has(zy) && P.has(gy) && P.has(P.mul(F0, Power(P, z, i)));
    ShiftPowers(P, F0, z, y, g', i);
    TripleHas(P, F0, zy, i, gy);
    ReplaceFactors(K, F0, w, zy, i, g, gy);
    SimilarTrans(K, f, Triple(P, F0, w, i, g), Triple(P, F0, zy, i, gy));
  }

  lemma NextProduct<F(!new)>(K: Ring<F>, f: seq<F>, F0: seq<F>, w: seq<F>, g: seq<F>, y: seq<F>, z: seq<F>,
                             w': seq<F>, g': seq<F>, i: nat)
    requires IsField(K) && IsPoly(K, F0) && IsPoly(K, w) && IsPoly(K, g) && Splits(K, w, g, y, z, w', g')
    requires Similar(K, f, Triple(PolyRing(K), F0, w, i, g))
    ensures var P := PolyRing(K);
            Similar(K, f, Triple(P, P.mul(F0, Power(P, z, i)), w', i + 1, g'))
  {
    hide PMul, Similar, Divides, InIdeal, Power, Triple;
    var P := PolyRing(K);
    ExpandRound(K, f, F0, w, g, y, z, g', i);
    var c := P.mul(F0, Power(P, z, i));
    PolyRingIsRing(K);
    TripleHas(P, c, w', i + 1, g');
    SimilarSym(K, w', y);
    SimilarRefl(K, g');
    ReplaceFactors(K, c, y, w', i + 1, g', g');
    SimilarTrans(K, f, Triple(P, c, y, i + 1, g'), Triple(P, c, w', i + 1, g'));
  }

  // a constant part contributes only a constant
  lemma ConstantPower<F(!new)>(K: Ring<F>, F0: seq<F>, z: seq<F>, i: nat)
    requires IsField(K) && IsPoly(K, F0) && IsPoly(K, z) && |z| == 1
    ensures Similar(K, PMul(K, F0, Power(PolyRing(K), z, i)), F0)
  {
    PolyRingIsRing(K);
    var P := PolyRing(K);
    assert P.one == [K.one] && z == [z[0]];
    MulOne(K, z[0]);
    assert Scale(K, z[0], P.one) == z;
    SimilarIntro(K, z[0], z, P.one);
    SimilarPower(K, z, P.one, i);
    PowerOfOne(P, i);
    SimilarRefl(K, F0);
    PowerHas(P, z, i);
    SimilarMul(K, F0, F0, Power(P, z, i), P.one);
    MulOne(P, F0);
  }

  lemma {:induction false} PowerOfOne<F(!new)>(R: Ring<F>, n: nat)
    requires IsRing(R)
    ensures Power(R, R.one, n) == R.one
  {
    if n > 0 {
      PowerOfOne(R, n - 1);
      MulOne(R, R.one);
    }
  }

  lemma OldComax<F(!new)>(K: Ring<F>, zs: seq<seq<F>>, w: seq<F>, d: seq<F>)
    requires IsField(K) && Family(PolyRing(K), zs) && IsPoly(K, w) && IsPoly(K, d) && Divides(PolyRing(K), d, w)
    requires forall j :: 0 <= j < |zs| ==> Comax(PolyRing(K), zs[j], w)
    ensures forall j :: 0 <= j < |zs| ==> Comax(PolyRing(K), zs[j], d)
  {
    PolyRingIsRing(K);
    forall j | 0 <= j < |zs| ensures Comax(PolyRing(K), zs[j], d) {
      ComaxDivisor(PolyRing(K), zs[j], d, w);
    }
  }

  /** One round keeps the invariant, with the new part recorded unless it is constant. */
  lemma DecomposeStep<F(!new)>(K: Ring<F>, f: seq<F>, zs: seq<seq<F>>, ms: seq<nat>, w: seq<F>, g: seq<F>, i: nat,
      y: seq<F>, z: seq<F>, w': seq<F>, g': seq<F>)
    requires IsField(K) && |zs| == |ms| && Decomposing(K, f, zs, ms, w, g, i) && Splits(K, w, g, y, z, w', g')
    ensures |z| != 1 ==> Decomposing(K, f, zs + [z], ms + [i], w', g', i + 1)
    ensures |z| == 1 ==> Decomposing(K, f, zs, ms, w', g', i + 1)
  {
    hide PMul, Similar, Divides, InIdeal, Power, ProdPow, SquareFree, Comax, RadicalIn, Triple;
    PolyRingIsRing(K);
    var P := PolyRing(K);
    var F0 := ProdPow(P, zs, ms);
    ProdPowHas(P, zs, ms);
    NextProduct(K, f, F0, w, g, y, z, w', g', i);
    NextRadical(K, w, g, y, z, w', g');
    NextComax(K, w, y, z, w');
    OldComax(K, zs, w, z);
    OldComax(K, zs, w, w');
    if |z| == 1 {
      DropConstant(K, f, F0, z, w', g', i);
    } else {
      ProdPowSnoc(P, zs, ms, z, i);
      PartsSnoc(K, zs, z);
      var zs' := zs + [z];
      forall j | 0 <= j < |zs'| ensures Comax(P, zs'[j], w') {}
    }
  }

  lemma PartsSnoc<F(!new)>(K: Ring<F>, zs: seq<seq<F>>, z: seq<F>)
    requires Parts(K, zs) && IsPoly(K, z) && |z| >= 2 && SquareFree(K, z)
    requires forall j :: 0 <= j < |zs| ==> Comax(PolyRing(K), zs[j], z)
    ensures Parts(K, zs + [z])
  {
    hide SquareFree, Comax;
  }

  lemma DropConstant<F(!new)>(K: Ring<F>, f: seq<F>, F0: seq<F>, z: seq<F>, w': seq<F>, g': seq<F>, i: nat)
    requires IsField(K) && IsPoly(K, F0) && IsPoly(K, z) && |z| == 1 && IsPoly(K, w') && IsPoly(K, g')
    requires var P := PolyRing(K);
             Similar(K, f, Triple(P, P.mul(F0, Power(P, z, i)), w', i + 1, g'))
    ensures Similar(K, f, Triple(PolyRing(K), F0, w', i + 1, g'))
  {
    PolyRingIsRing(K);
    var P := PolyRing(K);
    var p := Power(P, w', i + 1);
    PowerHas(P, w', i + 1);
    PowerHas(P, z, i);
    ConstantPower(K, F0, z, i);
    SimilarRefl(K, p);
    SimilarRefl(K, g');
    SimilarMul(K, P.mul(F0, Power(P, z, i)), F0, p, p);
    SimilarMul(K, P.mul(P.mul(F0, Power(P, z, i)), p), P.mul(F0, p), g', g');
    SimilarTrans(K, f, P.mul(P.mul(P.mul(F0, Power(P, z, i)), p), g'), P.mul(P.mul(F0, p), g'));
  }

  /** When w has become constant nothing is left in g, and f is the product of the recorded powers. */
  lemma DecomposeEnd<F(!new)>(K: Ring<F>, f: seq<F>, zs: seq<seq<F>>, ms: seq<nat>, w: seq<F>, g: seq<F>, i: nat)
    requires IsField(K) && |zs| == |ms| && Decomposing(K, f, zs, ms, w, g, i) && |w| == 1
    ensures Similar(K, f, ProdPow(PolyRing(K), zs, ms))
  {
    PolyRingIsRing(K);
    var P := PolyRing(K);
    FieldIsDomain(K);
    if |g| >= 2 {
      var p := IrreducibleFactor(K, g);
      DivisorLen(K, p, w);
    }
    var F0 := ProdPow(P, zs, ms);
    ProdPowHas(P, zs, ms);
    ConstantPower(K, F0, w, i);
    PowerHas(P, w, i);
    var v := P.mul(F0, Power(P, w, i));
    ConstantPower(K, v, g, 1);
    MulOne(P, g);
    assert Power(P, g, 1) == g;
    SimilarTrans(K, f, P.mul(v, g), v);
    SimilarTrans(K, f, v, F0);
  }
}
