/** The extended Euclidean algorithm, and irreducibility. */
module Euclid {
  import opened Rings
  import opened Polys
  import opened Division
  import opened Comaximal

  /** One run of the extended Euclidean loop from the given state.  (The length test never fails
      over a ring; it is there so that the function is total.) */
  function ExtGcdFrom<F(==)>(K: Ring<F>, a: seq<F>, b: seq<F>, s0: seq<F>, s1: seq<F>, t0: seq<F>, t1: seq<F>)
    : Option<Bezout<F>>
    decreases |b|
  {
    if b == [] then Some(Bezout(a, s0, t0))
    else match DivMod(K, a, b)
      case None => None
      case Some(d) =>
        if |d.rem| < |b| then
          ExtGcdFrom(K, b, d.rem, s1, PSub(K, s0, PMul(K, d.quo, s1)), t1, PSub(K, t0, PMul(K, d.quo, t1)))
        else None
  }

  function ExtGcd<F(==)>(K: Ring<F>, a: seq<F>, b: seq<F>): Option<Bezout<F>> {
    if a == [] && b == [] then Some(Bezout([], [], []))
    else ExtGcdFrom(K, a, b, [K.one], [], [], [K.one])
  }

  /** r is what one round of the algorithm leaves of a and b: a itself when it is shorter, and otherwise the
      remainder, for a divisor whose leading coefficient is inverted. */
  ghost predicate IsRound<F(!new)>(K: Ring<F>, a: seq<F>, b: seq<F>, r: seq<F>) {
    && b != []
    && if |a| < |b| then r == a
       else K.inverse(b[|b| - 1]).Some? && exists q :: IsQuotient(K, a, b, Quotient(q, r))
  }

  /** A Euclidean run from a and b that ends with g and zero. */
  ghost predicate IsRun<F(!new)>(K: Ring<F>, a: seq<F>, b: seq<F>, rs: seq<seq<F>>, g: seq<F>) {
    && |rs| >= 2 && rs[0] == a && rs[1] == b && rs[|rs| - 2] == g && rs[|rs| - 1] == []
    && forall i :: 0 <= i < |rs| - 2 ==> IsRound(K, rs[i], rs[i + 1], rs[i + 2])
  }

  lemma RoundIs<F(!new)>(K: Ring<F>, a: seq<F>, b: seq<F>, r: seq<F>)
    requires IsRing(K) && IsPoly(K, a) && IsPoly(K, b)
    ensures IsRound(K, a, b, r) <==> DivMod(K, a, b).Some? && DivMod(K, a, b).value.rem == r
    ensures DivMod(K, a, b).Some? ==> IsPoly(K, DivMod(K, a, b).value.rem) && |DivMod(K, a, b).value.rem| < |b|
  {
    hide PMul, PAdd, Divide;
    DivModCorrect(K, a, b);
    if b != [] && |a| >= |b| && K.inverse(b[|b| - 1]).Some? {
      var d := DivMod(K, a, b).value;
      assert IsQuotient(K, a, b, Quotient(d.quo, d.rem));
      forall q | IsQuotient(K, a, b, Quotient(q, r)) ensures d.rem == r {
        DivisionUnique(K, a, b, d, Quotient(q, r));
      }
    }
  }

  /** Over any coefficients: the loop succeeds exactly when there is such a run, and returns its g. */
  lemma {:induction false} ExtGcdIsRun<F(!new)>(K: Ring<F>, a: seq<F>, b: seq<F>, s0: seq<F>, s1: seq<F>,
                                                t0: seq<F>, t1: seq<F>)
    requires IsRing(K) && IsPoly(K, a) && IsPoly(K, b)
    ensures var r := ExtGcdFrom(K, a, b, s0, s1, t0, t1);
      && (r.Some? ==> exists rs :: IsRun(K, a, b, rs, r.value.g))
      && forall rs, g :: IsRun(K, a, b, rs, g) ==> r.Some? && r.value.g == g
    decreases |b|
  {
    hide PMul, PAdd, PSub, IsRound, DivMod;
    if b == [] {
      assert IsRun(K, a, b, [a, b], a);
      forall rs, g | IsRun(K, a, b, rs, g) ensures g == a { RunEnds(K, a, rs, g); }
    } else {
      var dm := DivMod(K, a, b);
      forall r ensures IsRound(K, a, b, r) <==> dm.Some? && dm.value.rem == r { RoundIs(K, a, b, r); }
      RoundIs(K, a, b, []);
      if dm.Some? {
        var d := dm.value;
        var (s2, t2) := (PSub(K, s0, PMul(K, d.quo, s1)), PSub(K, t0, PMul(K, d.quo, t1)));
        ExtGcdIsRun(K, b, d.rem, s1, s2, t1, t2);
        var r := ExtGcdFrom(K, b, d.rem, s1, s2, t1, t2);
        if r.Some? {
          var rs :| IsRun(K, b, d.rem, rs, r.value.g);
          RunGrows(K, a, b, d.rem, rs, r.value.g);
        }
      }
      forall rs, g | IsRun(K, a, b, rs, g)
        ensures dm.Some? && IsRun(K, b, dm.value.rem, rs[1..], g)
      {
        RunShrinks(K, a, b, rs, g);
      }
    }
  }

  lemma FirstRound<F(!new)>(K: Ring<F>, a: seq<F>, b: seq<F>, rs: seq<seq<F>>, g: seq<F>)
    requires IsRun(K, a, b, rs, g)
    ensures |rs| > 2 ==> IsRound(K, a, b, rs[2])
  {
    hide IsRound;
    if |rs| > 2 { assert IsRound(K, rs[0], rs[1], rs[2]); }
  }

  lemma RunEnds<F(!new)>(K: Ring<F>, a: seq<F>, rs: seq<seq<F>>, g: seq<F>)
    requires IsRun(K, a, [], rs, g)
    ensures g == a
  {
    FirstRound(K, a, [], rs, g);
  }

  lemma RunGrows<F(!new)>(K: Ring<F>, a: seq<F>, b: seq<F>, r: seq<F>, rs: seq<seq<F>>, g: seq<F>)
    requires IsRound(K, a, b, r) && IsRun(K, b, r, rs, g)
    ensures IsRun(K, a, b, [a] + rs, g)
  {
    hide IsRound;
    var all := [a] + rs;
    forall i | 0 <= i < |all| - 2 ensures IsRound(K, all[i], all[i + 1], all[i + 2]) {
      assert all[i + 1] == rs[i] && all[i + 2] == rs[i + 1];
      if i > 0 { assert all[i] == rs[i - 1]; }
    }
  }

  lemma RunShrinks<F(!new)>(K: Ring<F>, a: seq<F>, b: seq<F>, rs: seq<seq<F>>, g: seq<F>)
    requires IsRun(K, a, b, rs, g) && b != []
    ensures |rs| > 2 && IsRound(K, a, b, rs[2]) && IsRun(K, b, rs[2], rs[1..], g)
  {
    hide IsRound;
    assert |rs| > 2;
    var t := rs[1..];
    forall i | 0 <= i < |t| - 2 ensures IsRound(K, t[i], t[i + 1], t[i + 2]) {
      assert t[i] == rs[i + 1] && t[i + 1] == rs[i + 2] && t[i + 2] == rs[i + 3];
    }
    FirstRound(K, a, b, rs, g);
  }

  /** r.g divides a and b, and is the stated combination of them. */
  ghost predicate IsBezout<F(!new)>(K: Ring<F>, a: seq<F>, b: seq<F>, r: Bezout<F>) {
    var P := PolyRing(K);
    && IsPoly(K, r.g) && IsPoly(K, r.s) && IsPoly(K, r.t)
    && Divides(P, r.g, a) && Divides(P, r.g, b)
    && Comb(P, r.s, a, r.t, b) == r.g
  }

  lemma DivisorThroughStep<F(!new)>(P: Ring<F>, g: F, a: F, b: F, q: F, r: F)
    requires IsRing(P) && P.has(g) && P.has(a) && P.has(b) && P.has(q) && P.has(r)
    requires P.add(P.mul(q, b), r) == a && Divides(P, g, b) && Divides(P, g, r)
    ensures Divides(P, g, a)
  {
    DividesMul(P, g, b, q);
    DividesAdd(P, g, P.mul(q, b), r);
  }

  lemma {:induction false} ExtGcdFromCorrect<F(!new)>(K: Ring<F>, A: seq<F>, B: seq<F>, a: seq<F>, b: seq<F>,
      s0: seq<F>, s1: seq<F>, t0: seq<F>, t1: seq<F>)
    requires IsRing(K) && IsPoly(K, A) && IsPoly(K, B) && IsPoly(K, a) && IsPoly(K, b)
    requires IsPoly(K, s0) && IsPoly(K, s1) && IsPoly(K, t0) && IsPoly(K, t1)
    requires Comb(PolyRing(K), s0, A, t0, B) == a && Comb(PolyRing(K), s1, A, t1, B) == b
    ensures var r := ExtGcdFrom(K, a, b, s0, s1, t0, t1);
            && (r.Some? ==>
                  && IsPoly(K, r.value.g) && IsPoly(K, r.value.s) && IsPoly(K, r.value.t)
                  && Divides(PolyRing(K), r.value.g, a) && Divides(PolyRing(K), r.value.g, b)
                  && Comb(PolyRing(K), r.value.s, A, r.value.t, B) == r.value.g)
            && (IsField(K) ==> r.Some?)
    decreases |b|
  {
    hide PMul, PAdd, PNeg, DivMod, Divides, IsField;
    PolyRingIsRing(K);
    var P := PolyRing(K);
    if b == [] {
      DividesSelf(P, a);
      DividesZero(P, a);
    } else {
      DivModCorrect(K, a, b);
      if DivMod(K, a, b).Some? {
        var d := DivMod(K, a, b).value;
        var s2, t2 := PSub(K, s0, PMul(K, d.quo, s1)), PSub(K, t0, PMul(K, d.quo, t1));
        CombStep(P, s0, s1, t0, t1, d.quo, A, B);
        SubOfSum(P, PMul(K, d.quo, b), d.rem, a);
        assert P.has(s2) && P.has(t2);
        ExtGcdFromCorrect(K, A, B, b, d.rem, s1, s2, t1, t2);
        var r := ExtGcdFrom(K, b, d.rem, s1, s2, t1, t2);
        if r.Some? {
          DivisorThroughStep(P, r.value.g, a, b, d.quo, d.rem);
        }
      }
    }
  }

  /** The algorithm succeeds exactly when some run leads from a and b to zero, and g is what that run ends with. */
  lemma ExtGcdIff<F(!new)>(K: Ring<F>, a: seq<F>, b: seq<F>)
    requires IsRing(K) && IsPoly(K, a) && IsPoly(K, b)
    ensures ExtGcd(K, a, b).Some? <==> exists rs, g :: IsRun(K, a, b, rs, g)
    ensures forall rs, g :: IsRun(K, a, b, rs, g) ==> ExtGcd(K, a, b).Some? && ExtGcd(K, a, b).value.g == g
  {
    hide IsRound, ExtGcdFrom;
    ExtGcdIsRun(K, a, b, [K.one], [], [], [K.one]);
    if a == [] && b == [] {
      assert IsRun(K, a, b, [a, b], a);
      forall rs, g | IsRun(K, a, b, rs, g) ensures g == a { RunEnds(K, a, rs, g); }
    } else if ExtGcd(K, a, b).Some? {
      var rs :| IsRun(K, a, b, rs, ExtGcd(K, a, b).value.g);
    }
  }

  lemma ExtGcdCorrect<F(!new)>(K: Ring<F>, a: seq<F>, b: seq<F>)
    requires IsRing(K) && IsPoly(K, a) && IsPoly(K, b)
    ensures ExtGcd(K, a, b).Some? ==> IsBezout(K, a, b, ExtGcd(K, a, b).value)
    ensures IsField(K) ==> ExtGcd(K, a, b).Some?
  {
    PolyRingIsRing(K);
    var P := PolyRing(K);
    MulZero(P, a);
    MulZero(P, b);
    MulOne(P, a);
    MulOne(P, b);
    AddZero(P, a);
    AddZero(P, b);
    if a == [] && b == [] {
      DividesSelf(P, []);
    } else {
      assert P.one == [K.one];
      ExtGcdFromCorrect(K, a, b, a, b, [K.one], [], [], [K.one]);
    }
  }

  ghost predicate Irreducible<F(!new)>(K: Ring<F>, m: seq<F>) {
    && |m| >= 2
    && forall p, q {:trigger PMul(K, p, q)} ::
         IsPoly(K, p) && IsPoly(K, q) && PMul(K, p, q) == m ==> |p| == 1 || |q| == 1
  }

  lemma DivisorLen<F(!new)>(K: Ring<F>, d: seq<F>, a: seq<F>)
    requires IsDomain(K) && IsPoly(K, d) && IsPoly(K, a) && a != [] && Divides(PolyRing(K), d, a)
    ensures d != [] && |d| <= |a|
  {
    var q :| IsPoly(K, q) && PMul(K, q, d) == a;
    PMulPoly(K, q, d);
    if d != [] && q != [] {
      PMulLen(K, q, d);
    }
  }

  /** Over a field, the greatest common divisor with an irreducible m of anything shorter is a unit. */
  lemma GcdWithIrreducible<F(!new)>(K: Ring<F>, v: seq<F>, m: seq<F>, r: Bezout<F>)
    requires IsField(K) && IsPoly(K, v) && IsPoly(K, m) && Irreducible(K, m)
    requires v != [] && |v| < |m| && IsBezout(K, v, m, r)
    ensures |r.g| == 1
  {
    FieldIsDomain(K);
    DivisorLen(K, r.g, v);
    var q :| IsPoly(K, q) && PMul(K, q, r.g) == m;
    PMulPoly(K, q, r.g);
    if |q| == 1 {
      PMulLen(K, q, r.g);
    }
  }

  // ----- comaximality -----

  // a scaled combination
  lemma ScaleComb<F(!new)>(K: Ring<F>, c: F, s: seq<F>, a: seq<F>, t: seq<F>, b: seq<F>)
    requires IsRing(K) && K.has(c) && IsPoly(K, s) && IsPoly(K, a) && IsPoly(K, t) && IsPoly(K, b)
    ensures IsPoly(K, Scale(K, c, s)) && IsPoly(K, Scale(K, c, t))
    ensures Comb(PolyRing(K), Scale(K, c, s), a, Scale(K, c, t), b) == Scale(K, c, Comb(PolyRing(K), s, a, t, b))
  {
    ScaleMul(K, c, s, a);
    ScaleMul(K, c, t, b);
    PMulPoly(K, s, a);
    PMulPoly(K, t, b);
    ScaleAdd(K, c, PMul(K, s, a), PMul(K, t, b));
    ScalePoly(K, c, s);
    ScalePoly(K, c, t);
  }

  // a constant gcd, scaled to one
  lemma ConstantCombines<F(!new)>(K: Ring<F>, a: seq<F>, b: seq<F>, r: Bezout<F>)
    requires IsField(K) && IsPoly(K, a) && IsPoly(K, b) && IsBezout(K, a, b, r) && |r.g| == 1
    ensures var inv := K.inverse(r.g[0]).value;
      && K.has(inv) && IsPoly(K, Scale(K, inv, r.s)) && IsPoly(K, Scale(K, inv, r.t))
      && Comb(PolyRing(K), Scale(K, inv, r.s), a, Scale(K, inv, r.t), b) == PolyRing(K).one
    ensures Comax(PolyRing(K), a, b)
  {
    var inv := K.inverse(r.g[0]).value;
    assert Scale(K, inv, r.g) == [K.one] by {
      MulComm(K, inv, r.g[0]);
      assert r.g[1..] == [];
    }
    assert PolyRing(K).one == [K.one];
    ScaleComb(K, inv, r.s, a, r.t, b);
    ComaxIntro(PolyRing(K), Scale(K, inv, r.s), a, Scale(K, inv, r.t), b);
  }

  lemma ComaxGcd<F(!new)>(K: Ring<F>, a: seq<F>, b: seq<F>, r: Bezout<F>)
    requires IsField(K) && IsPoly(K, a) && IsPoly(K, b) && IsBezout(K, a, b, r) && Comax(PolyRing(K), a, b)
    ensures |r.g| == 1
  {
    PolyRingIsRing(K);
    var P := PolyRing(K);
    var s, t := ComaxWitness(P, a, b);
    DividesMul(P, r.g, a, s);
    DividesMul(P, r.g, b, t);
    DividesAdd(P, r.g, P.mul(s, a), P.mul(t, b));
    FieldIsDomain(K);
    assert P.one == [K.one];
    DivisorLen(K, r.g, [K.one]);
  }

  /** A gcd is a constant exactly when the two polynomials are comaximal. */
  lemma ConstantGcd<F(!new)>(K: Ring<F>, a: seq<F>, b: seq<F>, r: Bezout<F>)
    requires IsField(K) && IsPoly(K, a) && IsPoly(K, b) && IsBezout(K, a, b, r)
    ensures |r.g| == 1 <==> Comax(PolyRing(K), a, b)
  {
    if |r.g| == 1 { ConstantCombines(K, a, b, r); }
    if Comax(PolyRing(K), a, b) { ComaxGcd(K, a, b, r); }
  }
}
