/** Simple algebraic extensions K[x]/(m), stacked to any height.

  Rung(K, m) is the coefficient ring that one extension offers to the next, so the construction
  is again an instance of the same record. */
module Tower {
  import opened Rings
  import opened Polys
  import opened Division
  import opened Euclid

  datatype AlgebraicElement<F> = AlgebraicElement(value: seq<F>, minPoly: seq<F>)

  /** Divides p by its leading coefficient. */
  function Monic<F(==)>(K: Ring<F>, p: seq<F>): Option<seq<F>> {
    if p == [] then Some([])
    else match K.inverse(p[|p| - 1])
      case None => None
      case Some(inv) => Some(Scale(K, inv, p))
  }

  /** The constructor: makes the minimal polynomial monic and reduces the value by it.  When the
      leading coefficient is not inverted the stored minimal polynomial is empty (its storage has
      been moved into the failed normalisation), and the value is stored unreduced. */
  function Make<F(==)>(K: Ring<F>, value: seq<F>, minPoly: seq<F>): AlgebraicElement<F> {
    var m := match Monic(K, minPoly) case None => [] case Some(m) => m;
    if m == [] then AlgebraicElement(value, [])
    else match DivMod(K, value, m)
      case None => AlgebraicElement([], m)
      case Some(d) => AlgebraicElement(d.rem, m)
  }

  function Negate<F(==)>(K: Ring<F>, a: AlgebraicElement<F>): AlgebraicElement<F> {
    Make(K, PNeg(K, a.value), a.minPoly)
  }

  function Plus<F(==)>(K: Ring<F>, a: AlgebraicElement<F>, b: AlgebraicElement<F>): AlgebraicElement<F> {
    Make(K, PAdd(K, a.value, b.value), a.minPoly)
  }

  function Minus<F(==)>(K: Ring<F>, a: AlgebraicElement<F>, b: AlgebraicElement<F>): AlgebraicElement<F> {
    Make(K, PSub(K, a.value, b.value), a.minPoly)
  }

  function Times<F(==)>(K: Ring<F>, a: AlgebraicElement<F>, b: AlgebraicElement<F>): AlgebraicElement<F> {
    Make(K, PMul(K, a.value, b.value), a.minPoly)
  }

  function Inverse<F(==)>(K: Ring<F>, a: AlgebraicElement<F>): Option<AlgebraicElement<F>> {
    if a.value == [] then None
    else match ExtGcd(K, a.value, a.minPoly)
      case None => None
      case Some(r) =>
        if |r.g| != 1 then None
        else match K.inverse(r.g[0])
          case None => None
          case Some(inv) => Some(Make(K, Scale(K, inv, r.s), a.minPoly))
  }

  function DividedBy<F(==)>(K: Ring<F>, a: AlgebraicElement<F>, b: AlgebraicElement<F>): Option<AlgebraicElement<F>> {
    match Inverse(K, b)
    case None => None
    case Some(i) => Some(Times(K, a, i))
  }

  ghost predicate IsElement<F(!new)>(K: Ring<F>, m: seq<F>, e: AlgebraicElement<F>) {
    e.minPoly == m && IsPoly(K, e.value) && |e.value| < |m|
  }

  /** A minimal polynomial as stored: monic, of degree at least one. */
  ghost predicate IsMinPoly<F(!new)>(K: Ring<F>, m: seq<F>) {
    IsPoly(K, m) && |m| >= 2 && m[|m| - 1] == K.one
  }

  /** The coefficient ring that K[x]/(m) offers to the extension above it. */
  ghost function Rung<F(!new)>(K: Ring<F>, m: seq<F>): Ring<AlgebraicElement<F>> {
    Ring(e => IsElement(K, m, e),
         Make(K, [], m),
         Make(K, [K.one], m),
         (a, b) => Plus(K, a, b),
         a => Negate(K, a),
         (a, b) => Times(K, a, b),
         a => Inverse(K, a))
  }

  // ----- reduction modulo m -----

  function Reduce<F(==)>(K: Ring<F>, p: seq<F>, m: seq<F>): seq<F> {
    match DivMod(K, p, m)
    case None => []
    case Some(d) => d.rem
  }

  lemma MakeReduces<F(!new)>(K: Ring<F>, p: seq<F>, m: seq<F>)
    requires IsRing(K) && IsPoly(K, p) && IsMinPoly(K, m)
    ensures Make(K, p, m) == AlgebraicElement(Reduce(K, p, m), m)
    ensures IsElement(K, m, Make(K, p, m))
    ensures DivMod(K, p, m).Some? && IsQuotient(K, p, m, DivMod(K, p, m).value)
    ensures |p| < |m| ==> Make(K, p, m) == AlgebraicElement(p, m)
  {
    InverseOne(K);
    ScaleOne(K, m);
    DivModCorrect(K, p, m);
  }

  /** When the constructor loses the modulus: exactly when it is zero or its leading coefficient is not
      inverted.  The value is then stored as given. */
  lemma MakeFails<F(!new)>(K: Ring<F>, v: seq<F>, m: seq<F>)
    requires IsRing(K) && IsPoly(K, m)
    ensures Make(K, v, m).minPoly == [] <==> m == [] || K.inverse(m[|m| - 1]).None?
    ensures Make(K, v, m).minPoly == [] ==> Make(K, v, m).value == v
  {
    if m != [] && K.inverse(m[|m| - 1]).Some? {
      var inv := K.inverse(m[|m| - 1]).value;
      MulComm(K, inv, m[|m| - 1]);
      ScaleTop(K, inv, m);
    }
  }

  lemma ReduceUnique<F(!new)>(K: Ring<F>, p: seq<F>, m: seq<F>, q: seq<F>, r: seq<F>)
    requires IsRing(K) && IsPoly(K, p) && IsMinPoly(K, m) && IsPoly(K, q) && IsPoly(K, r)
    requires |r| < |m| && PAdd(K, PMul(K, q, m), r) == p
    ensures Reduce(K, p, m) == r
  {
    MakeReduces(K, p, m);
    InverseOne(K);
    DivisionUnique(K, p, m, DivMod(K, p, m).value, Quotient(q, r));
  }

  // p == q m + r  and  r + s == u m + v   imply   p + s == (q + u) m + v
  lemma JoinQuotients<F(!new)>(P: Ring<F>, q: F, m: F, r: F, s: F, u: F, v: F)
    requires IsRing(P) && P.has(q) && P.has(m) && P.has(r) && P.has(s) && P.has(u) && P.has(v)
    requires P.add(r, s) == P.add(P.mul(u, m), v)
    ensures P.add(P.add(P.mul(q, m), r), s) == P.add(P.mul(P.add(q, u), m), v)
  {
    AddAssoc(P, P.mul(q, m), r, s);
    AddAssoc(P, P.mul(q, m), P.mul(u, m), v);
    DistrRight(P, q, u, m);
  }

  lemma ReduceAdd<F(!new)>(K: Ring<F>, m: seq<F>, p: seq<F>, s: seq<F>)
    requires IsRing(K) && IsMinPoly(K, m) && IsPoly(K, p) && IsPoly(K, s)
    ensures IsPoly(K, Reduce(K, p, m))
    ensures Reduce(K, PAdd(K, Reduce(K, p, m), s), m) == Reduce(K, PAdd(K, p, s), m)
  {
    MakeReduces(K, p, m);
    var d := DivMod(K, p, m).value;
    PAddPoly(K, d.rem, s);
    MakeReduces(K, PAdd(K, d.rem, s), m);
    var e := DivMod(K, PAdd(K, d.rem, s), m).value;
    PolyRingIsRing(K);
    JoinQuotients(PolyRing(K), d.quo, m, d.rem, s, e.quo, e.rem);
    PAddPoly(K, p, s);
    PAddPoly(K, d.quo, e.quo);
    ReduceUnique(K, PAdd(K, p, s), m, PAdd(K, d.quo, e.quo), e.rem);
  }

  // (q m + r) s == (s q) m + r s
  lemma TimesQuotient<F(!new)>(P: Ring<F>, q: F, m: F, r: F, s: F)
    requires IsRing(P) && P.has(q) && P.has(m) && P.has(r) && P.has(s)
    ensures P.mul(P.add(P.mul(q, m), r), s) == P.add(P.mul(P.mul(s, q), m), P.mul(r, s))
  {
    DistrRight(P, P.mul(q, m), r, s);
    MulComm(P, P.mul(q, m), s);
    MulAssoc(P, s, q, m);
  }

  lemma ReduceMul<F(!new)>(K: Ring<F>, m: seq<F>, p: seq<F>, s: seq<F>)
    requires IsRing(K) && IsMinPoly(K, m) && IsPoly(K, p) && IsPoly(K, s)
    ensures IsPoly(K, Reduce(K, p, m))
    ensures Reduce(K, PMul(K, Reduce(K, p, m), s), m) == Reduce(K, PMul(K, p, s), m)
  {
    MakeReduces(K, p, m);
    var d := DivMod(K, p, m).value;
    PMulPoly(K, d.rem, s);
    MakeReduces(K, PMul(K, d.rem, s), m);
    var e := DivMod(K, PMul(K, d.rem, s), m).value;
    var u := PMul(K, s, d.quo);
    PMulPoly(K, s, d.quo);
    PMulPoly(K, p, s);
    PolyRingIsRing(K);
    var P := PolyRing(K);
    TimesQuotient(P, d.quo, m, d.rem, s);
    AddZero(P, PMul(K, d.rem, s));
    JoinQuotients(P, u, m, PMul(K, d.rem, s), [], e.quo, e.rem);
    AddZero(P, PMul(K, p, s));
    PAddPoly(K, u, e.quo);
    ReduceUnique(K, PMul(K, p, s), m, PAdd(K, u, e.quo), e.rem);
  }

  // m t reduces to zero
  lemma ReduceMultiple<F(!new)>(K: Ring<F>, m: seq<F>, t: seq<F>)
    requires IsRing(K) && IsMinPoly(K, m) && IsPoly(K, t)
    ensures Reduce(K, PMul(K, t, m), m) == []
  {
    PMulPoly(K, t, m);
    PolyRingIsRing(K);
    AddZero(PolyRing(K), PMul(K, t, m));
    ReduceUnique(K, PMul(K, t, m), m, t, []);
  }

  // ----- the laws, one by one, on representatives -----

  lemma ElementAddAssoc<F(!new)>(K: Ring<F>, m: seq<F>, a: seq<F>, b: seq<F>, c: seq<F>)
    requires IsRing(K) && IsMinPoly(K, m) && IsPoly(K, a) && IsPoly(K, b) && IsPoly(K, c)
    ensures Reduce(K, PAdd(K, Reduce(K, PAdd(K, a, b), m), c), m)
         == Reduce(K, PAdd(K, a, Reduce(K, PAdd(K, b, c), m)), m)
  {
    PAddPoly(K, a, b);
    PAddPoly(K, b, c);
    ReduceAdd(K, m, PAdd(K, a, b), c);
    ReduceAdd(K, m, PAdd(K, b, c), a);
    PAddComm(K, a, Reduce(K, PAdd(K, b, c), m));
    PAddComm(K, a, PAdd(K, b, c));
    PAddAssoc(K, a, b, c);
  }

  lemma ElementMulAssoc<F(!new)>(K: Ring<F>, m: seq<F>, a: seq<F>, b: seq<F>, c: seq<F>)
    requires IsRing(K) && IsMinPoly(K, m) && IsPoly(K, a) && IsPoly(K, b) && IsPoly(K, c)
    ensures Reduce(K, PMul(K, Reduce(K, PMul(K, a, b), m), c), m)
         == Reduce(K, PMul(K, a, Reduce(K, PMul(K, b, c), m)), m)
  {
    PMulPoly(K, a, b);
    PMulPoly(K, b, c);
    ReduceMul(K, m, PMul(K, a, b), c);
    ReduceMul(K, m, PMul(K, b, c), a);
    PMulComm(K, a, Reduce(K, PMul(K, b, c), m));
    PMulComm(K, a, PMul(K, b, c));
    PMulAssoc(K, a, b, c);
  }

  lemma ElementDistr<F(!new)>(K: Ring<F>, m: seq<F>, a: seq<F>, b: seq<F>, c: seq<F>)
    requires IsRing(K) && IsMinPoly(K, m) && IsPoly(K, a) && IsPoly(K, b) && IsPoly(K, c)
    ensures Reduce(K, PMul(K, a, Reduce(K, PAdd(K, b, c), m)), m)
         == Reduce(K, PAdd(K, Reduce(K, PMul(K, a, b), m), Reduce(K, PMul(K, a, c), m)), m)
  {
    PAddPoly(K, b, c);
    PMulPoly(K, a, b);
    PMulPoly(K, a, c);
    var ab, ac := PMul(K, a, b), PMul(K, a, c);
    ReduceMul(K, m, PAdd(K, b, c), a);
    PMulComm(K, a, Reduce(K, PAdd(K, b, c), m));
    PMulComm(K, a, PAdd(K, b, c));
    PDistr(K, a, b, c);
    ReduceAdd(K, m, ac, ab);
    ReduceAdd(K, m, ab, Reduce(K, ac, m));
    PAddComm(K, ab, Reduce(K, ac, m));
    PAddComm(K, ab, ac);
  }

  // ----- every rung meets the contract of the next -----

  lemma RungClosed<F(!new)>(K: Ring<F>, m: seq<F>)
    requires IsRing(K) && IsMinPoly(K, m)
    ensures Closed(Rung(K, m))
    ensures Rung(K, m).zero == AlgebraicElement([], m) && Rung(K, m).one == AlgebraicElement([K.one], m)
  {
    MakeReduces(K, [], m);
    MakeReduces(K, [K.one], m);
    forall a, b | IsElement(K, m, a) && IsElement(K, m, b)
      ensures IsElement(K, m, Plus(K, a, b)) && IsElement(K, m, Times(K, a, b)) && IsElement(K, m, Negate(K, a))
    {
      PAddPoly(K, a.value, b.value);
      PMulPoly(K, a.value, b.value);
      PNegPoly(K, a.value);
      MakeReduces(K, PAdd(K, a.value, b.value), m);
      MakeReduces(K, PMul(K, a.value, b.value), m);
      MakeReduces(K, PNeg(K, a.value), m);
    }
  }

  lemma PlusIs<F(!new)>(K: Ring<F>, m: seq<F>, a: AlgebraicElement<F>, b: AlgebraicElement<F>)
    requires IsRing(K) && IsMinPoly(K, m) && IsElement(K, m, a) && IsElement(K, m, b)
    ensures Plus(K, a, b) == AlgebraicElement(Reduce(K, PAdd(K, a.value, b.value), m), m)
    ensures IsElement(K, m, Plus(K, a, b))
  {
    PAddPoly(K, a.value, b.value);
    MakeReduces(K, PAdd(K, a.value, b.value), m);
  }

  lemma TimesIs<F(!new)>(K: Ring<F>, m: seq<F>, a: AlgebraicElement<F>, b: AlgebraicElement<F>)
    requires IsRing(K) && IsMinPoly(K, m) && IsElement(K, m, a) && IsElement(K, m, b)
    ensures Times(K, a, b) == AlgebraicElement(Reduce(K, PMul(K, a.value, b.value), m), m)
    ensures IsElement(K, m, Times(K, a, b))
  {
    PMulPoly(K, a.value, b.value);
    MakeReduces(K, PMul(K, a.value, b.value), m);
  }

  lemma RungCommutes<F(!new)>(K: Ring<F>, m: seq<F>, a: AlgebraicElement<F>, b: AlgebraicElement<F>)
    requires IsRing(K) && IsMinPoly(K, m) && IsElement(K, m, a) && IsElement(K, m, b)
    ensures Plus(K, a, b) == Plus(K, b, a) && Times(K, a, b) == Times(K, b, a)
  {
    PAddComm(K, a.value, b.value);
    PMulComm(K, a.value, b.value);
  }

  lemma RungUnits<F(!new)>(K: Ring<F>, m: seq<F>, a: AlgebraicElement<F>)
    requires IsRing(K) && IsMinPoly(K, m) && IsElement(K, m, a)
    ensures Plus(K, AlgebraicElement([], m), a) == a
    ensures Times(K, AlgebraicElement([K.one], m), a) == a
    ensures Plus(K, a, Negate(K, a)) == AlgebraicElement([], m)
  {
    PNegPoly(K, a.value);
    MakeReduces(K, PNeg(K, a.value), m);
    PlusIs(K, m, a, Negate(K, a));
    PlusIs(K, m, AlgebraicElement([], m), a);
    TimesIs(K, m, AlgebraicElement([K.one], m), a);
    ConstMul(K, K.one, a.value);
    ScaleOne(K, a.value);
  }

  lemma RungAssociates<F(!new)>(K: Ring<F>, m: seq<F>, a: AlgebraicElement<F>, b: AlgebraicElement<F>,
                                c: AlgebraicElement<F>)
    requires IsRing(K) && IsMinPoly(K, m) && IsElement(K, m, a) && IsElement(K, m, b) && IsElement(K, m, c)
    ensures Plus(K, Plus(K, a, b), c) == Plus(K, a, Plus(K, b, c))
    ensures Times(K, Times(K, a, b), c) == Times(K, a, Times(K, b, c))
  {
    PlusIs(K, m, a, b);
    PlusIs(K, m, b, c);
    PlusIs(K, m, Plus(K, a, b), c);
    PlusIs(K, m, a, Plus(K, b, c));
    ElementAddAssoc(K, m, a.value, b.value, c.value);
    TimesIs(K, m, a, b);
    TimesIs(K, m, b, c);
    TimesIs(K, m, Times(K, a, b), c);
    TimesIs(K, m, a, Times(K, b, c));
    ElementMulAssoc(K, m, a.value, b.value, c.value);
  }

  lemma RungDistributes<F(!new)>(K: Ring<F>, m: seq<F>, a: AlgebraicElement<F>, b: AlgebraicElement<F>,
                                 c: AlgebraicElement<F>)
    requires IsRing(K) && IsMinPoly(K, m) && IsElement(K, m, a) && IsElement(K, m, b) && IsElement(K, m, c)
    ensures Times(K, a, Plus(K, b, c)) == Plus(K, Times(K, a, b), Times(K, a, c))
  {
    PlusIs(K, m, b, c);
    TimesIs(K, m, a, Plus(K, b, c));
    TimesIs(K, m, a, b);
    TimesIs(K, m, a, c);
    PlusIs(K, m, Times(K, a, b), Times(K, a, c));
    ElementDistr(K, m, a.value, b.value, c.value);
  }

  lemma RungLaws<F(!new)>(K: Ring<F>, m: seq<F>)
    requires IsRing(K) && IsMinPoly(K, m)
    ensures Laws(Rung(K, m))
  {
    var R := Rung(K, m);
    RungClosed(K, m);
    forall a, b | R.has(a) && R.has(b)
      ensures AddCommAt(R, a, b) && MulCommAt(R, a, b)
    {
      RungCommutes(K, m, a, b);
    }
    forall a, b, c | R.has(a) && R.has(b) && R.has(c)
      ensures AddAssocAt(R, a, b, c) && MulAssocAt(R, a, b, c) && DistrAt(R, a, b, c)
    {
      RungAssociates(K, m, a, b, c);
      RungDistributes(K, m, a, b, c);
    }
    forall a | R.has(a)
      ensures R.add(R.zero, a) == a && R.mul(R.one, a) == a && R.add(a, R.neg(a)) == R.zero
    {
      RungUnits(K, m, a);
    }
  }

  /** A reported inverse is one, even when K is no field or m is reducible. */
  lemma InverseCorrect<F(!new)>(K: Ring<F>, m: seq<F>, a: AlgebraicElement<F>)
    requires IsRing(K) && IsMinPoly(K, m) && IsElement(K, m, a) && Inverse(K, a).Some?
    ensures IsElement(K, m, Inverse(K, a).value)
    ensures Times(K, a, Inverse(K, a).value) == AlgebraicElement([K.one], m)
  {
    var v := a.value;
    ExtGcdCorrect(K, v, m);
    var r := ExtGcd(K, v, m).value;
    var inv := K.inverse(r.g[0]).value;
    var s := Scale(K, inv, r.s);
    ScalePoly(K, inv, r.s);
    MakeReduces(K, s, m);
    // v s == inv (r.s v) and r.s v + r.t m == g
    PMulComm(K, v, s);
    ScaleMul(K, inv, r.s, v);
    PMulPoly(K, r.s, v);
    PMulPoly(K, r.t, m);
    ScaledBezout(K, inv, r, v, m);
    ReduceMul(K, m, s, v);
    PMulComm(K, v, Reduce(K, s, m));
    TimesIs(K, m, a, Inverse(K, a).value);
  }

  // inv (s v) reduces to one when s v + t m == [g0] and g0 inv == 1
  lemma ScaledBezout<F(!new)>(K: Ring<F>, inv: F, r: Bezout<F>, v: seq<F>, m: seq<F>)
    requires IsRing(K) && IsMinPoly(K, m) && IsPoly(K, v) && IsBezout(K, v, m, r)
    requires |r.g| == 1 && K.has(inv) && K.mul(r.g[0], inv) == K.one
    ensures Reduce(K, Scale(K, inv, PMul(K, r.s, v)), m) == [K.one]
  {
    hide PMul, PAdd, Reduce;
    PolyRingIsRing(K);
    var P := PolyRing(K);
    var (a, b) := (PMul(K, r.s, v), PMul(K, r.t, m));
    PMulPoly(K, r.s, v);
    PMulPoly(K, r.t, m);
    ScaleAdd(K, inv, a, b);
    ScalePoly(K, inv, a);
    ScalePoly(K, inv, b);
    MulComm(K, inv, r.g[0]);
    assert r.g == [r.g[0]];
    assert Scale(K, inv, r.g) == [K.one];
    ScaleMul(K, inv, r.t, m);
    var t := Scale(K, inv, r.t);
    ScalePoly(K, inv, r.t);
    // a' + t m == 1, so a' == (-t) m + 1
    ReduceOneMore(K, Scale(K, inv, a), t, m);
  }

  // a + t m == 1 makes a reduce to one
  lemma ReduceOneMore<F(!new)>(K: Ring<F>, a: seq<F>, t: seq<F>, m: seq<F>)
    requires IsRing(K) && IsMinPoly(K, m) && IsPoly(K, a) && IsPoly(K, t) && IsPoly(K, [K.one])
    requires PAdd(K, a, PMul(K, t, m)) == [K.one]
    ensures Reduce(K, a, m) == [K.one]
  {
    hide PMul, PAdd, PNeg, Reduce;
    PolyRingIsRing(K);
    var P := PolyRing(K);
    PMulPoly(K, t, m);
    AddComm(P, a, PMul(K, t, m));
    SubOfSum(P, PMul(K, t, m), a, [K.one]);
    MulNeg(P, t, m);
    PNegPoly(K, t);
    AddComm(P, [K.one], P.neg(PMul(K, t, m)));
    ReduceUnique(K, a, m, PNeg(K, t), [K.one]);
  }

  /** The unit of a rung is inverted. */
  lemma OneIsInverted<F(!new)>(K: Ring<F>, m: seq<F>)
    requires IsRing(K) && IsMinPoly(K, m)
    ensures Inverse(K, AlgebraicElement([K.one], m)).Some?
  {
    var one := [K.one];
    InverseOne(K);
    var r := ExtGcd(K, one, m);
    PMulPoly(K, [], [K.one]);
    assert r == ExtGcdFrom(K, one, m, [K.one], [], [], [K.one]);
    assert DivMod(K, one, m) == Some(Quotient([], one));
    var s2, t2 := PSub(K, [K.one], PMul(K, [], [])), PSub(K, [], PMul(K, [], [K.one]));
    assert r == ExtGcdFrom(K, m, one, [], s2, [K.one], t2);
    DivModCorrect(K, m, one);
    assert DivMod(K, m, one).Some?;
    var d := DivMod(K, m, one).value;
    assert d.rem == [];
    assert r == ExtGcdFrom(K, one, [], s2, PSub(K, [], PMul(K, d.quo, s2)), t2, PSub(K, [K.one], PMul(K, d.quo, t2)));
  }

  /** The rung over any lawful coefficient ring is a lawful coefficient ring. */
  lemma RungIsRing<F(!new)>(K: Ring<F>, m: seq<F>)
    requires IsRing(K) && IsMinPoly(K, m)
    ensures IsRing(Rung(K, m))
  {
    var R := Rung(K, m);
    RungClosed(K, m);
    RungLaws(K, m);
    OneIsInverted(K, m);
    forall a | R.has(a) && R.inverse(a).Some?
      ensures R.has(R.inverse(a).value) && R.mul(a, R.inverse(a).value) == R.one
    {
      InverseCorrect(K, m, a);
    }
  }

  lemma NonZeroInverts<F(!new)>(K: Ring<F>, m: seq<F>, a: AlgebraicElement<F>)
    requires IsField(K) && IsMinPoly(K, m) && Irreducible(K, m)
    requires IsElement(K, m, a) && a.value != []
    ensures Inverse(K, a).Some?
  {
    ExtGcdCorrect(K, a.value, m);
    GcdWithIrreducible(K, a.value, m, ExtGcd(K, a.value, m).value);
  }

  // the factors of m multiply to zero modulo m
  lemma FactorsVanish<F(!new)>(K: Ring<F>, m: seq<F>, p: seq<F>, q: seq<F>)
    requires IsRing(K) && IsMinPoly(K, m)
    requires IsPoly(K, p) && IsPoly(K, q) && PMul(K, p, q) == m && |p| < |m| && |q| < |m|
    ensures Times(K, AlgebraicElement(p, m), AlgebraicElement(q, m)) == AlgebraicElement([], m)
  {
    hide Make, Reduce, PMul, Scale, Times;
    TimesIs(K, m, AlgebraicElement(p, m), AlgebraicElement(q, m));
    ConstMul(K, K.one, m);
    ScaleOne(K, m);
    assert Const(K, K.one) == [K.one];
    ReduceMultiple(K, m, [K.one]);
  }

  /** Otherwise the stored modulus is the given one up to an invertible constant, monic, and the stored value
      differs from the given one by a multiple of it. */
  lemma MakeKeeps<F(!new)>(K: Ring<F>, v: seq<F>, m: seq<F>)
    requires IsRing(K) && IsPoly(K, v) && IsPoly(K, m) && m != [] && K.inverse(m[|m| - 1]).Some?
    ensures var e := Make(K, v, m);
      && IsPoly(K, e.minPoly) && |e.minPoly| == |m| && e.minPoly[|m| - 1] == K.one
      && Scale(K, m[|m| - 1], e.minPoly) == m
      && exists q :: IsQuotient(K, v, e.minPoly, Quotient(q, e.value))
  {
    hide PMul, PAdd, IsRing;
    var (c, inv) := (m[|m| - 1], K.inverse(m[|m| - 1]).value);
    assert K.has(c) && K.has(inv) && K.mul(c, inv) == K.one by { LeadUnit(K, m); }
    MulComm(K, inv, c);
    OneNotZero(K);
    ScaleTop(K, inv, m);
    ScalePoly(K, inv, m);
    ScaleScale(K, c, inv, m);
    ScaleOne(K, m);
    InverseOne(K);
    var n := Scale(K, inv, m);
    DivModCorrect(K, v, n);
    var d := DivMod(K, v, n).value;
    assert IsQuotient(K, v, n, Quotient(d.quo, d.rem));
  }

  lemma LeadUnit<F(!new)>(K: Ring<F>, m: seq<F>)
    requires IsRing(K) && IsPoly(K, m) && m != [] && K.inverse(m[|m| - 1]).Some?
    ensures K.has(m[|m| - 1]) && K.has(K.inverse(m[|m| - 1]).value)
    ensures K.mul(m[|m| - 1], K.inverse(m[|m| - 1]).value) == K.one
  {}

  lemma OneNotZero<F(!new)>(K: Ring<F>)
    requires IsRing(K)
    ensures K.one != K.zero
  {}

  /** A proper factor of a reducible modulus is not inverted, so as a leading coefficient one rung up it
      makes the constructor lose the modulus and leave every value unreduced. */
  lemma FactorLosesModulus<F(!new)>(K: Ring<F>, m: seq<F>, p: seq<F>, q: seq<F>, n: seq<AlgebraicElement<F>>,
                                    v: seq<AlgebraicElement<F>>)
    requires IsRing(K) && IsMinPoly(K, m)
    requires IsPoly(K, p) && IsPoly(K, q) && PMul(K, p, q) == m && p != [] && q != [] && |p| < |m| && |q| < |m|
    requires IsPoly(Rung(K, m), n) && n != [] && n[|n| - 1] == AlgebraicElement(p, m)
    ensures Inverse(K, AlgebraicElement(p, m)).None?
    ensures Make(Rung(K, m), v, n) == AlgebraicElement(v, [])
  {
    var (R, a, b) := (Rung(K, m), AlgebraicElement(p, m), AlgebraicElement(q, m));
    RungIsRing(K, m);
    RungClosed(K, m);
    if Inverse(K, a).Some? {
      // q == (p i) q == (p q) i == 0
      InverseCorrect(K, m, a);
      FactorsVanish(K, m, p, q);
      var i := Inverse(K, a).value;
      MulOne(R, b);
      MulComm(R, a, i);
      MulAssoc(R, i, a, b);
      MulZero(R, i);
      assert false;
    }
    MakeFails(R, v, n);
  }

  /** For instance over Q[x]/(x^2): as a minimal polynomial, 1 + x y is lost. */
  lemma ModulusLost(v: seq<AlgebraicElement<real>>)
    ensures var m := [0.0, 0.0, 1.0];
      && IsMinPoly(Rationals(), m)
      && var n := [AlgebraicElement([1.0], m), AlgebraicElement([0.0, 1.0], m)];
         IsPoly(Rung(Rationals(), m), n) && Make(Rung(Rationals(), m), v, n) == AlgebraicElement(v, [])
  {
    hide PMul, Make, IsRing, IsField;
    RationalsAreField();
    var (K, m, x) := (Rationals(), [0.0, 0.0, 1.0], [0.0, 1.0]);
    RungClosed(K, m);
    SquareOfX(K);
    FactorLosesModulus(K, m, x, x, [AlgebraicElement([1.0], m), AlgebraicElement(x, m)], v);
  }

  lemma FieldRungSplitsTrivially<F(!new)>(K: Ring<F>, m: seq<F>, p: seq<F>, q: seq<F>)
    requires IsField(K) && IsMinPoly(K, m) && IsField(Rung(K, m))
    requires IsPoly(K, p) && IsPoly(K, q) && PMul(K, p, q) == m
    ensures |p| == 1 || |q| == 1
  {
    FieldIsDomain(K);
    PMulPoly(K, p, q);
    PMulLen(K, p, q);
    if |p| >= 2 && |q| >= 2 {
      FactorsVanish(K, m, p, q);
      RungClosed(K, m);
      NoProductVanishes(K, m, AlgebraicElement(p, m), AlgebraicElement(q, m));
    }
  }

  lemma NoProductVanishes<F(!new)>(K: Ring<F>, m: seq<F>, a: AlgebraicElement<F>, b: AlgebraicElement<F>)
    requires IsField(Rung(K, m)) && IsElement(K, m, a) && IsElement(K, m, b)
    requires Times(K, a, b) == Rung(K, m).zero
    ensures a == Rung(K, m).zero || b == Rung(K, m).zero
  {
    var R := Rung(K, m);
    FieldIsDomain(R);
    assert R.mul(a, b) == R.zero;
  }

  /** Over a field, every non-zero element of the extension is inverted exactly when the minimal
      polynomial is irreducible. */
  lemma RungIsFieldIff<F(!new)>(K: Ring<F>, m: seq<F>)
    requires IsField(K) && IsMinPoly(K, m)
    ensures IsField(Rung(K, m)) <==> Irreducible(K, m)
  {
    RungIsRing(K, m);
    RungClosed(K, m);
    var R := Rung(K, m);
    if Irreducible(K, m) {
      forall a | R.has(a)
        ensures R.inverse(a).Some? <==> a != R.zero
      {
        if a.value != [] {
          NonZeroInverts(K, m, a);
        }
      }
    }
    if IsField(R) {
      forall p, q | IsPoly(K, p) && IsPoly(K, q) && PMul(K, p, q) == m
        ensures |p| == 1 || |q| == 1
      {
        FieldRungSplitsTrivially(K, m, p, q);
      }
    }
  }

  /** Three extensions stacked on any field: the result is a field, with no further condition than that
      each minimal polynomial is irreducible over the rung below it. */
  lemma ThreeRungs<F(!new)>(K: Ring<F>, m1: seq<F>, m2: seq<AlgebraicElement<F>>,
                            m3: seq<AlgebraicElement<AlgebraicElement<F>>>)
    requires IsField(K) && IsMinPoly(K, m1) && Irreducible(K, m1)
    requires IsMinPoly(Rung(K, m1), m2) && Irreducible(Rung(K, m1), m2)
    requires IsMinPoly(Rung(Rung(K, m1), m2), m3) && Irreducible(Rung(Rung(K, m1), m2), m3)
    ensures IsField(Rung(Rung(Rung(K, m1), m2), m3))
  {
    RungIsFieldIff(K, m1);
    RungIsFieldIff(Rung(K, m1), m2);
    RungIsFieldIff(Rung(Rung(K, m1), m2), m3);
  }
}
