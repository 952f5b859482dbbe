/** The exponential prover for trigonometric identities: an expression in the sine and cosine of rational
    multiples of one variable is compiled to a quotient of Laurent polynomials in e^(ix). */
module TrigProver {
  import opened Rings
  import opened Laurent
  import opened ComplexNumbers

  // ----- expressions -----

  type NonZero = d: int | d != 0 witness 1

  datatype BinaryOp = AddOp | SubOp | MulOp | DivOp | PowOp
  datatype Func = Sin | Cos | OtherFunc(name: string)

  datatype Expr =
    | IntegerLit(value: int)
    | RationalLit(numerator: int, denominator: NonZero)
    | Symbol(name: string)
    | Negation(operand: Expr)
    | Binary(op: BinaryOp, left: Expr, right: Expr)
    | Sum(terms: seq<Expr>)
    | Product(factors: seq<Expr>)
    | FuncCall(func: Func, args: seq<Expr>)
    | OtherNode(tag: nat)

  // ----- meaning -----

  /** A point of evaluation.  cis stands for t -> e^(it); other interprets whatever the prover does not
      understand, in any way at all. */
  datatype Meaning = Meaning(env: string -> real, cis: real -> Complex, other: Expr -> Option<Complex>)

  ghost predicate IsMeaning(M: Meaning) {
    IsExponential(Complexes(), M.cis)
  }

  function Real(x: real): Complex { Complex(x, 0.0) }

  const HALF := Complex(0.5, 0.0)
  const HALF_OVER_I := Complex(0.0, -0.5)
  const MINUS_HALF_OVER_I := Complex(0.0, 0.5)

  /** (e^(it) + e^(-it)) / 2 */
  ghost function CosAt(M: Meaning, t: real): Complex {
    CAdd(CMul(HALF, M.cis(t)), CMul(HALF, M.cis(-t)))
  }

  /** (e^(it) - e^(-it)) / 2i */
  ghost function SinAt(M: Meaning, t: real): Complex {
    CAdd(CMul(HALF_OVER_I, M.cis(t)), CMul(MINUS_HALF_OVER_I, M.cis(-t)))
  }

  const IMAGINARY := Complex(0.0, 1.0)

  lemma ImaginarySquare()
    ensures CMul(IMAGINARY, IMAGINARY) == CNeg(CONE)
  {}

  /** Every number is a real one plus i times a real one, and on the real ones the operations are the usual. */
  lemma RealAndImaginary(z: Complex, x: real, y: real)
    ensures z == CAdd(Real(z.re), CMul(IMAGINARY, Real(z.im)))
    ensures CAdd(Real(x), Real(y)) == Real(x + y) && CMul(Real(x), Real(y)) == Real(x * y)
  {}

  /** Cosine and sine are what e^(it) makes them: Euler's formula, the symmetries, and the sum of the squares. */
  lemma EulerFormula(M: Meaning, t: real)
    requires IsMeaning(M)
    ensures CAdd(CosAt(M, t), CMul(IMAGINARY, SinAt(M, t))) == M.cis(t)
    ensures CosAt(M, -t) == CosAt(M, t) && SinAt(M, -t) == CNeg(SinAt(M, t))
    ensures CAdd(CMul(CosAt(M, t), CosAt(M, t)), CMul(SinAt(M, t), SinAt(M, t))) == CONE
  {
    assert Multiplies(Complexes(), M.cis, t, -t) && t + -t == 0.0;
    SquaresSum(M, t, M.cis(t), M.cis(-t));
  }

  lemma SquaresSum(M: Meaning, t: real, a: Complex, b: Complex)
    requires a == M.cis(t) && b == M.cis(-t) && CMul(a, b) == CONE
    ensures CAdd(CMul(CosAt(M, t), CosAt(M, t)), CMul(SinAt(M, t), SinAt(M, t))) == CONE
  {
    var (p, q, u, v) := (a.re / 2.0, a.im / 2.0, b.re / 2.0, b.im / 2.0);
    assert CosAt(M, t) == Complex(p + u, q + v) && SinAt(M, t) == Complex(q - v, u - p);
    SquaresOfParts(p, q, u, v);
    assert a == Complex(2.0 * p, 2.0 * q) && b == Complex(2.0 * u, 2.0 * v);
  }

  lemma SquaresOfParts(p: real, q: real, u: real, v: real)
    ensures CAdd(CMul(Complex(p + u, q + v), Complex(p + u, q + v)), CMul(Complex(q - v, u - p), Complex(q - v, u - p)))
         == CMul(Complex(2.0 * p, 2.0 * q), Complex(2.0 * u, 2.0 * v))
  {}

  ghost function Lift(f: (Complex, Complex) -> Option<Complex>, a: Option<Complex>, b: Option<Complex>)
    : Option<Complex>
  {
    if a.Some? && b.Some? then f(a.value, b.value) else None
  }

  ghost function Quotient(a: Complex, b: Complex): Option<Complex> {
    match CInverse(b)
    case None => None
    case Some(i) => Some(CMul(a, i))
  }

  ghost function IntPower(a: Complex, n: int): Option<Complex> {
    if n >= 0 then Some(Power(Complexes(), a, n))
    else match CInverse(a)
      case None => None
      case Some(i) => Some(Power(Complexes(), i, -n))
  }

  /** The value of an expression at the point; None where a denominator is zero. */
  ghost function Denote(M: Meaning, e: Expr): Option<Complex>
    decreases e
  {
    match e
    case IntegerLit(n) => Some(Real(n as real))
    case RationalLit(n, d) => Some(Real(n as real / d as real))
    case Symbol(s) => Some(Real(M.env(s)))
    case Negation(x) => (match Denote(M, x) case None => None case Some(v) => Some(CNeg(v)))
    case Sum(ts) => DenoteSum(M, e, |ts|)
    case Product(fs) => DenoteProduct(M, e, |fs|)
    case FuncCall(f, args) =>
      if (f.Sin? || f.Cos?) && |args| == 1 then
        match Denote(M, args[0])
        case None => None
        case Some(t) =>
          if t.im != 0.0 then M.other(e)
          else if f.Sin? then Some(SinAt(M, t.re)) else Some(CosAt(M, t.re))
      else M.other(e)
    case Binary(op, l, r) =>
      (match op
       case AddOp => Lift((a, b) => Some(CAdd(a, b)), Denote(M, l), Denote(M, r))
       case SubOp => Lift((a, b) => Some(CAdd(a, CNeg(b))), Denote(M, l), Denote(M, r))
       case MulOp => Lift((a, b) => Some(CMul(a, b)), Denote(M, l), Denote(M, r))
       case DivOp => Lift((a, b) => Quotient(a, b), Denote(M, l), Denote(M, r))
       case PowOp =>
         if r.IntegerLit? then (match Denote(M, l) case None => None case Some(v) => IntPower(v, r.value))
         else M.other(e))
    case OtherNode(_) => M.other(e)
  }

  ghost function DenoteSum(M: Meaning, e: Expr, k: nat): Option<Complex>
    requires e.Sum? && k <= |e.terms|
    decreases e, k
  {
    if k == 0 then Some(CZERO)
    else Lift((a, b) => Some(CAdd(a, b)), DenoteSum(M, e, k - 1), Denote(M, e.terms[k - 1]))
  }

  ghost function DenoteProduct(M: Meaning, e: Expr, k: nat): Option<Complex>
    requires e.Product? && k <= |e.factors|
    decreases e, k
  {
    if k == 0 then Some(CONE)
    else Lift((a, b) => Some(CMul(a, b)), DenoteProduct(M, e, k - 1), Denote(M, e.factors[k - 1]))
  }

  // ----- what the values of the nodes have to do with each other -----

  /** Division fails for nothing but a missing operand or a zero divisor, and multiplication undoes it. */
  lemma QuotientUndone(M: Meaning, a: Expr, b: Expr)
    ensures var (v, w, z) := (Denote(M, a), Denote(M, b), Denote(M, Binary(DivOp, a, b)));
      (z.Some? <==> v.Some? && w.Some? && w.value != CZERO) && (z.Some? ==> CMul(z.value, w.value) == v.value)
  {
    hide CMul, CInverse;
    InverseOfZero();
    var (v, w) := (Denote(M, a), Denote(M, b));
    if v.Some? && w.Some? && w.value != CZERO {
      InverseWorks(w.value);
      var i := CInverse(w.value).value;
      MulAssociates(v.value, i, w.value);
      MulCommutes(i, w.value);
      MulCommutes(v.value, CONE);
      OneTimes(v.value);
    }
  }

  /** Addition undoes subtraction and negation; a rational literal times its denominator is its numerator. */
  lemma DifferenceUndone(M: Meaning, a: Expr, b: Expr, n: int, d: NonZero)
    ensures var (v, w, z) := (Denote(M, a), Denote(M, b), Denote(M, Binary(SubOp, a, b)));
      (z.Some? <==> v.Some? && w.Some?) && (z.Some? ==> CAdd(z.value, w.value) == v.value)
    ensures var (v, z) := (Denote(M, a), Denote(M, Negation(a)));
      (z.Some? <==> v.Some?) && (z.Some? ==> CAdd(z.value, v.value) == CZERO)
    ensures CMul(Denote(M, RationalLit(n, d)).value, Denote(M, IntegerLit(d)).value) == Denote(M, IntegerLit(n)).value
  {
    hide CMul, CAdd, CNeg;
    RatioTimes(n, d);
    var (v, w) := (Denote(M, a), Denote(M, b));
    if v.Some? {
      SubtractAdd(v.value, v.value);
      if w.Some? { SubtractAdd(v.value, w.value); }
    }
  }

  lemma SubtractAdd(v: Complex, w: Complex)
    ensures CAdd(CAdd(v, CNeg(w)), w) == v && CAdd(CNeg(v), v) == CZERO
  {}

  lemma RatioTimes(n: int, d: NonZero)
    ensures CMul(Real(n as real / d as real), Real(d as real)) == Real(n as real)
  {}

  /** Powers: the zeroth is one, each is the one before times the base, and a negative one is the inverse. */
  lemma ValuesOfPowers(M: Meaning, a: Expr, n: nat)
    requires Denote(M, a).Some?
    ensures Denote(M, Binary(PowOp, a, IntegerLit(0))) == Some(CONE)
    ensures Denote(M, Binary(PowOp, a, IntegerLit(n))).Some?
    ensures Denote(M, Binary(PowOp, a, IntegerLit(n + 1)))
         == Denote(M, Binary(MulOp, Binary(PowOp, a, IntegerLit(n)), a))
    ensures n > 0 ==> (Denote(M, Binary(PowOp, a, IntegerLit(0 - n))).Some? <==> Denote(M, a).value != CZERO)
    ensures n > 0 && Denote(M, a).value != CZERO ==>
      Denote(M, Binary(MulOp, Binary(PowOp, a, IntegerLit(0 - n)), Binary(PowOp, a, IntegerLit(n)))) == Some(CONE)
  {
    hide CMul, CInverse;
    var v := Denote(M, a).value;
    PowerRight(v, n);
    InverseOfZero();
    if v != CZERO {
      InverseWorks(v);
      InversePower(CInverse(v).value, v, n);
    }
  }

  lemma {:induction false} InversePower(i: Complex, v: Complex, n: nat)
    requires CMul(v, i) == CONE
    ensures CMul(Power(Complexes(), i, n), Power(Complexes(), v, n)) == CONE
  {
    hide CMul;
    OneTimes(CONE);
    if n > 0 {
      var (p, q) := (Power(Complexes(), i, n - 1), Power(Complexes(), v, n - 1));
      InversePower(i, v, n - 1);
      // (i p) (v q) == (v i) (p q)
      MulCommutes(i, p);
      MulAssociates(p, i, CMul(v, q));
      MulAssociates(i, v, q);
      MulCommutes(i, v);
      OneTimes(q);
    }
  }

  /** Sums and products take one operand after another. */
  lemma ValuesOfLists(M: Meaning, es: seq<Expr>, a: Expr)
    ensures Denote(M, Sum([])) == Some(CZERO) && Denote(M, Product([])) == Some(CONE)
    ensures Denote(M, Sum(es + [a])) == Denote(M, Binary(AddOp, Sum(es), a))
    ensures Denote(M, Product(es + [a])) == Denote(M, Binary(MulOp, Product(es), a))
  {
    hide CMul, CAdd;
    SameTerms(M, Sum(es + [a]), Sum(es), |es|);
    SameFactors(M, Product(es + [a]), Product(es), |es|);
  }

  lemma {:induction false} SameTerms(M: Meaning, e: Expr, f: Expr, k: nat)
    requires e.Sum? && f.Sum? && k <= |e.terms| && k <= |f.terms| && e.terms[..k] == f.terms[..k]
    ensures DenoteSum(M, e, k) == DenoteSum(M, f, k)
  {
    hide CAdd;
    if k > 0 {
      assert e.terms[..k - 1] == e.terms[..k][..k - 1] && e.terms[k - 1] == e.terms[..k][k - 1];
      assert f.terms[..k - 1] == f.terms[..k][..k - 1] && f.terms[k - 1] == f.terms[..k][k - 1];
      SameTerms(M, e, f, k - 1);
    }
  }

  lemma {:induction false} SameFactors(M: Meaning, e: Expr, f: Expr, k: nat)
    requires e.Product? && f.Product? && k <= |e.factors| && k <= |f.factors| && e.factors[..k] == f.factors[..k]
    ensures DenoteProduct(M, e, k) == DenoteProduct(M, f, k)
  {
    hide CMul;
    if k > 0 {
      assert e.factors[..k - 1] == e.factors[..k][..k - 1] && e.factors[k - 1] == e.factors[..k][k - 1];
      assert f.factors[..k - 1] == f.factors[..k][..k - 1] && f.factors[k - 1] == f.factors[..k][k - 1];
      SameFactors(M, e, f, k - 1);
    }
  }

  // ----- quotients of Laurent polynomials -----

  datatype LaurentRat = LaurentRat(num: LaurentMap<Complex>, den: LaurentMap<Complex>)

  /** Canonical maps, and a denominator that is never empty. */
  ghost predicate IsLaurentRat(r: LaurentRat) {
    IsLaurent(Complexes(), r.num) && IsLaurent(Complexes(), r.den) && r.den != map[]
  }

  /** The weight e^(i a x) of the frequency a at x. */
  ghost function Wave(cis: real -> Complex, x: real): real -> Complex {
    a => cis(RMul(a, x))
  }

  ghost function RMul(a: real, x: real): real { a * x }

  ghost function NumAt(r: LaurentRat, E: real -> Complex): Complex { Total(Complexes(), r.num, E) }

  ghost function DenAt(r: LaurentRat, E: real -> Complex): Complex { Total(Complexes(), r.den, E) }

  /** v is the value of the quotient: the denominator does not vanish and v times it is the numerator. */
  ghost predicate HasValue(r: LaurentRat, E: real -> Complex, v: Complex) {
    DenAt(r, E) != CZERO && CMul(v, DenAt(r, E)) == NumAt(r, E)
  }

  lemma WaveIsExponential(cis: real -> Complex, x: real)
    requires IsExponential(Complexes(), cis)
    ensures IsExponential(Complexes(), Wave(cis, x))
  {
    var (K, E) := (Complexes(), Wave(cis, x));
    assert E(0.0) == CONE by { assert RMul(0.0, x) == 0.0; }
    forall s, t ensures Multiplies(K, E, s, t) { WaveStep(cis, x, s, t); }
  }

  lemma WaveStep(cis: real -> Complex, x: real, s: real, t: real)
    requires IsExponential(Complexes(), cis)
    ensures cis(RMul(s + t, x)) == CMul(cis(RMul(s, x)), cis(RMul(t, x)))
  {
    assert RMul(s + t, x) == RMul(s, x) + RMul(t, x);
    assert Multiplies(Complexes(), cis, RMul(s, x), RMul(t, x));
  }

  method OneMap() returns (m: LaurentMap<Complex>)
    ensures IsLaurent(Complexes(), m) && m != map[]
    ensures forall E :: IsExponential(Complexes(), E) ==> Total(Complexes(), m, E) == CONE
  {
    m := ConstMap(CONE);
    OneIsSomewhere(m);
  }

  lemma ConstantWave() returns (E: real -> Complex)
    ensures IsExponential(Complexes(), E)
  {
    E := (a: real) => CONE;
    assert CMul(CONE, CONE) == CONE;
    assert forall s, t :: Multiplies(Complexes(), E, s, t);
  }

  // the empty map has value zero everywhere
  lemma OneIsSomewhere(m: LaurentMap<Complex>)
    requires forall E :: IsExponential(Complexes(), E) ==> Total(Complexes(), m, E) == CONE
    ensures m != map[]
  {
    hide IsExponential;
    var E := ConstantWave();
    assert Total(Complexes(), m, E) == CONE;
    assert Total(Complexes(), map[], E) == CZERO;
  }

  method ConstMap(c: Complex) returns (m: LaurentMap<Complex>)
    ensures IsLaurent(Complexes(), m)
    ensures forall E :: IsExponential(Complexes(), E) ==> Total(Complexes(), m, E) == c
  {
    hide Total, IsRing, IsField, IsDomain, CMul, CAdd, Added;
    ComplexesAreField();
    m := AddTerm(Complexes(), map[], 0.0, c);
    forall E | IsExponential(Complexes(), E) ensures Total(Complexes(), m, E) == c { ConstTotal(c, E); }
  }

  lemma ConstTotal(c: Complex, E: real -> Complex)
    requires IsExponential(Complexes(), E)
    ensures CAdd(Total(Complexes(), map[], E), CMul(c, E(0.0))) == c
  {
    assert E(0.0) == CONE && Total(Complexes(), map[], E) == CZERO;
    MulCommutes(c, CONE);
    OneTimes(c);
  }

  method LrConst(c: Complex) returns (r: LaurentRat)
    ensures IsLaurentRat(r) && forall E :: IsExponential(Complexes(), E) ==> HasValue(r, E, c)
  {
    hide Total, CMul, IsExponential;
    var n := ConstMap(c);
    var d := OneMap();
    r := LaurentRat(n, d);
    forall E | IsExponential(Complexes(), E) ensures HasValue(r, E, c) {
      MulCommutes(c, CONE);
      OneTimes(c);
    }
  }

  method Times(a: LaurentMap<Complex>, b: LaurentMap<Complex>) returns (r: LaurentMap<Complex>)
    requires IsLaurent(Complexes(), a) && IsLaurent(Complexes(), b)
    ensures IsLaurent(Complexes(), r) && (a != map[] && b != map[] ==> r != map[])
    ensures forall E :: IsExponential(Complexes(), E) ==>
      Total(Complexes(), r, E) == CMul(Total(Complexes(), a, E), Total(Complexes(), b, E))
  {
    hide Total, IsConvolution, IsRing, IsField, IsDomain;
    ComplexesAreField();
    r := Convolve(Complexes(), a, b);
    ghost var empty: LaurentMap<Complex> := map[];
    if a != empty && b != empty { ProductNotEmpty(Complexes(), a, b, r); }
    forall E | IsExponential(Complexes(), E)
      ensures Total(Complexes(), r, E) == CMul(Total(Complexes(), a, E), Total(Complexes(), b, E))
    {
      ConvolutionValue(Complexes(), a, b, r, E);
    }
  }

  method LrMul(a: LaurentRat, b: LaurentRat) returns (r: LaurentRat)
    requires IsLaurentRat(a) && IsLaurentRat(b)
    ensures IsLaurentRat(r)
    ensures forall E, v, w :: IsExponential(Complexes(), E) && HasValue(a, E, v) && HasValue(b, E, w) ==>
      HasValue(r, E, CMul(v, w))
  {
    hide Total, CMul;
    var n := Times(a.num, b.num);
    var d := Times(a.den, b.den);
    r := LaurentRat(n, d);
    forall E, v, w | IsExponential(Complexes(), E) && HasValue(a, E, v) && HasValue(b, E, w)
      ensures HasValue(r, E, CMul(v, w))
    {
      ProductOfQuotients(v, DenAt(a, E), w, DenAt(b, E));
    }
  }

  // (v a) (w b) == (v w) (a b), and a b is not zero
  lemma ProductOfQuotients(v: Complex, a: Complex, w: Complex, b: Complex)
    ensures CMul(CMul(v, w), CMul(a, b)) == CMul(CMul(v, a), CMul(w, b))
    ensures a != CZERO && b != CZERO ==> CMul(a, b) != CZERO
  {
    MulAssociates(v, w, CMul(a, b));
    MulAssociates(w, a, b);
    MulCommutes(w, a);
    MulAssociates(a, w, b);
    MulAssociates(v, a, CMul(w, b));
    if a != CZERO && b != CZERO { NonZeroProduct(a, b); }
  }

  /** a / b; the numerator of b is not empty. */
  method LrDiv(a: LaurentRat, b: LaurentRat) returns (r: LaurentRat)
    requires IsLaurentRat(a) && IsLaurentRat(b) && b.num != map[]
    ensures IsLaurentRat(r)
    ensures forall E, v, w :: IsExponential(Complexes(), E) && HasValue(a, E, v) && HasValue(b, E, w) && w != CZERO ==>
      HasValue(r, E, Quotient(v, w).value)
  {
    hide Total, CMul;
    var n := Times(a.num, b.den);
    var d := Times(a.den, b.num);
    r := LaurentRat(n, d);
    forall E, v, w | IsExponential(Complexes(), E) && HasValue(a, E, v) && HasValue(b, E, w) && w != CZERO
      ensures HasValue(r, E, Quotient(v, w).value)
    {
      InverseWorks(w);
      QuotientOfQuotients(v, DenAt(a, E), w, CInverse(w).value, DenAt(b, E));
    }
  }

  // (v i) (a (w b)) == (v a) b when w i == 1
  lemma QuotientOfQuotients(v: Complex, a: Complex, w: Complex, i: Complex, b: Complex)
    requires CMul(w, i) == CONE && a != CZERO && w != CZERO && b != CZERO
    ensures CMul(a, CMul(w, b)) != CZERO
    ensures CMul(CMul(v, i), CMul(a, CMul(w, b))) == CMul(CMul(v, a), b)
  {
    hide CMul;
    ProductOfQuotients(v, w, a, b);
    ProductOfQuotients(v, a, a, CMul(w, b));
    ProductOfQuotients(v, w, w, b);
    QuotientIdentity(v, a, w, i, b);
  }

  lemma QuotientIdentity(v: Complex, a: Complex, w: Complex, i: Complex, b: Complex)
    requires CMul(w, i) == CONE
    ensures CMul(CMul(v, i), CMul(a, CMul(w, b))) == CMul(CMul(v, a), b)
  {
    ProductOfQuotients(v, a, i, CMul(w, b));
    MulAssociates(i, w, b);
    MulCommutes(i, w);
    OneTimes(b);
    assert CMul(CMul(v, i), CMul(a, CMul(w, b))) == CMul(CMul(v, a), CMul(i, CMul(w, b)));
  }

  method NegMap(a: LaurentMap<Complex>) returns (n: LaurentMap<Complex>)
    requires IsLaurent(Complexes(), a)
    ensures IsLaurent(Complexes(), n)
    ensures forall E :: Weights(Complexes(), E) ==> Total(Complexes(), n, E) == CNeg(Total(Complexes(), a, E))
  {
    var zero: LaurentMap<Complex> := map[];
    n := AddScaled(zero, a, CNeg(CONE));
    forall E | Weights(Complexes(), E) ensures Total(Complexes(), n, E) == CNeg(Total(Complexes(), a, E)) {
      MinusOneTimes(Total(Complexes(), a, E));
    }
  }

  lemma MinusOneTimes(a: Complex)
    ensures CMul(CNeg(CONE), a) == CNeg(a) && CAdd(CZERO, CNeg(a)) == CNeg(a)
  {}

  /** base + sign * a, term by term. */
  method AddScaled(base: LaurentMap<Complex>, a: LaurentMap<Complex>, sign: Complex) returns (n: LaurentMap<Complex>)
    requires IsLaurent(Complexes(), base) && IsLaurent(Complexes(), a) && (sign == CONE || sign == CNeg(CONE))
    ensures IsLaurent(Complexes(), n)
    ensures forall E :: Weights(Complexes(), E) ==>
      Total(Complexes(), n, E) == CAdd(Total(Complexes(), base, E), CMul(sign, Total(Complexes(), a, E)))
  {
    hide Total, CMul, CAdd, Added, IsRing, IsField, IsDomain;
    ComplexesAreField();
    n := base;
    var todo := a.Keys;
    assert a - todo == map[];
    forall E | Weights(Complexes(), E)
      ensures Total(Complexes(), n, E) == CAdd(Total(Complexes(), base, E), CMul(sign, Total(Complexes(), a - todo, E)))
    {
      NothingAdded(base, sign, E);
    }
    while todo != {}
      invariant todo <= a.Keys && IsLaurent(Complexes(), n)
      invariant forall E :: Weights(Complexes(), E) ==>
        Total(Complexes(), n, E) == CAdd(Total(Complexes(), base, E), CMul(sign, Total(Complexes(), a - todo, E)))
      decreases todo
    {
      var f := TakeOne(todo);
      var c := if sign == CONE then a[f] else CNeg(a[f]);
      SignTimes(sign, a[f]);
      ghost var before := n;
      n := AddTerm(Complexes(), n, f, c);
      forall E | Weights(Complexes(), E)
        ensures Total(Complexes(), n, E)
             == CAdd(Total(Complexes(), base, E), CMul(sign, Total(Complexes(), a - (todo - {f}), E)))
      {
        AddOne(before, base, a, todo, f, sign, E);
      }
      todo := todo - {f};
    }
    assert a - {} == a;
  }

  lemma NothingAdded(base: LaurentMap<Complex>, sign: Complex, E: real -> Complex)
    ensures Total(Complexes(), base, E) == CAdd(Total(Complexes(), base, E), CMul(sign, Total(Complexes(), map[], E)))
  {}

  lemma SignTimes(sign: Complex, a: Complex)
    requires sign == CONE || sign == CNeg(CONE)
    ensures CMul(sign, a) == if sign == CONE then a else CNeg(a)
  {}

  lemma AddOne(before: LaurentMap<Complex>, base: LaurentMap<Complex>, a: LaurentMap<Complex>, todo: set<real>,
               f: real, sign: Complex, E: real -> Complex)
    requires IsLaurent(Complexes(), a) && f in todo && todo <= a.Keys && Weights(Complexes(), E)
    requires Total(Complexes(), before, E)
          == CAdd(Total(Complexes(), base, E), CMul(sign, Total(Complexes(), a - todo, E)))
    ensures CAdd(Total(Complexes(), before, E), CMul(CMul(sign, a[f]), E(f)))
         == CAdd(Total(Complexes(), base, E), CMul(sign, Total(Complexes(), a - (todo - {f}), E)))
  {
    hide Total, IsRing, IsField, IsDomain;
    ComplexesAreField();
    var done := a - (todo - {f});
    LastTaken(a, todo, f);
    TotalRemove(Complexes(), done, E, f);
    RowArithmetic(Complexes(), Total(Complexes(), base, E), sign, Total(Complexes(), a - todo, E), a[f], E(f));
  }

  method LrNeg(a: LaurentRat) returns (r: LaurentRat)
    requires IsLaurentRat(a)
    ensures IsLaurentRat(r)
    ensures forall E, v :: IsExponential(Complexes(), E) && HasValue(a, E, v) ==> HasValue(r, E, CNeg(v))
  {
    hide Total;
    var n := NegMap(a.num);
    r := LaurentRat(n, a.den);
    forall E, v | IsExponential(Complexes(), E) && HasValue(a, E, v) ensures HasValue(r, E, CNeg(v)) {
      NegTimes(v, DenAt(a, E));
    }
  }

  lemma NegTimes(v: Complex, a: Complex)
    ensures CMul(CNeg(v), a) == CNeg(CMul(v, a))
  {}

  /** a + b, or a - b, over the common denominator. */
  method LrAdd(a: LaurentRat, b: LaurentRat, subtract: bool) returns (r: LaurentRat)
    requires IsLaurentRat(a) && IsLaurentRat(b)
    ensures IsLaurentRat(r)
    ensures forall E, v, w :: IsExponential(Complexes(), E) && HasValue(a, E, v) && HasValue(b, E, w) ==>
      HasValue(r, E, CAdd(v, if subtract then CNeg(w) else w))
  {
    hide Total, CMul, CAdd, CNeg;
    var n := Times(a.num, b.den);
    var cross := Times(b.num, a.den);
    var sign := if subtract then CNeg(CONE) else CONE;
    n := AddScaled(n, cross, sign);
    var d := Times(a.den, b.den);
    r := LaurentRat(n, d);
    forall E, v, w | IsExponential(Complexes(), E) && HasValue(a, E, v) && HasValue(b, E, w)
      ensures HasValue(r, E, CAdd(v, if subtract then CNeg(w) else w))
    {
      SumOfQuotients(v, DenAt(a, E), w, DenAt(b, E), sign);
      SignedTimes(sign, subtract, w);
    }
  }

  lemma SignedTimes(sign: Complex, subtract: bool, w: Complex)
    requires sign == if subtract then CNeg(CONE) else CONE
    ensures CMul(sign, w) == if subtract then CNeg(w) else w
  {}

  // (v + s w) (a b) == (v a) b + s ((w b) a)
  lemma SumOfQuotients(v: Complex, a: Complex, w: Complex, b: Complex, s: Complex)
    ensures CMul(CAdd(v, CMul(s, w)), CMul(a, b)) == CAdd(CMul(CMul(v, a), b), CMul(s, CMul(CMul(w, b), a)))
    ensures a != CZERO && b != CZERO ==> CMul(a, b) != CZERO
  {
    ProductOfQuotients(v, a, w, b);
    var ab := CMul(a, b);
    MulCommutes(CAdd(v, CMul(s, w)), ab);
    MulDistributes(ab, v, CMul(s, w));
    MulCommutes(ab, v);
    MulCommutes(ab, CMul(s, w));
    MulAssociates(v, a, b);
    MulAssociates(s, w, ab);
    MulAssociates(w, b, a);
    MulCommutes(a, b);
  }

  ghost function Flip(negative: bool, v: Complex): Complex {
    if negative && v != CZERO then CInverse(v).value else v
  }

  lemma Unflipped(v: Complex)
    ensures Flip(false, v) == v
  {}

  /** base^e, by repeated multiplication. */
  method LrPow(a: LaurentRat, negative: bool, e: nat) returns (r: LaurentRat)
    requires IsLaurentRat(a) && (negative ==> a.num != map[])
    ensures IsLaurentRat(r)
    ensures forall E, v :: IsExponential(Complexes(), E) && HasValue(a, E, v) && (negative ==> v != CZERO) ==>
      HasValue(r, E, Power(Complexes(), Flip(negative, v), e))
  {
    hide Total, CMul, Flip, HasValue, IsExponential, Power;
    PowerNone();
    var base := if negative then LaurentRat(a.den, a.num) else a;
    r := LrConst(CONE);
    for i := 0 to e
      invariant IsLaurentRat(r)
      invariant forall E, w :: IsExponential(Complexes(), E) && HasValue(base, E, w) ==>
        HasValue(r, E, Power(Complexes(), w, i))
    {
      r := LrMul(r, base);
      forall E, w | IsExponential(Complexes(), E) && HasValue(base, E, w)
        ensures HasValue(r, E, Power(Complexes(), w, i + 1))
      {
        PowerRight(w, i);
      }
    }
    forall E, v | IsExponential(Complexes(), E) && HasValue(a, E, v) && (negative ==> v != CZERO)
      ensures HasValue(r, E, Power(Complexes(), Flip(negative, v), e))
    {
      if negative { Reciprocal(a, E, v); } else { Unflipped(v); }
    }
  }

  lemma PowerNone()
    ensures forall w :: Power(Complexes(), w, 0) == CONE
  {}

  lemma PowerRight(w: Complex, i: nat)
    ensures CMul(Power(Complexes(), w, i), w) == Power(Complexes(), w, i + 1)
  {
    hide CMul;
    MulCommutes(Power(Complexes(), w, i), w);
  }

  lemma Reciprocal(a: LaurentRat, E: real -> Complex, v: Complex)
    requires HasValue(a, E, v) && v != CZERO
    ensures HasValue(LaurentRat(a.den, a.num), E, Flip(true, v))
  {
    hide CMul, CInverse, DenAt, NumAt;
    InverseWorks(v);
    var d := DenAt(a, E);
    NonZeroProduct(v, d);
    ReciprocalTimes(v, CInverse(v).value, d);
    Swapped(a, E);
  }

  lemma Swapped(a: LaurentRat, E: real -> Complex)
    ensures DenAt(LaurentRat(a.den, a.num), E) == NumAt(a, E) && NumAt(LaurentRat(a.den, a.num), E) == DenAt(a, E)
  {}

  // i (v d) == d when v i == 1
  lemma ReciprocalTimes(v: Complex, i: Complex, d: Complex)
    requires CMul(v, i) == CONE
    ensures CMul(i, CMul(v, d)) == d
  {
    MulAssociates(i, v, d);
    MulCommutes(i, v);
    OneTimes(d);
  }

  // ----- the compiler -----

  function AsRational(k: Expr): Option<real> {
    match k
    case IntegerLit(n) => Some(n as real)
    case RationalLit(n, d) => Some(n as real / d as real)
    case _ => None
  }

  function TryPair(k: Expr, v: Expr, x: string): Option<real> {
    if v.Symbol? && v.name == x then AsRational(k) else None
  }

  function OrElse(a: Option<real>, b: Option<real>): Option<real> {
    if a.Some? then a else b
  }

  /** The frequency c of an argument that is exactly c * x. */
  function LinearFreq(arg: Expr, x: string): Option<real> {
    if arg.Symbol? then (if arg.name == x then Some(1.0) else None)
    else if arg.Binary? && arg.op.MulOp? then OrElse(TryPair(arg.left, arg.right, x), TryPair(arg.right, arg.left, x))
    else if arg.Product? && |arg.factors| == 2 then
      OrElse(TryPair(arg.factors[0], arg.factors[1], x), TryPair(arg.factors[1], arg.factors[0], x))
    else None
  }

  ghost predicate PairIs(k: Expr, v: Expr, x: string, c: real) {
    TryPair(k, v, x) == Some(c)
  }

  lemma PairValue(M: Meaning, k: Expr, v: Expr, x: string, c: real)
    requires PairIs(k, v, x, c)
    ensures Denote(M, k) == Some(Real(c)) && Denote(M, v) == Some(Real(M.env(x)))
    ensures CMul(Real(c), Real(M.env(x))) == Real(RMul(c, M.env(x))) == CMul(Real(M.env(x)), Real(c))
  {}

  lemma TwoFactors(M: Meaning, e: Expr)
    requires e.Product? && |e.factors| == 2
    ensures Denote(M, e) == Lift((a, b) => Some(CMul(a, b)),
      Lift((a, b) => Some(CMul(a, b)), Some(CONE), Denote(M, e.factors[0])), Denote(M, e.factors[1]))
  {
    assert DenoteProduct(M, e, 0) == Some(CONE);
    assert DenoteProduct(M, e, 1) == Lift((a, b) => Some(CMul(a, b)), Some(CONE), Denote(M, e.factors[0]));
  }

  /** A recognised argument has the value frequency times x, at every point. */
  lemma LinearValue(M: Meaning, arg: Expr, x: string)
    requires LinearFreq(arg, x).Some?
    ensures Denote(M, arg) == Some(Real(RMul(LinearFreq(arg, x).value, M.env(x))))
  {
    var c := LinearFreq(arg, x).value;
    if !arg.Symbol? {
      var (l, r) := if arg.Binary? then (arg.left, arg.right) else (arg.factors[0], arg.factors[1]);
      if PairIs(l, r, x, c) { PairValue(M, l, r, x, c); } else { PairValue(M, r, l, x, c); }
      if arg.Product? {
        OneTimes(Denote(M, l).value);
        TwoFactors(M, arg);
      }
      assert Denote(M, arg) == Some(CMul(Denote(M, l).value, Denote(M, r).value));
    } else {
      assert RMul(1.0, M.env(x)) == M.env(x);
    }
  }

  ghost predicate IsLiteral(k: Expr) { k.IntegerLit? || k.RationalLit? }

  ghost predicate LiteralTimes(arg: Expr, k: Expr, x: string) {
    && IsLiteral(k)
    && (arg == Binary(MulOp, k, Symbol(x)) || arg == Binary(MulOp, Symbol(x), k)
        || arg == Product([k, Symbol(x)]) || arg == Product([Symbol(x), k]))
  }

  /** The arguments recognised: the variable alone, and a literal times it as a binary product or as a list of
      two factors, in either order. */
  lemma LinearShapes(arg: Expr, x: string)
    ensures LinearFreq(arg, x).Some? <==> arg == Symbol(x) || exists k :: LiteralTimes(arg, k, x)
  {
    if LinearFreq(arg, x).Some? && !arg.Symbol? {
      var (l, r) := if arg.Binary? then (arg.left, arg.right) else (arg.factors[0], arg.factors[1]);
      if arg.Product? { assert arg.factors == [l, r]; }
      assert LiteralTimes(arg, l, x) || LiteralTimes(arg, r, x);
    }
  }

  /** Where the expression has a value, it is the value of the quotient. */
  ghost predicate Represents(e: Expr, x: string, r: LaurentRat) {
    forall M: Meaning :: IsMeaning(M) && Denote(M, e).Some? ==>
      HasValue(r, Wave(M.cis, M.env(x)), Denote(M, e).value)
  }

  lemma MeaningWave(M: Meaning, x: string)
    requires IsMeaning(M)
    ensures IsExponential(Complexes(), Wave(M.cis, M.env(x)))
  {
    WaveIsExponential(M.cis, M.env(x));
  }

  // ----- each node -----

  lemma ConstRepresents(e: Expr, x: string, c: Complex, r: LaurentRat)
    requires forall M: Meaning :: Denote(M, e) == Some(c)
    requires forall E :: IsExponential(Complexes(), E) ==> HasValue(r, E, c)
    ensures Represents(e, x, r)
  {
    hide HasValue, IsExponential;
    forall M: Meaning | IsMeaning(M) ensures HasValue(r, Wave(M.cis, M.env(x)), c) { MeaningWave(M, x); }
  }

  lemma NegRepresents(e: Expr, x: string, a: LaurentRat, r: LaurentRat)
    requires e.Negation? && Represents(e.operand, x, a)
    requires forall E, v :: IsExponential(Complexes(), E) && HasValue(a, E, v) ==> HasValue(r, E, CNeg(v))
    ensures Represents(e, x, r)
  {
    hide HasValue, IsExponential, CNeg;
    forall M: Meaning | IsMeaning(M) && Denote(M, e).Some?
      ensures HasValue(r, Wave(M.cis, M.env(x)), Denote(M, e).value)
    {
      MeaningWave(M, x);
    }
  }

  /** The value of a binary node when both operands have one, exponentiation apart. */
  ghost function Apply(op: BinaryOp, v: Complex, w: Complex): Option<Complex> {
    match op
    case AddOp => Some(CAdd(v, w))
    case SubOp => Some(CAdd(v, CNeg(w)))
    case MulOp => Some(CMul(v, w))
    case DivOp => Quotient(v, w)
    case PowOp => None
  }

  lemma BinaryValue(M: Meaning, e: Expr)
    requires e.Binary? && !e.op.PowOp? && Denote(M, e).Some?
    ensures Denote(M, e.left).Some? && Denote(M, e.right).Some?
    ensures Denote(M, e) == Apply(e.op, Denote(M, e.left).value, Denote(M, e.right).value)
  {
    hide CAdd, CMul, CNeg, CInverse;
  }

  lemma BinaryRepresents(e: Expr, x: string, a: LaurentRat, b: LaurentRat, r: LaurentRat)
    requires e.Binary? && !e.op.PowOp? && Represents(e.left, x, a) && Represents(e.right, x, b)
    requires forall E, v, w ::
      (IsExponential(Complexes(), E) && HasValue(a, E, v) && HasValue(b, E, w) && Apply(e.op, v, w).Some?) ==>
        HasValue(r, E, Apply(e.op, v, w).value)
    ensures Represents(e, x, r)
  {
    hide HasValue, IsExponential, Apply;
    forall M: Meaning | IsMeaning(M) && Denote(M, e).Some?
      ensures HasValue(r, Wave(M.cis, M.env(x)), Denote(M, e).value)
    {
      MeaningWave(M, x);
      BinaryValue(M, e);
    }
  }

  lemma PowRepresents(e: Expr, x: string, a: LaurentRat, r: LaurentRat)
    requires e.Binary? && e.op.PowOp? && e.right.IntegerLit? && Represents(e.left, x, a)
    requires var n := e.right.value;
      forall E, v :: IsExponential(Complexes(), E) && HasValue(a, E, v) && (n < 0 ==> v != CZERO) ==>
        HasValue(r, E, Power(Complexes(), Flip(n < 0, v), if n < 0 then -n else n))
    ensures Represents(e, x, r)
  {
    hide HasValue, IsExponential, Power;
    var n := e.right.value;
    forall M: Meaning | IsMeaning(M) && Denote(M, e).Some?
      ensures HasValue(r, Wave(M.cis, M.env(x)), Denote(M, e).value)
    {
      MeaningWave(M, x);
      var v := Denote(M, e.left).value;
      InverseOfZero();
      assert Denote(M, e) == IntPower(v, n);
    }
  }

  /** The prefix of a sum or a product that has been taken. */
  ghost predicate SumSoFar(e: Expr, x: string, k: nat, r: LaurentRat)
    requires e.Sum? && k <= |e.terms|
  {
    forall M: Meaning :: IsMeaning(M) && DenoteSum(M, e, k).Some? ==>
      HasValue(r, Wave(M.cis, M.env(x)), DenoteSum(M, e, k).value)
  }

  ghost predicate ProductSoFar(e: Expr, x: string, k: nat, r: LaurentRat)
    requires e.Product? && k <= |e.factors|
  {
    forall M: Meaning :: IsMeaning(M) && DenoteProduct(M, e, k).Some? ==>
      HasValue(r, Wave(M.cis, M.env(x)), DenoteProduct(M, e, k).value)
  }

  lemma SumStep(e: Expr, x: string, k: nat, a: LaurentRat, b: LaurentRat, r: LaurentRat)
    requires e.Sum? && k < |e.terms| && SumSoFar(e, x, k, a) && Represents(e.terms[k], x, b)
    requires forall E, v, w :: IsExponential(Complexes(), E) && HasValue(a, E, v) && HasValue(b, E, w) ==>
      HasValue(r, E, CAdd(v, w))
    ensures SumSoFar(e, x, k + 1, r)
  {
    hide HasValue, IsExponential, CAdd;
    forall M: Meaning | IsMeaning(M) && DenoteSum(M, e, k + 1).Some?
      ensures HasValue(r, Wave(M.cis, M.env(x)), DenoteSum(M, e, k + 1).value)
    {
      MeaningWave(M, x);
    }
  }

  lemma ProductStep(e: Expr, x: string, k: nat, a: LaurentRat, b: LaurentRat, r: LaurentRat)
    requires e.Product? && k < |e.factors| && ProductSoFar(e, x, k, a) && Represents(e.factors[k], x, b)
    requires forall E, v, w :: IsExponential(Complexes(), E) && HasValue(a, E, v) && HasValue(b, E, w) ==>
      HasValue(r, E, CMul(v, w))
    ensures ProductSoFar(e, x, k + 1, r)
  {
    hide HasValue, IsExponential, CMul;
    forall M: Meaning | IsMeaning(M) && DenoteProduct(M, e, k + 1).Some?
      ensures HasValue(r, Wave(M.cis, M.env(x)), DenoteProduct(M, e, k + 1).value)
    {
      MeaningWave(M, x);
    }
  }

  /** c z^f + d z^(-f) over one. */
  method TwoTerms(f: real, c: Complex, d: Complex) returns (r: LaurentRat)
    ensures IsLaurentRat(r)
    ensures forall E :: IsExponential(Complexes(), E) ==> HasValue(r, E, CAdd(CMul(c, E(f)), CMul(d, E(-f))))
  {
    hide Total, CMul, CAdd, Added, IsRing, IsField, IsDomain, IsExponential;
    ComplexesAreField();
    var m: LaurentMap<Complex> := map[];
    m := AddTerm(Complexes(), m, f, c);
    m := AddTerm(Complexes(), m, -f, d);
    var one := OneMap();
    r := LaurentRat(m, one);
    forall E | IsExponential(Complexes(), E) ensures HasValue(r, E, CAdd(CMul(c, E(f)), CMul(d, E(-f)))) {
      TwoTermsTotal(E, CMul(c, E(f)), CMul(d, E(-f)));
    }
  }

  lemma TwoTermsTotal(E: real -> Complex, u: Complex, v: Complex)
    ensures CAdd(CAdd(Total(Complexes(), map[], E), u), v) == CAdd(u, v) == CMul(CAdd(u, v), CONE)
    ensures IsExponential(Complexes(), E) ==> Weights(Complexes(), E)
  {
    assert Total(Complexes(), map[], E) == CZERO;
    MulCommutes(CAdd(u, v), CONE);
    OneTimes(CAdd(u, v));
  }

  lemma TrigRepresents(e: Expr, x: string, f: real, r: LaurentRat)
    requires e.FuncCall? && (e.func.Sin? || e.func.Cos?) && |e.args| == 1 && LinearFreq(e.args[0], x) == Some(f)
    requires var (c, d) := if e.func.Cos? then (HALF, HALF) else (HALF_OVER_I, MINUS_HALF_OVER_I);
      forall E :: IsExponential(Complexes(), E) ==> HasValue(r, E, CAdd(CMul(c, E(f)), CMul(d, E(-f))))
    ensures Represents(e, x, r)
  {
    hide HasValue, IsExponential, CMul, CAdd;
    forall M: Meaning | IsMeaning(M) && Denote(M, e).Some?
      ensures HasValue(r, Wave(M.cis, M.env(x)), Denote(M, e).value)
    {
      MeaningWave(M, x);
      LinearValue(M, e.args[0], x);
      var E := Wave(M.cis, M.env(x));
      assert E(-f) == M.cis(-RMul(f, M.env(x))) by { assert RMul(-f, M.env(x)) == -RMul(f, M.env(x)); }
    }
  }

  // ----- where an expression has a value -----

  ghost predicate Guards(gs: seq<LaurentMap<Complex>>) {
    forall i :: 0 <= i < |gs| ==> IsLaurent(Complexes(), gs[i]) && gs[i] != map[]
  }

  ghost predicate NoneVanishes(gs: seq<LaurentMap<Complex>>, E: real -> Complex) {
    forall i :: 0 <= i < |gs| ==> Total(Complexes(), gs[i], E) != CZERO
  }

  /** Wherever none of the guards vanishes, the expression has a value. */
  ghost predicate GuardedBy(e: Expr, x: string, gs: seq<LaurentMap<Complex>>) {
    forall M: Meaning :: IsMeaning(M) && NoneVanishes(gs, Wave(M.cis, M.env(x))) ==> Denote(M, e).Some?
  }

  /** The expression has a value almost everywhere: it is enough that finitely many Laurent polynomials that
      are not empty do not vanish. */
  ghost predicate Guarded(e: Expr, x: string) {
    exists gs :: Guards(gs) && GuardedBy(e, x, gs)
  }

  lemma GuardedIntro(e: Expr, x: string, gs: seq<LaurentMap<Complex>>)
    requires Guards(gs) && GuardedBy(e, x, gs)
    ensures Guarded(e, x)
  {}

  lemma GuardsJoin(gs: seq<LaurentMap<Complex>>, hs: seq<LaurentMap<Complex>>)
    requires Guards(gs) && Guards(hs)
    ensures Guards(gs + hs)
    ensures forall E :: NoneVanishes(gs + hs, E) ==> NoneVanishes(gs, E) && NoneVanishes(hs, E)
  {
    forall E | NoneVanishes(gs + hs, E) ensures NoneVanishes(gs, E) && NoneVanishes(hs, E) {
      forall i | 0 <= i < |gs| ensures Total(Complexes(), gs[i], E) != CZERO { assert (gs + hs)[i] == gs[i]; }
      forall i | 0 <= i < |hs| ensures Total(Complexes(), hs[i], E) != CZERO { assert (gs + hs)[|gs| + i] == hs[i]; }
    }
  }

  lemma AlwaysGuarded(e: Expr, x: string)
    requires forall M: Meaning :: IsMeaning(M) ==> Denote(M, e).Some?
    ensures Guarded(e, x)
  {
    GuardedIntro(e, x, []);
  }

  lemma TrigGuarded(e: Expr, x: string)
    requires e.FuncCall? && (e.func.Sin? || e.func.Cos?) && |e.args| == 1 && LinearFreq(e.args[0], x).Some?
    ensures Guarded(e, x)
  {
    forall M: Meaning | IsMeaning(M) ensures Denote(M, e).Some? { LinearValue(M, e.args[0], x); }
    AlwaysGuarded(e, x);
  }

  lemma NegGuarded(e: Expr, x: string)
    requires e.Negation? && Guarded(e.operand, x)
    ensures Guarded(e, x)
  {
    var gs :| Guards(gs) && GuardedBy(e.operand, x, gs);
    GuardedIntro(e, x, gs);
  }

  // where the numerator does not vanish, the value is not zero
  lemma ValueNotZero(r: LaurentRat, E: real -> Complex, v: Complex)
    requires HasValue(r, E, v) && NumAt(r, E) != CZERO
    ensures v != CZERO
  {}

  ghost function NumGuard(used: bool, r: LaurentRat): seq<LaurentMap<Complex>> { if used then [r.num] else [] }

  lemma NumGuardIs(used: bool, r: LaurentRat)
    requires IsLaurentRat(r) && (used ==> r.num != map[])
    ensures Guards(NumGuard(used, r))
    ensures forall E :: used && NoneVanishes(NumGuard(used, r), E) ==> NumAt(r, E) != CZERO
  {
    forall E | used && NoneVanishes(NumGuard(used, r), E) ensures NumAt(r, E) != CZERO {
      assert NumGuard(used, r)[0] == r.num;
    }
  }

  lemma BinaryGuarded(e: Expr, x: string, b: LaurentRat)
    requires e.Binary? && !e.op.PowOp? && Guarded(e.left, x) && Guarded(e.right, x)
    requires IsLaurentRat(b) && Represents(e.right, x, b) && (e.op.DivOp? ==> b.num != map[])
    ensures Guarded(e, x)
  {
    hide Guards, NoneVanishes, IsLaurentRat, IsMeaning, HasValue, CAdd, CNeg, CMul;
    var gs :| Guards(gs) && GuardedBy(e.left, x, gs);
    var hs :| Guards(hs) && GuardedBy(e.right, x, hs);
    var ks := NumGuard(e.op.DivOp?, b);
    NumGuardIs(e.op.DivOp?, b);
    GuardsJoin(gs, hs);
    GuardsJoin(gs + hs, ks);
    forall M: Meaning | IsMeaning(M) && NoneVanishes(gs + hs + ks, Wave(M.cis, M.env(x)))
      ensures Denote(M, e).Some?
    {
      if e.op.DivOp? { ValueNotZero(b, Wave(M.cis, M.env(x)), Denote(M, e.right).value); }
    }
    GuardedIntro(e, x, gs + hs + ks);
  }

  lemma PowGuarded(e: Expr, x: string, a: LaurentRat)
    requires e.Binary? && e.op.PowOp? && e.right.IntegerLit? && Guarded(e.left, x)
    requires IsLaurentRat(a) && Represents(e.left, x, a) && (e.right.value < 0 ==> a.num != map[])
    ensures Guarded(e, x)
  {
    hide Guards, NoneVanishes, IsLaurentRat, IsMeaning, HasValue, Power;
    var n := e.right.value;
    var gs :| Guards(gs) && GuardedBy(e.left, x, gs);
    var ks := NumGuard(n < 0, a);
    NumGuardIs(n < 0, a);
    GuardsJoin(gs, ks);
    forall M: Meaning | IsMeaning(M) && NoneVanishes(gs + ks, Wave(M.cis, M.env(x))) ensures Denote(M, e).Some? {
      if n < 0 { ValueNotZero(a, Wave(M.cis, M.env(x)), Denote(M, e.left).value); }
      assert Denote(M, e) == IntPower(Denote(M, e.left).value, n);
    }
    GuardedIntro(e, x, gs + ks);
  }

  ghost predicate SumGuarded(e: Expr, x: string, k: nat)
    requires e.Sum? && k <= |e.terms|
  {
    exists gs :: Guards(gs) && forall M: Meaning ::
      IsMeaning(M) && NoneVanishes(gs, Wave(M.cis, M.env(x))) ==> DenoteSum(M, e, k).Some?
  }

  ghost predicate ProductGuarded(e: Expr, x: string, k: nat)
    requires e.Product? && k <= |e.factors|
  {
    exists gs :: Guards(gs) && forall M: Meaning ::
      IsMeaning(M) && NoneVanishes(gs, Wave(M.cis, M.env(x))) ==> DenoteProduct(M, e, k).Some?
  }

  lemma SumGuardedStep(e: Expr, x: string, k: nat)
    requires e.Sum? && k < |e.terms| && SumGuarded(e, x, k) && Guarded(e.terms[k], x)
    ensures SumGuarded(e, x, k + 1)
  {
    hide Guards, NoneVanishes, IsMeaning, CAdd;
    var gs :| Guards(gs) && forall M: Meaning ::
      IsMeaning(M) && NoneVanishes(gs, Wave(M.cis, M.env(x))) ==> DenoteSum(M, e, k).Some?;
    var hs :| Guards(hs) && GuardedBy(e.terms[k], x, hs);
    GuardsJoin(gs, hs);
    assert Guards(gs + hs) && forall M: Meaning ::
      IsMeaning(M) && NoneVanishes(gs + hs, Wave(M.cis, M.env(x))) ==> DenoteSum(M, e, k + 1).Some?;
  }

  lemma ProductGuardedStep(e: Expr, x: string, k: nat)
    requires e.Product? && k < |e.factors| && ProductGuarded(e, x, k) && Guarded(e.factors[k], x)
    ensures ProductGuarded(e, x, k + 1)
  {
    hide Guards, NoneVanishes, IsMeaning, CMul;
    var gs :| Guards(gs) && forall M: Meaning ::
      IsMeaning(M) && NoneVanishes(gs, Wave(M.cis, M.env(x))) ==> DenoteProduct(M, e, k).Some?;
    var hs :| Guards(hs) && GuardedBy(e.factors[k], x, hs);
    GuardsJoin(gs, hs);
    assert Guards(gs + hs) && forall M: Meaning ::
      IsMeaning(M) && NoneVanishes(gs + hs, Wave(M.cis, M.env(x))) ==> DenoteProduct(M, e, k + 1).Some?;
  }

  lemma GuardedStarts(e: Expr, x: string)
    ensures e.Sum? ==> SumGuarded(e, x, 0)
    ensures e.Product? ==> ProductGuarded(e, x, 0)
  {
    assert Guards([]);
  }

  lemma GuardedEnds(e: Expr, x: string)
    requires (e.Sum? && SumGuarded(e, x, |e.terms|)) || (e.Product? && ProductGuarded(e, x, |e.factors|))
    ensures Guarded(e, x)
  {
    hide Guards, NoneVanishes, IsMeaning;
    if e.Sum? {
      var gs :| Guards(gs) && forall M: Meaning ::
        IsMeaning(M) && NoneVanishes(gs, Wave(M.cis, M.env(x))) ==> DenoteSum(M, e, |e.terms|).Some?;
      GuardedIntro(e, x, gs);
    } else {
      var gs :| Guards(gs) && forall M: Meaning ::
        IsMeaning(M) && NoneVanishes(gs, Wave(M.cis, M.env(x))) ==> DenoteProduct(M, e, |e.factors|).Some?;
      GuardedIntro(e, x, gs);
    }
  }

  /** e has a value almost everywhere, and is a quotient with an empty numerator. */
  ghost predicate IdenticallyZero(e: Expr, x: string) {
    Guarded(e, x) && exists r :: IsLaurentRat(r) && r.num == map[] && Represents(e, x, r)
  }

  /** What makes the prover give up: somewhere a node that is no trigonometric rational of x, a
      non-integer power, or a division by something identically zero. */
  ghost predicate Unsupported(e: Expr, x: string)
    decreases e
  {
    match e
    case IntegerLit(_) => false
    case RationalLit(_, _) => false
    case FuncCall(f, args) => !((f.Sin? || f.Cos?) && |args| == 1 && LinearFreq(args[0], x).Some?)
    case Negation(a) => Unsupported(a, x)
    case Sum(ts) => exists i :: 0 <= i < |ts| && Unsupported(ts[i], x)
    case Product(fs) => exists i :: 0 <= i < |fs| && Unsupported(fs[i], x)
    case Binary(op, a, b) =>
      if op.PowOp? then !b.IntegerLit? || Unsupported(a, x) || (b.value < 0 && IdenticallyZero(a, x))
      else Unsupported(a, x) || Unsupported(b, x) || (op.DivOp? && IdenticallyZero(b, x))
    case _ => true
  }

  /** e has a value almost everywhere, and is a quotient whose numerator has terms. */
  ghost predicate NonZeroNumerator(e: Expr, x: string) {
    Guarded(e, x) && exists r :: IsLaurentRat(r) && r.num != map[] && Represents(e, x, r)
  }

  /** What makes the prover succeed: every division is by something whose numerator has terms, and likewise
      for the bases of negative powers. */
  ghost predicate Supported(e: Expr, x: string)
    decreases e
  {
    match e
    case IntegerLit(_) => true
    case RationalLit(_, _) => true
    case FuncCall(f, args) => (f.Sin? || f.Cos?) && |args| == 1 && LinearFreq(args[0], x).Some?
    case Negation(a) => Supported(a, x)
    case Sum(ts) => forall i :: 0 <= i < |ts| ==> Supported(ts[i], x)
    case Product(fs) => forall i :: 0 <= i < |fs| ==> Supported(fs[i], x)
    case Binary(op, a, b) =>
      if op.PowOp? then b.IntegerLit? && Supported(a, x) && (b.value < 0 ==> NonZeroNumerator(a, x))
      else Supported(a, x) && Supported(b, x) && (op.DivOp? ==> NonZeroNumerator(b, x))
    case _ => false
  }

  /** Compiles an expression; None outside the class of trigonometric rationals of the one variable. */
  method ToLaurentRat(e: Expr, x: string) returns (r: Option<LaurentRat>)
    ensures r.Some? ==> IsLaurentRat(r.value) && Represents(e, x, r.value) && Guarded(e, x) && Supported(e, x)
    ensures r.None? ==> Unsupported(e, x)
    decreases e
  {
    hide HasValue, IsExponential, Represents, IsLaurentRat, Guarded, CMul, CAdd, CNeg, Power;
    match e {
      case IntegerLit(n) =>
        var q := LrConst(Real(n as real));
        ConstRepresents(e, x, Real(n as real), q);
        AlwaysGuarded(e, x);
        r := Some(q);
      case RationalLit(n, d) =>
        var c := Real(n as real / d as real);
        var q := LrConst(c);
        ConstRepresents(e, x, c, q);
        AlwaysGuarded(e, x);
        r := Some(q);
      case FuncCall(f, args) =>
        r := CompileCall(e, x);
      case Negation(a) =>
        var inner := ToLaurentRat(a, x);
        if inner.None? { return None; }
        var q := LrNeg(inner.value);
        NegRepresents(e, x, inner.value, q);
        NegGuarded(e, x);
        r := Some(q);
      case Sum(ts) =>
        r := CompileSum(e, x);
      case Product(fs) =>
        r := CompileProduct(e, x);
      case Binary(op, a, b) =>
        if op.PowOp? { r := CompilePow(e, x); } else { r := CompileBinary(e, x); }
      case _ =>
        r := None;
    }
  }

  method CompileCall(e: Expr, x: string) returns (r: Option<LaurentRat>)
    requires e.FuncCall?
    ensures r.Some? ==> IsLaurentRat(r.value) && Represents(e, x, r.value) && Guarded(e, x) && Supported(e, x)
    ensures r.None? ==> Unsupported(e, x)
  {
    hide HasValue, IsExponential, Represents, IsLaurentRat, Guarded, CMul, CAdd;
    if !((e.func.Sin? || e.func.Cos?) && |e.args| == 1) { return None; }
    var freq := LinearFreq(e.args[0], x);
    if freq.None? { return None; }
    var q;
    if e.func.Cos? {
      q := TwoTerms(freq.value, HALF, HALF);
    } else {
      q := TwoTerms(freq.value, HALF_OVER_I, MINUS_HALF_OVER_I);
    }
    TrigRepresents(e, x, freq.value, q);
    TrigGuarded(e, x);
    r := Some(q);
  }

  method CompileSum(e: Expr, x: string) returns (r: Option<LaurentRat>)
    requires e.Sum?
    ensures r.Some? ==> IsLaurentRat(r.value) && Represents(e, x, r.value) && Guarded(e, x) && Supported(e, x)
    ensures r.None? ==> Unsupported(e, x)
    decreases e, 0
  {
    hide HasValue, IsExponential, Represents, IsLaurentRat, CMul, CAdd, SumSoFar, SumGuarded, Guarded;
    var acc := LrConst(CZERO);
    SumStart(e, x, acc);
    GuardedStarts(e, x);
    for k := 0 to |e.terms|
      invariant IsLaurentRat(acc) && SumSoFar(e, x, k, acc) && SumGuarded(e, x, k)
      invariant forall i :: 0 <= i < k ==> Supported(e.terms[i], x)
    {
      var t := ToLaurentRat(e.terms[k], x);
      if t.None? { return None; }
      var next := LrAdd(acc, t.value, false);
      SumStep(e, x, k, acc, t.value, next);
      SumGuardedStep(e, x, k);
      acc := next;
    }
    SumEnd(e, x, acc);
    GuardedEnds(e, x);
    r := Some(acc);
  }

  lemma SumStart(e: Expr, x: string, r: LaurentRat)
    requires e.Sum? && forall E :: IsExponential(Complexes(), E) ==> HasValue(r, E, CZERO)
    ensures SumSoFar(e, x, 0, r)
  {
    hide HasValue, IsExponential;
    forall M: Meaning | IsMeaning(M) ensures HasValue(r, Wave(M.cis, M.env(x)), CZERO) { MeaningWave(M, x); }
  }

  lemma SumEnd(e: Expr, x: string, r: LaurentRat)
    requires e.Sum? && SumSoFar(e, x, |e.terms|, r)
    ensures Represents(e, x, r)
  {
    hide HasValue, IsExponential;
  }

  method CompileProduct(e: Expr, x: string) returns (r: Option<LaurentRat>)
    requires e.Product?
    ensures r.Some? ==> IsLaurentRat(r.value) && Represents(e, x, r.value) && Guarded(e, x) && Supported(e, x)
    ensures r.None? ==> Unsupported(e, x)
    decreases e, 0
  {
    hide HasValue, IsExponential, Represents, IsLaurentRat, CMul, CAdd, ProductSoFar, ProductGuarded, Guarded;
    var acc := LrConst(CONE);
    ProductStart(e, x, acc);
    GuardedStarts(e, x);
    for k := 0 to |e.factors|
      invariant IsLaurentRat(acc) && ProductSoFar(e, x, k, acc) && ProductGuarded(e, x, k)
      invariant forall i :: 0 <= i < k ==> Supported(e.factors[i], x)
    {
      var f := ToLaurentRat(e.factors[k], x);
      if f.None? { return None; }
      var next := LrMul(acc, f.value);
      ProductStep(e, x, k, acc, f.value, next);
      ProductGuardedStep(e, x, k);
      acc := next;
    }
    ProductEnd(e, x, acc);
    GuardedEnds(e, x);
    r := Some(acc);
  }

  lemma ProductStart(e: Expr, x: string, r: LaurentRat)
    requires e.Product? && forall E :: IsExponential(Complexes(), E) ==> HasValue(r, E, CONE)
    ensures ProductSoFar(e, x, 0, r)
  {
    hide HasValue, IsExponential;
    forall M: Meaning | IsMeaning(M) ensures HasValue(r, Wave(M.cis, M.env(x)), CONE) { MeaningWave(M, x); }
  }

  lemma ProductEnd(e: Expr, x: string, r: LaurentRat)
    requires e.Product? && ProductSoFar(e, x, |e.factors|, r)
    ensures Represents(e, x, r)
  {
    hide HasValue, IsExponential;
  }

  method CompileBinary(e: Expr, x: string) returns (r: Option<LaurentRat>)
    requires e.Binary? && !e.op.PowOp?
    ensures r.Some? ==> IsLaurentRat(r.value) && Represents(e, x, r.value) && Guarded(e, x) && Supported(e, x)
    ensures r.None? ==> Unsupported(e, x)
    decreases e, 0
  {
    hide HasValue, IsExponential, Represents, Guarded, CMul, CAdd, CNeg;
    var a := ToLaurentRat(e.left, x);
    if a.None? { return None; }
    var b := ToLaurentRat(e.right, x);
    if b.None? { return None; }
    var q;
    match e.op {
      case MulOp => q := LrMul(a.value, b.value);
      case DivOp =>
        if b.value.num == map[] { return None; }
        q := LrDiv(a.value, b.value);
        DividesByNonZero();
      case AddOp => q := LrAdd(a.value, b.value, false);
      case SubOp => q := LrAdd(a.value, b.value, true);
    }
    BinaryRepresents(e, x, a.value, b.value, q);
    BinaryGuarded(e, x, b.value);
    r := Some(q);
  }

  lemma DividesByNonZero()
    ensures forall v, w {:trigger Quotient(v, w)} :: Quotient(v, w).Some? ==> w != CZERO
  {}

  method CompilePow(e: Expr, x: string) returns (r: Option<LaurentRat>)
    requires e.Binary? && e.op.PowOp?
    ensures r.Some? ==> IsLaurentRat(r.value) && Represents(e, x, r.value) && Guarded(e, x) && Supported(e, x)
    ensures r.None? ==> Unsupported(e, x)
    decreases e, 0
  {
    hide HasValue, IsExponential, Represents, Guarded, Power, Flip;
    if !e.right.IntegerLit? { return None; }
    var n := e.right.value;
    var base := ToLaurentRat(e.left, x);
    if base.None? { return None; }
    if n < 0 && base.value.num == map[] { return None; }
    var q := LrPow(base.value, n < 0, if n < 0 then -n else n);
    PowRepresents(e, x, base.value, q);
    PowGuarded(e, x, base.value);
    r := Some(q);
  }

  // ----- an empty numerator -----

  lemma EmptyNumerator(e: Expr, x: string, r: LaurentRat)
    requires Represents(e, x, r) && r.num == map[]
    ensures forall M: Meaning :: IsMeaning(M) && Denote(M, e).Some? ==> Denote(M, e) == Some(CZERO)
  {
    hide IsExponential;
    forall M: Meaning | IsMeaning(M) && Denote(M, e).Some? ensures Denote(M, e) == Some(CZERO) {
      var (v, E) := (Denote(M, e).value, Wave(M.cis, M.env(x)));
      assert HasValue(r, E, v);
      assert NumAt(r, E) == CZERO;
      ZeroQuotient(v, DenAt(r, E));
    }
  }

  lemma ZeroQuotient(v: Complex, d: Complex)
    requires CMul(v, d) == CZERO && d != CZERO
    ensures v == CZERO
  {
    if v != CZERO { NonZeroProduct(v, d); }
  }
}
