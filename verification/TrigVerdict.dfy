/** The prover itself: which expressions it decides, and what its verdict is worth. */
module TrigVerdict {
  import opened Rings
  import opened Laurent
  import opened ComplexNumbers
  import opened TrigProver
  import opened LaurentZeros

  // ----- occurrence -----

  ghost function Children(e: Expr): (cs: seq<Expr>)
    ensures forall i :: 0 <= i < |cs| ==> cs[i] < e
  {
    match e
    case Negation(a) => [a]
    case Binary(_, a, b) => [a, b]
    case Sum(ts) => ts
    case Product(fs) => fs
    case FuncCall(_, args) => args
    case _ => []
  }

  /** s is e or occurs somewhere below it. */
  ghost predicate Subterm(s: Expr, e: Expr)
    decreases e
  {
    s == e || exists i :: 0 <= i < |Children(e)| && Subterm(s, Children(e)[i])
  }

  /** x occurs in e, and no other name does. */
  ghost predicate OnlyName(e: Expr, x: string) {
    forall y :: Subterm(Symbol(y), e) <==> y == x
  }

  /** The free variables. */
  function Symbols(e: Expr): set<string>
    decreases e
  {
    match e
    case Symbol(s) => {s}
    case Negation(a) => Symbols(a)
    case Binary(_, a, b) => Symbols(a) + Symbols(b)
    case Sum(ts) => set t, s | t in ts && s in Symbols(t) :: s
    case Product(fs) => set f, s | f in fs && s in Symbols(f) :: s
    case FuncCall(_, args) => set a, s | a in args && s in Symbols(a) :: s
    case _ => {}
  }

  lemma SymbolsOfChildren(e: Expr, y: string)
    requires !e.Symbol?
    ensures y in Symbols(e) <==> exists i :: 0 <= i < |Children(e)| && y in Symbols(Children(e)[i])
  {
    var cs := Children(e);
    if e.Negation? { assert cs[0] == e.operand; }
    if e.Binary? { assert cs[0] == e.left && cs[1] == e.right; }
  }

  /** Exactly the names that occur are collected. */
  lemma {:induction false} SymbolsOccur(e: Expr, y: string)
    ensures y in Symbols(e) <==> Subterm(Symbol(y), e)
    decreases e
  {
    hide Symbols;
    if e.Symbol? {
      OneSymbol(e.name);
    } else {
      SymbolsOfChildren(e, y);
      forall i | 0 <= i < |Children(e)|
        ensures y in Symbols(Children(e)[i]) <==> Subterm(Symbol(y), Children(e)[i])
      {
        SymbolsOccur(Children(e)[i], y);
      }
    }
  }

  lemma OneSymbol(s: string)
    ensures Symbols(Symbol(s)) == {s}
  {}

  ghost predicate Agree(M: Meaning, N: Meaning, names: set<string>) {
    M.cis == N.cis && M.other == N.other && forall y :: y in names ==> M.env(y) == N.env(y)
  }

  /** The value depends on no other variable. */
  lemma {:induction false} ValueOfSymbols(M: Meaning, N: Meaning, e: Expr)
    requires Agree(M, N, Symbols(e))
    ensures Denote(M, e) == Denote(N, e)
    decreases e, 0
  {
    hide CAdd, CMul, CNeg, CInverse, Symbols, Power;
    forall i | 0 <= i < |Children(e)| ensures Denote(M, Children(e)[i]) == Denote(N, Children(e)[i]) {
      forall y ensures y in Symbols(Children(e)[i]) ==> y in Symbols(e) { SymbolsOfChildren(e, y); }
      ValueOfSymbols(M, N, Children(e)[i]);
    }
    match e
    case Symbol(s) => OneSymbol(s);
    case Sum(ts) =>
      assert Children(e) == ts;
      SumOfSame(M, N, e, |ts|);
    case Product(fs) =>
      assert Children(e) == fs;
      ProductOfSame(M, N, e, |fs|);
    case Negation(a) => assert Children(e)[0] == a;
    case Binary(_, a, b) => assert Children(e)[0] == a && Children(e)[1] == b;
    case FuncCall(_, args) => if |args| == 1 { assert Children(e)[0] == args[0]; }
    case _ =>
  }

  lemma {:induction false} SumOfSame(M: Meaning, N: Meaning, e: Expr, k: nat)
    requires e.Sum? && k <= |e.terms|
    requires forall i :: 0 <= i < |e.terms| ==> Denote(M, e.terms[i]) == Denote(N, e.terms[i])
    ensures DenoteSum(M, e, k) == DenoteSum(N, e, k)
  {
    hide CAdd;
    if k > 0 { SumOfSame(M, N, e, k - 1); }
  }

  lemma {:induction false} ProductOfSame(M: Meaning, N: Meaning, e: Expr, k: nat)
    requires e.Product? && k <= |e.factors|
    requires forall i :: 0 <= i < |e.factors| ==> Denote(M, e.factors[i]) == Denote(N, e.factors[i])
    ensures DenoteProduct(M, e, k) == DenoteProduct(N, e, k)
  {
    hide CMul;
    if k > 0 { ProductOfSame(M, N, e, k - 1); }
  }

  // ----- the class of trigonometric rationals -----

  /** What is compiled below e: not the arguments of calls, and not exponents. */
  ghost function Parts(e: Expr): (cs: seq<Expr>)
    ensures forall i :: 0 <= i < |cs| ==> cs[i] < e
  {
    match e
    case Negation(a) => [a]
    case Binary(op, a, b) => if op.PowOp? then [a] else [a, b]
    case Sum(ts) => ts
    case Product(fs) => fs
    case _ => []
  }

  ghost predicate Reached(s: Expr, e: Expr)
    decreases e
  {
    s == e || exists i :: 0 <= i < |Parts(e)| && Reached(s, Parts(e)[i])
  }

  ghost predicate LinearArgument(arg: Expr, x: string) {
    arg == Symbol(x) || exists k :: LiteralTimes(arg, k, x)
  }

  /** A literal, a sum, product, difference or negation; sine or cosine of a rational multiple of x; an integer
      power; nothing that is zero wherever it has a value as a divisor or as the base of a negative power. */
  ghost predicate GoodNode(s: Expr, x: string) {
    match s
    case FuncCall(f, args) => (f.Sin? || f.Cos?) && |args| == 1 && LinearArgument(args[0], x)
    case Binary(op, a, b) =>
      && (op.PowOp? ==> b.IntegerLit? && (b.value < 0 ==> !VanishesEverywhere(a)))
      && (op.DivOp? ==> !VanishesEverywhere(b))
    case Symbol(_) => false
    case OtherNode(_) => false
    case _ => true
  }

  /** A trigonometric rational of x. */
  ghost predicate InClass(e: Expr, x: string) {
    forall s :: Reached(s, e) ==> GoodNode(s, x)
  }

  lemma ClassOfParts(e: Expr, x: string)
    ensures InClass(e, x) <==> GoodNode(e, x) && forall i :: 0 <= i < |Parts(e)| ==> InClass(Parts(e)[i], x)
  {
    hide GoodNode;
    if InClass(e, x) {
      assert Reached(e, e);
      forall i, s | 0 <= i < |Parts(e)| && Reached(s, Parts(e)[i]) ensures GoodNode(s, x) { assert Reached(s, e); }
    }
    if GoodNode(e, x) && forall i :: 0 <= i < |Parts(e)| ==> InClass(Parts(e)[i], x) {
      forall s | Reached(s, e) ensures GoodNode(s, x) {
        if s != e {
          var i :| 0 <= i < |Parts(e)| && Reached(s, Parts(e)[i]);
          assert InClass(Parts(e)[i], x);
        }
      }
    }
  }

  lemma ZeroVanishes(e: Expr, x: string)
    requires IdenticallyZero(e, x)
    ensures VanishesEverywhere(e)
  {
    hide Guarded, Represents, Denote;
    var r :| IsLaurentRat(r) && r.num == map[] && Represents(e, x, r);
    EmptyNumerator(e, x, r);
  }

  /** What the compiler refuses is outside the class. */
  lemma {:induction false} RefusedIsOutside(e: Expr, x: string)
    requires Unsupported(e, x)
    ensures !InClass(e, x)
    decreases e
  {
    hide InClass, IdenticallyZero, VanishesEverywhere, LinearFreq;
    ClassOfParts(e, x);
    match e
    case FuncCall(f, args) => if |args| == 1 { LinearShapes(args[0], x); }
    case Negation(a) =>
      RefusedIsOutside(a, x);
      assert Parts(e)[0] == a;
    case Sum(ts) =>
      var i :| 0 <= i < |ts| && Unsupported(ts[i], x);
      RefusedIsOutside(ts[i], x);
      assert Parts(e)[i] == ts[i];
    case Product(fs) =>
      var i :| 0 <= i < |fs| && Unsupported(fs[i], x);
      RefusedIsOutside(fs[i], x);
      assert Parts(e)[i] == fs[i];
    case Binary(op, a, b) =>
      assert Parts(e)[0] == a && (!op.PowOp? ==> Parts(e)[1] == b);
      if Unsupported(a, x) {
        RefusedIsOutside(a, x);
      } else if !op.PowOp? && Unsupported(b, x) {
        RefusedIsOutside(b, x);
      } else if op.DivOp? {
        ZeroVanishes(b, x);
      } else if op.PowOp? && b.IntegerLit? {
        ZeroVanishes(a, x);
      }
    case _ =>
  }

  /** Some reading of e^(it) tells any finitely many frequencies apart at some point, as the complex exponential
      does. */
  ghost predicate Separating() {
    exists M: Meaning :: IsMeaning(M) && TellsApart(M)
  }

  ghost predicate TellsApart(M: Meaning) {
    forall w: LaurentMap<Complex> :: SomewhereSeparates(M, w)
  }

  lemma NonZeroDoesNotVanish(e: Expr, x: string)
    requires Separating() && NonZeroNumerator(e, x)
    ensures !VanishesEverywhere(e)
  {
    hide Denote, Separates, NonZeroNumerator;
    var M: Meaning :| IsMeaning(M) && TellsApart(M);
    var w := FalseIsRefuted(e, x);
    assert SomewhereSeparates(M, w);
    var t: real :| Separates(w, Wave(M.cis, t));
    assert NonZeroAtSome(e, x, M, t);
    var n: nat :| NonZeroAtMultiple(e, x, M, t, n);
    assert IsMeaning(AtPoint(M, x, RMul(n as real, t)));
  }

  /** What the compiler accepts is in the class. */
  lemma {:induction false} AcceptedIsInside(e: Expr, x: string)
    requires Separating() && Supported(e, x)
    ensures InClass(e, x)
    decreases e
  {
    hide InClass, NonZeroNumerator, VanishesEverywhere, LinearFreq, Separating;
    ClassOfParts(e, x);
    forall i | 0 <= i < |Parts(e)| ensures InClass(Parts(e)[i], x) { AcceptedIsInside(Parts(e)[i], x); }
    match e
    case FuncCall(f, args) => LinearShapes(args[0], x);
    case Binary(op, a, b) =>
      if op.DivOp? { NonZeroDoesNotVanish(b, x); }
      if op.PowOp? && b.value < 0 { NonZeroDoesNotVanish(a, x); }
    case _ =>
  }

  // ----- the prover -----

  /** A claimed identity holds: the value is zero wherever there is one, for every reading of e^(it) as a
      homomorphism and of the nodes the prover does not understand.  No claim is made only of expressions with
      none or several variables, outside the class, or whose numerator has terms; so the claim is made exactly
      of the trigonometric rationals of one variable that vanish. */
  method TrigExponentialZeroDiff(e: Expr) returns (zero: bool)
    ensures zero ==> VanishesEverywhere(e) && exists x :: OnlyName(e, x) && IdenticallyZero(e, x)
    ensures !zero ==> forall x :: OnlyName(e, x) && InClass(e, x) ==> NonZeroNumerator(e, x)
    ensures Separating() ==> (zero <==> VanishesEverywhere(e) && exists x :: OnlyName(e, x) && InClass(e, x))
  {
    hide Represents, IsExponential, Symbols, HasValue, Unsupported, Supported, Guarded, VanishesEverywhere, InClass,
         OnlyName, Separating, Denote;
    if |Symbols(e)| != 1 {
      forall x ensures !OnlyName(e, x) { OneNameOnly(e, x); }
      return false;
    }
    var x := TakeOne(Symbols(e));
    forall y ensures OnlyName(e, y) <==> y == x { TheName(e, x, y); }
    var r := ToLaurentRat(e, x);
    if r.None? {
      RefusedIsOutside(e, x);
      return false;
    }
    if r.value.den == map[] { return false; }
    zero := r.value.num == map[];
    if zero {
      assert IdenticallyZero(e, x);
      ZeroVanishes(e, x);
    }
    if Separating() {
      AcceptedIsInside(e, x);
      if !zero {
        assert NonZeroNumerator(e, x);
        NonZeroDoesNotVanish(e, x);
      }
    }
  }

  lemma OneNameOnly(e: Expr, x: string)
    ensures OnlyName(e, x) ==> Symbols(e) == {x}
  {
    hide Symbols;
    forall y ensures y in Symbols(e) <==> Subterm(Symbol(y), e) { SymbolsOccur(e, y); }
  }

  lemma TheName(e: Expr, x: string, y: string)
    requires |Symbols(e)| == 1 && x in Symbols(e)
    ensures OnlyName(e, y) <==> y == x
  {
    hide Symbols;
    OneNameOnly(e, y);
    assert Symbols(e) == {x} by {
      assert |Symbols(e) - {x}| == 0;
    }
    forall z ensures z in Symbols(e) <==> Subterm(Symbol(z), e) { SymbolsOccur(e, z); }
  }
}
