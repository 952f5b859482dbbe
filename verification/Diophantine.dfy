/** The multi-term Diophantine equation  sum_i sigma_i * prod_{l != i} u_l == c  over a field. */
module Diophantine {
  import opened Rings
  import opened Polys
  import opened Division
  import opened Euclid
  import opened Comaximal

  // ----- the rational toolkit: division and extended gcd as total functions -----

  /** Division by zero returns the dividend as remainder. */
  function DivRem<F(==)>(K: Ring<F>, a: seq<F>, b: seq<F>): Quotient<F> {
    match DivMod(K, a, b)
    case None => Quotient([], a)
    case Some(d) => d
  }

  function GcdTriple<F(==)>(K: Ring<F>, a: seq<F>, b: seq<F>): Bezout<F>
    decreases |b|
  {
    if a == [] then Bezout(b, [], [K.one])
    else if b == [] then Bezout(a, [K.one], [])
    else
      var d := DivRem(K, a, b);
      if d.rem == [] || |d.rem| >= |b| then Bezout(b, [], [K.one])
      else
        var e := GcdTriple(K, b, d.rem);
        Bezout(e.g, e.t, PSub(K, e.s, PMul(K, d.quo, e.t)))
  }

  // s b + t r with r == a - q b is  t a + (s - q t) b
  lemma BackSubstitute<F(!new)>(R: Ring<F>, s: F, b: F, t: F, r: F, q: F, a: F)
    requires IsRing(R) && R.has(s) && R.has(b) && R.has(t) && R.has(r) && R.has(q) && R.has(a)
    requires R.add(R.mul(q, b), r) == a
    ensures Comb(R, t, a, Sub(R, s, R.mul(q, t)), b) == Comb(R, s, b, t, r)
  {
    var (qb, tr) := (R.mul(q, b), R.mul(t, r));
    Distr(R, t, qb, r);
    SubMul(R, s, q, t, b);
    MulSwap(R, t, q, b);
    var x := R.mul(q, R.mul(t, b));
    // (x + tr) + (sb - x) == tr + sb
    BorrowAndReturn(R, x, tr, R.mul(s, b));
    AddComm(R, tr, R.mul(s, b));
  }

  lemma DivRemCorrect<F(!new)>(K: Ring<F>, a: seq<F>, b: seq<F>)
    requires IsField(K) && IsPoly(K, a) && IsPoly(K, b)
    ensures var d := DivRem(K, a, b);
            && IsPoly(K, d.quo) && IsPoly(K, d.rem) && PAdd(K, PMul(K, d.quo, b), d.rem) == a
            && (b != [] ==> |d.rem| < |b|)
            && (b == [] ==> d == Quotient([], a))
  {
    DivModCorrect(K, a, b);
  }

  lemma {:induction false} GcdTripleCorrect<F(!new)>(K: Ring<F>, a: seq<F>, b: seq<F>)
    requires IsField(K) && IsPoly(K, a) && IsPoly(K, b)
    ensures IsBezout(K, a, b, GcdTriple(K, a, b))
    decreases |b|
  {
    PolyRingIsRing(K);
    var P := PolyRing(K);
    assert P.one == [K.one];
    if a == [] || b == [] {
      TrivialBezout(P, a, b);
      DividesSelf(P, a);
      DividesSelf(P, b);
      DividesZero(P, a);
      DividesZero(P, b);
    } else {
      DivRemCorrect(K, a, b);
      var d := DivRem(K, a, b);
      if d.rem == [] {
        TrivialBezout(P, a, b);
        DividesSelf(P, b);
        AddZero(P, PMul(K, d.quo, b));
        PMulPoly(K, d.quo, b);
        DividesIntro(P, d.quo, b, a);
      } else {
        GcdTripleCorrect(K, b, d.rem);
        var e := GcdTriple(K, b, d.rem);
        BackSubstitute(P, e.s, b, e.t, d.rem, d.quo, a);
        DivisorThroughStep(P, e.g, a, b, d.quo, d.rem);
        PMulPoly(K, d.quo, e.t);
        assert P.has(PSub(K, e.s, PMul(K, d.quo, e.t)));
      }
    }
  }

  lemma TrivialBezout<F(!new)>(R: Ring<F>, a: F, b: F)
    requires IsRing(R) && R.has(a) && R.has(b)
    ensures Comb(R, R.zero, a, R.one, b) == b && Comb(R, R.one, a, R.zero, b) == a
  {
    MulZero(R, a);
    MulZero(R, b);
    MulOne(R, a);
    MulOne(R, b);
    AddZero(R, a);
    AddZero(R, b);
  }

  // ----- the equation -----

  function Without<T>(us: seq<T>, i: nat): seq<T>
    requires i < |us|
  {
    us[..i] + us[i + 1..]
  }

  /** The first n terms of sum_i sigma_i * prod_{l != i} u_l. */
  ghost function CofactorSum<F>(R: Ring<F>, us: seq<F>, sigma: seq<F>, n: nat): F
    requires n <= |us| && n <= |sigma|
  {
    if n == 0 then R.zero
    else R.add(CofactorSum(R, us, sigma, n - 1), R.mul(sigma[n - 1], Prod(R, Without(us, n - 1))))
  }

  lemma {:induction false} CofactorSumHas<F(!new)>(R: Ring<F>, us: seq<F>, sigma: seq<F>, n: nat)
    requires IsRing(R) && Family(R, us) && Family(R, sigma) && n <= |us| && n <= |sigma|
    ensures R.has(CofactorSum(R, us, sigma, n))
  {
    if n > 0 {
      CofactorSumHas(R, us, sigma, n - 1);
      ProdHas(R, Without(us, n - 1));
    }
  }

  lemma {:induction false} CofactorSumPrefix<F(!new)>(R: Ring<F>, us: seq<F>, sigma: seq<F>, tau: seq<F>, n: nat)
    requires n <= |us| && n <= |sigma| && n <= |tau| && sigma[..n] == tau[..n]
    ensures CofactorSum(R, us, sigma, n) == CofactorSum(R, us, tau, n)
  {
    if n > 0 {
      assert sigma[..n - 1] == sigma[..n][..n - 1] && tau[..n - 1] == tau[..n][..n - 1];
      assert sigma[n - 1] == sigma[..n][n - 1] && tau[n - 1] == tau[..n][n - 1];
      CofactorSumPrefix(R, us, sigma, tau, n - 1);
    }
  }

  /** What the loop keeps: c is the terms found so far, plus the leading factors times the rest. */
  ghost predicate Peeled<F(!new)>(R: Ring<F>, us: seq<F>, sigma: seq<F>, i: nat, c: F, work: F)
    requires i <= |us| && i <= |sigma|
  {
    R.has(work) && c == R.add(CofactorSum(R, us, sigma, i), R.mul(Prod(R, us[..i]), work))
  }

  // work == s B + u work' turns (sum, lead * work) into (sum + s (lead B), (lead u) work')
  lemma PeelTerm<F(!new)>(R: Ring<F>, sum: F, lead: F, s: F, B: F, u: F, work: F, work': F)
    requires IsRing(R) && R.has(sum) && R.has(lead) && R.has(s) && R.has(B) && R.has(u) && R.has(work')
    requires work == R.add(R.mul(s, B), R.mul(work', u))
    ensures R.add(sum, R.mul(lead, work))
         == R.add(R.add(sum, R.mul(s, R.mul(lead, B))), R.mul(R.mul(lead, u), work'))
  {
    Distr(R, lead, R.mul(s, B), R.mul(work', u));
    MulSwap(R, lead, s, B);
    MulComm(R, work', u);
    MulAssoc(R, lead, u, work');
    AddAssoc(R, sum, R.mul(s, R.mul(lead, B)), R.mul(R.mul(lead, u), work'));
  }

  lemma PeelStep<F(!new)>(R: Ring<F>, us: seq<F>, sigma: seq<F>, i: nat, c: F, work: F, s: F, work': F)
    requires IsRing(R) && Family(R, us) && Family(R, sigma) && i < |us| && |sigma| == i && R.has(s) && R.has(work')
    requires Peeled(R, us, sigma, i, c, work)
    requires work == R.add(R.mul(s, Prod(R, us[i + 1..])), R.mul(work', us[i]))
    ensures Peeled(R, us, sigma + [s], i + 1, c, work')
  {
    var tau := sigma + [s];
    CofactorSumPrefix(R, us, sigma, tau, i);
    CofactorSumHas(R, us, sigma, i);
    var (lead, rest) := (us[..i], us[i + 1..]);
    ProdHas(R, lead);
    ProdHas(R, rest);
    ProdConcat(R, lead, rest);
    ProdConcat(R, lead, [us[i]]);
    ProdSingle(R, us[i]);
    assert us[..i + 1] == lead + [us[i]];
    PeelTerm(R, CofactorSum(R, us, sigma, i), Prod(R, lead), s, Prod(R, rest), us[i], work, work');
  }

  // c == sig B + (s c + q B) A, when s A + t B == 1 and c t == q A + sig
  lemma StepIdentity<F(!new)>(R: Ring<F>, s: F, A: F, t: F, B: F, c: F, q: F, sig: F)
    requires IsRing(R) && R.has(s) && R.has(A) && R.has(t) && R.has(B) && R.has(c) && R.has(q) && R.has(sig)
    requires Comb(R, s, A, t, B) == R.one && R.add(R.mul(q, A), sig) == R.mul(c, t)
    ensures c == R.add(R.mul(sig, B), R.mul(R.add(R.mul(s, c), R.mul(q, B)), A))
  {
    CombTimes(R, s, A, t, B, c);
    var (x, y) := (R.mul(R.mul(s, c), A), R.mul(R.mul(q, B), A));
    // t (B c) == (c t) B == (q A) B + sig B
    MulComm(R, B, c);
    MulAssoc(R, t, c, B);
    MulComm(R, t, c);
    DistrRight(R, R.mul(q, A), sig, B);
    MulAssoc(R, q, A, B);
    MulComm(R, A, B);
    MulAssoc(R, q, B, A);
    DistrRight(R, R.mul(s, c), R.mul(q, B), A);
    AddAssoc(R, x, y, R.mul(sig, B));
    AddComm(R, R.add(x, y), R.mul(sig, B));
  }

  // a product scaled on one side
  lemma ScaledProduct<F(!new)>(K: Ring<F>, inv: F, c: seq<F>, t: seq<F>)
    requires IsRing(K) && K.has(inv) && IsPoly(K, c) && IsPoly(K, t)
    ensures Scale(K, inv, PMul(K, c, t)) == PMul(K, c, Scale(K, inv, t))
    ensures IsPoly(K, Scale(K, inv, PMul(K, c, t)))
  {
    ScalePoly(K, inv, t);
    PMulComm(K, c, t);
    ScaleMul(K, inv, t, c);
    PMulComm(K, Scale(K, inv, t), c);
    PMulPoly(K, c, Scale(K, inv, t));
  }

  /** One term of the solution: the residue of c t / g by A, and the exact quotient left over. */
  lemma SolveTerm<F(!new)>(K: Ring<F>, A: seq<F>, B: seq<F>, c: seq<F>, r: Bezout<F>)
    requires IsField(K) && IsPoly(K, A) && IsPoly(K, B) && IsPoly(K, c)
    requires IsBezout(K, A, B, r) && |r.g| == 1
    ensures var tc := Scale(K, K.inverse(r.g[0]).value, PMul(K, c, r.t));
            var sig := DivRem(K, tc, A).rem;
            var d := DivRem(K, PSub(K, c, PMul(K, sig, B)), A);
            && IsPoly(K, sig) && (A != [] ==> |sig| < |A|)
            && d.rem == [] && IsPoly(K, d.quo)
            && c == PAdd(K, PMul(K, sig, B), PMul(K, d.quo, A))
  {
    hide PMul, PAdd, PNeg, Scale, DivRem, Divides;
    PolyRingIsRing(K);
    var P := PolyRing(K);
    var inv := K.inverse(r.g[0]).value;
    ConstantCombines(K, A, B, r);
    ScaledProduct(K, inv, c, r.t);
    var (s, t) := (Scale(K, inv, r.s), Scale(K, inv, r.t));
    var tc := Scale(K, inv, PMul(K, c, r.t));
    DivRemCorrect(K, tc, A);
    var (q, sig) := (DivRem(K, tc, A).quo, DivRem(K, tc, A).rem);
    StepIdentity(P, s, A, t, B, c, q, sig);
    var w := P.add(P.mul(s, c), P.mul(q, B));
    PMulPoly(K, sig, B);
    assert P.has(w);
    ExactRest(K, A, c, PMul(K, sig, B), w);
  }

  // c == x + w A leaves an exact quotient of c - x by A
  lemma ExactRest<F(!new)>(K: Ring<F>, A: seq<F>, c: seq<F>, x: seq<F>, w: seq<F>)
    requires IsField(K) && IsPoly(K, A) && IsPoly(K, c) && IsPoly(K, x) && IsPoly(K, w)
    requires c == PAdd(K, x, PMul(K, w, A))
    ensures IsPoly(K, PSub(K, c, x)) && DivRem(K, PSub(K, c, x), A).rem == []
    ensures IsPoly(K, DivRem(K, PSub(K, c, x), A).quo)
    ensures c == PAdd(K, x, PMul(K, DivRem(K, PSub(K, c, x), A).quo, A))
  {
    PolyRingIsRing(K);
    var P := PolyRing(K);
    PMulPoly(K, w, A);
    SubOfSum(P, x, PMul(K, w, A), c);
    DivRemCorrect(K, PSub(K, c, x), A);
    AddZero(P, PMul(K, w, A));
    if A == [] {
      PMulPoly(K, w, []);
    } else {
      DivisionUnique(K, PSub(K, c, x), A, DivRem(K, PSub(K, c, x), A), Quotient(w, []));
    }
  }

  /** What the loop keeps. */
  ghost predicate Solving<F(!new)>(K: Ring<F>, u: seq<seq<F>>, sigma: seq<seq<F>>, c: seq<F>, work: seq<F>) {
    var P := PolyRing(K);
    && |sigma| <= |u| && Family(P, sigma) && IsPoly(K, work)
    && Peeled(P, u, sigma, |sigma|, c, work)
    && (forall k :: 0 <= k < |sigma| && u[k] != [] ==> |sigma[k]| < |u[k]|)
    && (forall k, l :: 0 <= k < |sigma| && k < l < |u| ==> Comax(P, u[k], u[l]))
  }

  lemma SolvingStarts<F(!new)>(K: Ring<F>, u: seq<seq<F>>, c: seq<F>)
    requires IsRing(K) && IsPoly(K, c)
    ensures Solving(K, u, [], c, c)
  {
    PolyRingIsRing(K);
    assert u[..0] == [];
    MulOne(PolyRing(K), c);
    AddZero(PolyRing(K), c);
  }

  /** One round: a residue for factor i and the exact quotient left over, or failure when factor i
      is not comaximal with the product of the later ones. */
  method SolveRound<F(!new,==)>(K: Ring<F>, A: seq<F>, B: seq<F>, work: seq<F>) returns (r: Option<(seq<F>, seq<F>)>)
    requires IsField(K) && IsPoly(K, A) && IsPoly(K, B) && IsPoly(K, work)
    ensures r.Some? <==> Comax(PolyRing(K), A, B)
    ensures r.Some? ==>
      && IsPoly(K, r.value.0) && IsPoly(K, r.value.1)
      && (A != [] ==> |r.value.0| < |A|)
      && work == PAdd(K, PMul(K, r.value.0, B), PMul(K, r.value.1, A))
  {
    hide Comax, IsBezout;
    var e := GcdTriple(K, A, B);
    GcdTripleCorrect(K, A, B);
    ConstantGcd(K, A, B, e);
    if |e.g| != 1 { return None; }
    var tc := Scale(K, K.inverse(e.g[0]).value, PMul(K, work, e.t));
    SolveTerm(K, A, B, work, e);
    var s := DivRem(K, tc, A).rem;
    var d := DivRem(K, PSub(K, work, PMul(K, s, B)), A);
    if d.rem != [] { return None; }
    r := Some((s, d.quo));
  }

  lemma PeelPoly<F(!new)>(K: Ring<F>, u: seq<seq<F>>, sigma: seq<seq<F>>, c: seq<F>, work: seq<F>,
                          s: seq<F>, work': seq<F>)
    requires IsField(K) && Family(PolyRing(K), u) && Family(PolyRing(K), sigma) && |sigma| < |u|
    requires IsPoly(K, s) && IsPoly(K, work') && Peeled(PolyRing(K), u, sigma, |sigma|, c, work)
    requires work == PAdd(K, PMul(K, s, Prod(PolyRing(K), u[|sigma| + 1..])), PMul(K, work', u[|sigma|]))
    ensures Family(PolyRing(K), sigma + [s]) && Peeled(PolyRing(K), u, sigma + [s], |sigma| + 1, c, work')
  {
    hide PAdd, PMul, Prod, Peeled;
    PolyRingIsRing(K);
    PeelStep(PolyRing(K), u, sigma, |sigma|, c, work, s, work');
  }

  lemma SolvingStep<F(!new)>(K: Ring<F>, u: seq<seq<F>>, sigma: seq<seq<F>>, c: seq<F>, work: seq<F>,
                             s: seq<F>, work': seq<F>)
    requires IsField(K) && Family(PolyRing(K), u) && Solving(K, u, sigma, c, work) && |sigma| < |u|
    requires IsPoly(K, s) && IsPoly(K, work') && (u[|sigma|] != [] ==> |s| < |u[|sigma|]|)
    requires Comax(PolyRing(K), u[|sigma|], Prod(PolyRing(K), u[|sigma| + 1..]))
    requires work == PAdd(K, PMul(K, s, Prod(PolyRing(K), u[|sigma| + 1..])), PMul(K, work', u[|sigma|]))
    ensures Solving(K, u, sigma + [s], c, work')
  {
    hide PAdd, PMul, Prod, Comax, Peeled, PolyRing, IsPoly, IsField;
    RestComax(K, u, |sigma|);
    PeelPoly(K, u, sigma, c, work, s, work');
    var P := PolyRing(K);
    var tau := sigma + [s];
    forall k | 0 <= k < |tau| && u[k] != [] ensures |tau[k]| < |u[k]| {
      assert k < |sigma| ==> tau[k] == sigma[k];
    }
    forall k, l | 0 <= k < |tau| && k < l < |u| ensures Comax(P, u[k], u[l]) {}
  }

  /** The solver: succeeds exactly on pairwise comaximal factors, and its combination is then the
      residue of c modulo their product; so it solves the equation exactly when the degree of c is
      below the sum of the degrees. */
  method UnivariateDiophantine<F(!new,==)>(K: Ring<F>, u: seq<seq<F>>, c: seq<F>) returns (r: Option<seq<seq<F>>>)
    requires IsField(K) && Family(PolyRing(K), u) && IsPoly(K, c)
    ensures r.Some? <==> u != [] && PairwiseComax(PolyRing(K), u)
    ensures r.Some? ==> |r.value| == |u| && Family(PolyRing(K), r.value)
    ensures r.Some? ==> forall i :: 0 <= i < |u| && u[i] != [] ==> |r.value[i]| < |u[i]|
    ensures r.Some? && NonZero(u) ==> Solves(K, u, r.value, c)
    ensures r.Some? && !NonZero(u) ==> CofactorSum(PolyRing(K), u, r.value, |u|) == c
  {
    hide PAdd, PMul, Scale, PNeg, Cons, Prod, CofactorSum, Comax, Peeled, DivRem;
    if u == [] { return None; }
    var sigma: seq<seq<F>> := [];
    var work := c;
    SolvingStarts(K, u, c);
    var i := 0;
    while i + 1 < |u|
      invariant i < |u| && |sigma| == i && Solving(K, u, sigma, c, work)
    {
      var B := Rest(K, u, i);
      var round := SolveRound(K, u[i], B, work);
      RestComax(K, u, i);
      if round.None? { return None; }
      SolvingStep(K, u, sigma, c, work, round.value.0, round.value.1);
      sigma := sigma + [round.value.0];
      work := round.value.1;
      i := i + 1;
    }
    var last := DivRem(K, work, u[i]);
    FinishPeel(K, u, sigma, i, c, work);
    DivRemCorrect(K, work, u[i]);
    sigma := sigma + [last.rem];
    if NonZero(u) {
      SolutionIsResidue(K, u, sigma, c, last.quo);
    } else {
      SolutionWithZero(K, u, sigma, c, last.quo);
    }
    r := Some(sigma);
  }

  /** The product of the factors after position i. */
  method Rest<F(!new,==)>(K: Ring<F>, u: seq<seq<F>>, i: nat) returns (B: seq<F>)
    requires IsRing(K) && Family(PolyRing(K), u) && i < |u|
    ensures B == Prod(PolyRing(K), u[i + 1..]) && IsPoly(K, B)
  {
    hide IsRing, IsPoly, Prod, PMul, PolyRing, Family;
    ghost var P := PolyRing(K);
    B := [K.one];
    assert u[i + 1..i + 1] == [];
    RestStart(K);
    for l := i + 1 to |u|
      invariant IsPoly(K, B) && B == Prod(P, u[i + 1..l])
    {
      RestStep(K, u, i, l, B);
      B := PMul(K, B, u[l]);
    }
    assert u[i + 1..|u|] == u[i + 1..];
  }

  lemma RestStart<F(!new)>(K: Ring<F>)
    requires IsRing(K)
    ensures IsPoly(K, [K.one]) && Prod(PolyRing(K), []) == [K.one]
  {}

  lemma RestStep<F(!new)>(K: Ring<F>, u: seq<seq<F>>, i: nat, l: nat, B: seq<F>)
    requires IsRing(K) && Family(PolyRing(K), u) && i < l < |u| && IsPoly(K, B) && B == Prod(PolyRing(K), u[i + 1..l])
    ensures IsPoly(K, PMul(K, B, u[l])) && PMul(K, B, u[l]) == Prod(PolyRing(K), u[i + 1..l + 1])
  {
    hide PMul;
    PolyRingIsRing(K);
    var P := PolyRing(K);
    assert u[i + 1..l + 1] == u[i + 1..l] + [u[l]];
    ProdConcat(P, u[i + 1..l], [u[l]]);
    ProdSingle(P, u[l]);
    PMulPoly(K, B, u[l]);
  }

  lemma RestComax<F(!new)>(K: Ring<F>, u: seq<seq<F>>, i: nat)
    requires IsField(K) && Family(PolyRing(K), u) && i < |u|
    ensures Comax(PolyRing(K), u[i], Prod(PolyRing(K), u[i + 1..]))
      <==> forall l :: i < l < |u| ==> Comax(PolyRing(K), u[i], u[l])
  {
    PolyRingIsRing(K);
    var P := PolyRing(K);
    var rest := u[i + 1..];
    ComaxProd(P, u[i], rest);
    if forall k :: 0 <= k < |rest| ==> Comax(P, u[i], rest[k]) {
      forall l | i < l < |u| ensures Comax(P, u[i], u[l]) { assert u[l] == rest[l - i - 1]; }
    }
  }

  // the last term: dropping the quotient q leaves c short by q times the whole product
  lemma FinishPeel<F(!new)>(K: Ring<F>, u: seq<seq<F>>, sigma: seq<seq<F>>, i: nat, c: seq<F>, work: seq<F>)
    requires IsField(K) && Family(PolyRing(K), u) && Family(PolyRing(K), sigma) && |u| == i + 1 && |sigma| == i
    requires Peeled(PolyRing(K), u, sigma, i, c, work)
    ensures var d := DivRem(K, work, u[i]);
            && IsPoly(K, d.rem) && IsPoly(K, d.quo)
            && Peeled(PolyRing(K), u, sigma + [d.rem], i + 1, c, d.quo)
  {
    PolyRingIsRing(K);
    var P := PolyRing(K);
    DivRemCorrect(K, work, u[i]);
    var d := DivRem(K, work, u[i]);
    MulOne(P, d.rem);
    assert u[i + 1..] == [];
    PMulPoly(K, d.quo, u[i]);
    AddComm(P, PMul(K, d.quo, u[i]), d.rem);
    PeelStep(P, u, sigma, i, c, work, d.rem, d.quo);
  }

  // ----- degrees -----

  ghost predicate NonZero<F(!new)>(u: seq<seq<F>>) {
    forall i :: 0 <= i < |u| ==> u[i] != []
  }

  /** The sum of the degrees. */
  function DegreeSum<F>(u: seq<seq<F>>): int {
    if u == [] then 0 else |u[0]| - 1 + DegreeSum(u[1..])
  }

  /** What a solution is: the combination is the residue of c modulo the product of the factors, and
      equals c exactly when c has lower degree than that product. */
  ghost predicate Solves<F(!new)>(K: Ring<F>, u: seq<seq<F>>, sigma: seq<seq<F>>, c: seq<F>)
    requires |u| == |sigma|
  {
    var P := PolyRing(K);
    var sum := CofactorSum(P, u, sigma, |u|);
    && IsPoly(K, sum)
    && (exists q {:trigger PMul(K, q, Prod(P, u))} :: IsQuotient(K, c, Prod(P, u), Quotient(q, sum)))
    && (sum == c <==> |c| - 1 < DegreeSum(u))
  }

  /** The degree bound is needed: x over the single factor x.  The family is comaximal, the bound fails, and
      whatever the solver returns combines to zero, not to x. */
  lemma SolverMisses<F(!new)>(K: Ring<F>, sigma: seq<seq<F>>)
    requires IsField(K) && |sigma| == 1
    ensures var (u, c) := ([[K.zero, K.one]], [K.zero, K.one]);
      && Family(PolyRing(K), u) && NonZero(u) && PairwiseComax(PolyRing(K), u)
      && !(|c| - 1 < DegreeSum(u))
      && (Solves(K, u, sigma, c) ==> CofactorSum(PolyRing(K), u, sigma, 1) == [] != c)
  {
    hide CofactorSum, Prod, PMul, PAdd, IsField;
    FieldIsDomain(K);
    PolyRingIsRing(K);
    var (P, x) := (PolyRing(K), [K.zero, K.one]);
    assert [x][1..] == [] && DegreeSum([x]) == 1;
    SquareOfX(K);
    ProdSingle(P, x);
    if Solves(K, [x], sigma, x) {
      var sum := CofactorSum(P, [x], sigma, 1);
      var q :| IsQuotient(K, x, x, Quotient(q, sum));
      MulOne(P, x);
      AddZero(P, x);
      assert P.one == [K.one] && PMul(K, [K.one], x) == P.mul(P.one, x) && PAdd(K, x, []) == P.add(x, P.zero);
      InverseOne(K);
      DivisionUnique(K, x, x, Quotient(q, sum), Quotient([K.one], []));
    }
  }

  lemma {:induction false} ProdLen<F(!new)>(K: Ring<F>, u: seq<seq<F>>)
    requires IsDomain(K) && Family(PolyRing(K), u) && NonZero(u)
    ensures IsPoly(K, Prod(PolyRing(K), u)) && |Prod(PolyRing(K), u)| == DegreeSum(u) + 1
    ensures DegreeSum(u) >= 0
  {
    PolyRingIsRing(K);
    ProdHas(PolyRing(K), u);
    if u != [] {
      ProdLen(K, u[1..]);
      PMulLen(K, u[0], Prod(PolyRing(K), u[1..]));
    }
  }

  lemma {:induction false} DegreeSumConcat<F>(u: seq<seq<F>>, v: seq<seq<F>>)
    ensures DegreeSum(u + v) == DegreeSum(u) + DegreeSum(v)
  {
    if u == [] {
      assert [] + v == v;
    } else {
      assert (u + v)[1..] == u[1..] + v;
      DegreeSumConcat(u[1..], v);
    }
  }

  lemma TermShort<F(!new)>(K: Ring<F>, u: seq<seq<F>>, i: nat, s: seq<F>)
    requires IsDomain(K) && Family(PolyRing(K), u) && NonZero(u) && i < |u|
    requires IsPoly(K, s) && |s| < |u[i]|
    ensures IsPoly(K, PMul(K, s, Prod(PolyRing(K), Without(u, i))))
    ensures |PMul(K, s, Prod(PolyRing(K), Without(u, i)))| <= DegreeSum(u)
  {
    var (a, b) := (u[..i], u[i + 1..]);
    assert u == a + ([u[i]] + b);
    DegreeSumConcat(a, [u[i]] + b);
    DegreeSumConcat([u[i]], b);
    DegreeSumConcat(a, b);
    assert [u[i]][1..] == [];
    assert DegreeSum([u[i]]) == |u[i]| - 1;
    ProdLen(K, Without(u, i));
    ProdLen(K, u);
    PMulPoly(K, s, Prod(PolyRing(K), Without(u, i)));
    if s != [] { PMulLen(K, s, Prod(PolyRing(K), Without(u, i))); }
  }

  lemma {:induction false} SumShort<F(!new)>(K: Ring<F>, u: seq<seq<F>>, sigma: seq<seq<F>>, n: nat)
    requires IsDomain(K) && Family(PolyRing(K), u) && Family(PolyRing(K), sigma) && NonZero(u)
    requires n <= |u| == |sigma| && forall i :: 0 <= i < |u| ==> |sigma[i]| < |u[i]|
    ensures IsPoly(K, CofactorSum(PolyRing(K), u, sigma, n))
    ensures |CofactorSum(PolyRing(K), u, sigma, n)| <= DegreeSum(u)
  {
    ProdLen(K, u);
    if n > 0 {
      SumShort(K, u, sigma, n - 1);
      TermShort(K, u, n - 1, sigma[n - 1]);
      PAddPoly(K, CofactorSum(PolyRing(K), u, sigma, n - 1),
               PMul(K, sigma[n - 1], Prod(PolyRing(K), Without(u, n - 1))));
    }
  }

  /** With a zero among the factors the product is zero, and the combination is c. */
  lemma SolutionWithZero<F(!new)>(K: Ring<F>, u: seq<seq<F>>, sigma: seq<seq<F>>, c: seq<F>, q: seq<F>)
    requires IsRing(K) && Family(PolyRing(K), u) && Family(PolyRing(K), sigma) && !NonZero(u) && |u| == |sigma|
    requires Peeled(PolyRing(K), u, sigma, |u|, c, q)
    ensures CofactorSum(PolyRing(K), u, sigma, |u|) == c
  {
    hide CofactorSum, Prod, PMul, PAdd, PNeg, IsRing;
    PolyRingIsRing(K);
    var P := PolyRing(K);
    var i :| 0 <= i < |u| && u[i] == [];
    assert u[..|u|] == u && u[i] == P.zero;
    ZeroFactor(P, u, i);
    MulZero(P, q);
    CofactorSumHas(P, u, sigma, |u|);
    AddZero(P, CofactorSum(P, u, sigma, |u|));
  }

  lemma ZeroFactor<F(!new)>(R: Ring<F>, us: seq<F>, i: nat)
    requires IsRing(R) && Family(R, us) && i < |us| && us[i] == R.zero
    ensures Prod(R, us) == R.zero
  {
    hide Prod;
    var (v, w) := (us[..i], us[i + 1..]);
    assert us == v + [us[i]] + w;
    ProdHas(R, v);
    ProdHas(R, w);
    ProdConcat(R, v, [us[i]]);
    ProdConcat(R, v + [us[i]], w);
    ProdSingle(R, us[i]);
    MulZero(R, Prod(R, v));
    MulZero(R, Prod(R, w));
  }

  lemma SolutionIsResidue<F(!new)>(K: Ring<F>, u: seq<seq<F>>, sigma: seq<seq<F>>, c: seq<F>, q: seq<F>)
    requires IsField(K) && Family(PolyRing(K), u) && Family(PolyRing(K), sigma) && NonZero(u) && IsPoly(K, c)
    requires |u| == |sigma| && forall i :: 0 <= i < |u| ==> |sigma[i]| < |u[i]|
    requires Peeled(PolyRing(K), u, sigma, |u|, c, q)
    ensures Solves(K, u, sigma, c)
  {
    FieldIsDomain(K);
    PolyRingIsRing(K);
    var P := PolyRing(K);
    var sum := CofactorSum(P, u, sigma, |u|);
    var p := Prod(P, u);
    assert u[..|u|] == u;
    SumShort(K, u, sigma, |u|);
    ProdLen(K, u);
    PMulPoly(K, q, p);
    PMulComm(K, q, p);
    AddComm(P, sum, PMul(K, q, p));
    assert IsQuotient(K, c, p, Quotient(q, sum));
    if q == [] {
      AddZero(P, sum);
    } else {
      PMulLen(K, q, p);
      PAddPoly(K, PMul(K, q, p), sum);
    }
  }
}
