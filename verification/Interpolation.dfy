/** Interpolation over the rationals, twice: Lagrange's formula, and divided differences expanded
    from Newton's form.  Both produce the one interpolating polynomial. */
module Interpolation {
  import opened Rings
  import opened Polys
  import opened Vectors
  import opened Roots

  // Products and quotients of rationals, named so that proofs about vectors can leave them alone.

  function Mul(a: real, b: real): real { a * b }

  function Div(a: real, b: real): real
    requires b != 0.0
  {
    a / b
  }

  lemma MulLaws(a: real, b: real, c: real)
    ensures Mul(a, b) == Mul(b, a)
    ensures Mul(Mul(a, b), c) == Mul(a, Mul(b, c))
    ensures Mul(a, b + c) == Mul(a, b) + Mul(a, c) && Mul(b + c, a) == Mul(b, a) + Mul(c, a)
    ensures Mul(a, b - c) == Mul(a, b) - Mul(a, c) && Mul(b - c, a) == Mul(b, a) - Mul(c, a)
    ensures Mul(0.0, a) == 0.0 == Mul(a, 0.0) && Mul(1.0, a) == a == Mul(a, 1.0)
    ensures Mul(-a, b) == -Mul(a, b)
  {
    assert (a * b) * c == a * (b * c);
    assert a * (b + c) == a * b + a * c;
    assert a * (b - c) == a * b - a * c;
  }

  lemma DivLaws(a: real, b: real)
    requires b != 0.0
    ensures Mul(b, Div(a, b)) == a && Div(Mul(b, a), b) == a
  {}

  /** The value of a coefficient vector at x. */
  function At(p: seq<real>, x: real): real {
    if p == [] then 0.0 else p[0] + Mul(x, At(p[1..], x))
  }

  lemma {:induction false} AtIsEval(p: seq<real>, x: real)
    ensures At(p, x) == Eval(Rationals(), p, x)
  {
    if p != [] {
      AtIsEval(p[1..], x);
    }
  }

  lemma AtNorm(v: seq<real>, x: real)
    ensures At(Norm(Rationals(), v), x) == At(v, x)
  {
    RationalsAreField();
    EvalNorm(Rationals(), v, x);
    AtIsEval(v, x);
    AtIsEval(Norm(Rationals(), v), x);
  }

  // w == u + c v, entry by entry, where v may be shorter
  lemma {:induction false} AtSum(u: seq<real>, v: seq<real>, c: real, w: seq<real>, x: real)
    requires |v| <= |u| == |w|
    requires forall k :: 0 <= k < |w| ==> w[k] == u[k] + if k < |v| then Mul(v[k], c) else 0.0
    ensures At(w, x) == At(u, x) + Mul(At(v, x), c)
  {
    hide Mul;
    if v == [] {
      assert w == u;
      MulLaws(c, 0.0, 0.0);
    } else {
      AtSum(u[1..], v[1..], c, w[1..], x);
      var (a, b) := (At(u[1..], x), At(v[1..], x));
      MulLaws(x, a, Mul(b, c));
      MulLaws(x, b, c);
      MulLaws(c, v[0], Mul(x, b));
      MulLaws(c, v[0], 0.0);
      MulLaws(c, Mul(x, b), 0.0);
    }
  }

  lemma {:induction false} AtZeros(v: seq<real>, x: real)
    requires forall k :: 0 <= k < |v| ==> v[k] == 0.0
    ensures At(v, x) == 0.0
  {
    if v != [] {
      AtZeros(v[1..], x);
    }
  }

  function Pow(x: real, n: nat): real {
    if n == 0 then 1.0 else Mul(x, Pow(x, n - 1))
  }

  lemma {:induction false} AtSnoc(v: seq<real>, c: real, x: real)
    ensures At(v + [c], x) == At(v, x) + Mul(c, Pow(x, |v|))
  {
    hide Mul;
    if v == [] {
      assert [] + [c] == [c] && [c][1..] == [];
      MulLaws(x, 0.0, 0.0);
      MulLaws(c, 1.0, 0.0);
    } else {
      var t := v[1..];
      assert (v + [c])[1..] == t + [c];
      AtSnoc(t, c, x);
      var p := Pow(x, |t|);
      MulLaws(x, At(t, x), Mul(c, p));
      MulLaws(x, c, p);
      MulLaws(c, x, p);
    }
  }

  // w == f0 t + f1 x t
  lemma AtLinear(t: seq<real>, f0: real, f1: real, w: seq<real>, x: real)
    requires |w| == |t| + 1
    requires forall k {:trigger w[k]} :: 0 <= k < |w| ==>
      w[k] == (if k < |t| then Mul(t[k], f0) else 0.0) + (if k > 0 then Mul(t[k - 1], f1) else 0.0)
    ensures At(w, x) == Mul(f0 + Mul(f1, x), At(t, x))
  {
    hide Mul;
    var z, b := seq(|w|, _ => 0.0), [0.0] + t;
    var u := seq(|w|, k requires 0 <= k < |w| => if k < |t| then Mul(t[k], f0) else 0.0);
    assert At(u, x) == Mul(At(t, x), f0) by {
      AtZeros(z, x);
      AtSum(z, t, f0, u, x);
    }
    assert At(w, x) == At(u, x) + Mul(At(b, x), f1) by {
      MulLaws(f1, 0.0, 0.0);
      forall k | 0 <= k < |w| ensures w[k] == u[k] + if k < |b| then Mul(b[k], f1) else 0.0 {
        assert k > 0 ==> b[k] == t[k - 1];
      }
      AtSum(u, b, f1, w, x);
    }
    assert b[1..] == t;
    LinearFactor(f0, f1, x, At(t, x));
  }

  lemma LinearFactor(f0: real, f1: real, x: real, a: real)
    ensures Mul(a, f0) + Mul(0.0 + Mul(x, a), f1) == Mul(f0 + Mul(f1, x), a)
  {
    MulLaws(f1, x, a);
    MulLaws(a, f0, Mul(f1, x));
  }

  ghost predicate IsInterpolant(xs: seq<real>, ys: seq<real>, p: seq<real>)
    requires |xs| == |ys|
  {
    && IsPoly(Rationals(), p) && |p| <= |xs|
    && forall k :: 0 <= k < |xs| ==> At(p, xs[k]) == ys[k]
  }

  /** There is at most one interpolating polynomial. */
  lemma InterpolantUnique(xs: seq<real>, ys: seq<real>, p: seq<real>, q: seq<real>)
    requires |xs| == |ys| && Distinct(xs)
    requires IsInterpolant(xs, ys, p) && IsInterpolant(xs, ys, q)
    ensures p == q
  {
    RationalsAreField();
    forall k | 0 <= k < |xs| ensures Eval(Rationals(), p, xs[k]) == Eval(Rationals(), q, xs[k]) {
      AtIsEval(p, xs[k]);
      AtIsEval(q, xs[k]);
    }
    InterpolationUnique(Rationals(), p, q, xs);
  }

  /** Drops trailing zeros, but keeps at least `least` entries. */
  method PopZeros(v: seq<real>, least: nat) returns (r: seq<real>)
    ensures r <= v && (|v| >= least ==> |r| >= least)
    ensures |r| > least ==> r[|r| - 1] != 0.0
    ensures Norm(Rationals(), r) == Norm(Rationals(), v)
    ensures forall x :: At(r, x) == At(v, x)
  {
    RationalsAreField();
    r := v;
    while |r| > least && r[|r| - 1] == 0.0
      invariant r <= v && (|v| >= least ==> |r| >= least)
      invariant forall i :: |r| <= i < |v| ==> v[i] == 0.0
      decreases |r|
    {
      r := r[..|r| - 1];
    }
    NormIs(Rationals(), v);
    NormOf(Rationals(), r, Norm(Rationals(), v));
    forall x ensures At(r, x) == At(v, x) {
      AtNorm(r, x);
      AtNorm(v, x);
    }
  }

  // ----- Lagrange -----

  function ToReals(v: seq<int>): (r: seq<real>)
    ensures |r| == |v| && forall k :: 0 <= k < |v| ==> r[k] == v[k] as real
  {
    seq(|v|, k requires 0 <= k < |v| => v[k] as real)
  }

  method TimesLinear(term: seq<real>, factor: seq<real>) returns (next: seq<real>)
    requires term != [] && |factor| == 2
    ensures 1 <= |next| <= |term| + 1
    ensures forall x :: At(next, x) == Mul(factor[0] + Mul(factor[1], x), At(term, x))
  {
    hide Mul;
    next := seq(|term| + 1, _ => 0.0);
    for k := 0 to |term|
      invariant |next| == |term| + 1
      invariant forall l {:trigger next[l]} :: 0 <= l < |next| ==>
        next[l] == (if l < k then Mul(term[l], factor[0]) else 0.0)
                 + (if 0 < l <= k then Mul(term[l - 1], factor[1]) else 0.0)
    {
      next := next[k := next[k] + Mul(term[k], factor[0])];
      next := next[k + 1 := next[k + 1] + Mul(term[k], factor[1])];
    }
    forall x ensures At(next, x) == Mul(factor[0] + Mul(factor[1], x), At(term, x)) {
      AtLinear(term, factor[0], factor[1], next, x);
    }
    next := PopZeros(next, 1);
  }

  /** The i-th basis term, unscaled: zero at every other point, and `denom` at x[i]. */
  method LagrangeTerm(x: seq<int>, i: nat) returns (term: seq<real>, denom: real)
    requires i < |x| && Distinct(x)
    ensures |term| <= |x| && denom != 0.0
    ensures forall m :: 0 <= m < |x| ==> At(term, x[m] as real) == if m == i then denom else 0.0
  {
    hide Mul;
    term, denom := [1.0], 1.0;
    forall m | 0 <= m < |x| ensures At(term, x[m] as real) == 1.0 {
      assert [1.0][1..] == [];
      MulLaws(x[m] as real, 0.0, 0.0);
    }
    for j := 0 to |x|
      invariant term != [] && |term| <= (if j <= i then j + 1 else j) && denom != 0.0
      invariant At(term, x[i] as real) == denom
      invariant forall m :: 0 <= m < j && m != i ==> At(term, x[m] as real) == 0.0
    {
      if j == i { continue; }
      ghost var t := term;
      term := TimesLinear(term, [-(x[j] as real), 1.0]);
      forall m | 0 <= m < |x|
        ensures At(term, x[m] as real) == Mul((x[m] - x[j]) as real, At(t, x[m] as real))
      {
        MulLaws(x[m] as real, 0.0, 0.0);
      }
      MulLaws(denom, (x[i] - x[j]) as real, 0.0);
      NonZeroReals(denom, (x[i] - x[j]) as real);
      denom := Mul(denom, (x[i] - x[j]) as real);
      forall m | 0 <= m < j + 1 && m != i ensures At(term, x[m] as real) == 0.0 {
        MulLaws((x[m] - x[j]) as real, 0.0, 0.0);
        MulLaws(At(t, x[m] as real), 0.0, 0.0);
      }
    }
  }

  lemma NonZeroReals(a: real, b: real)
    requires a != 0.0 && b != 0.0
    ensures Mul(a, b) != 0.0
  {}

  method InterpolateLagrange(x: seq<int>, y: seq<int>) returns (r: seq<real>)
    requires |x| == |y| && Distinct(x)
    ensures IsInterpolant(ToReals(x), ToReals(y), Norm(Rationals(), r))
    ensures |r| <= |x| && (|x| > 0 ==> |r| > 0) && (|r| > 1 ==> r[|r| - 1] != 0.0)
  {
    hide Mul, Div;
    var n := |x|;
    var result := seq(n, _ => 0.0);
    forall m | 0 <= m < n ensures At(result, x[m] as real) == 0.0 {
      AtZeros(result, x[m] as real);
    }
    for i := 0 to n
      invariant |result| == n
      invariant forall m :: 0 <= m < n ==> At(result, x[m] as real) == if m < i then y[m] as real else 0.0
    {
      var term, denom := LagrangeTerm(x, i);
      var coeff := Div(y[i] as real, denom);
      ghost var before := result;
      for k := 0 to |term|
        invariant |result| == n
        invariant forall l :: 0 <= l < n ==> result[l] == before[l] + if l < k then Mul(term[l], coeff) else 0.0
      {
        result := result[k := result[k] + Mul(term[k], coeff)];
      }
      forall m | 0 <= m < n
        ensures At(result, x[m] as real) == if m < i + 1 then y[m] as real else 0.0
      {
        AtSum(before, term, coeff, result, x[m] as real);
        MulLaws(coeff, 0.0, 0.0);
        DivLaws(y[i] as real, denom);
      }
    }
    r := PopZeros(result, 1);
    NormIs(Rationals(), r) by { RationalsAreField(); }
    forall m | 0 <= m < n ensures At(Norm(Rationals(), r), ToReals(x)[m]) == ToReals(y)[m] {
      AtNorm(r, x[m] as real);
    }
  }

  // ----- divided differences -----

  /** The divided difference of ys over the points lo..hi. */
  function DD(xs: seq<real>, ys: seq<real>, lo: nat, hi: nat): real
    requires lo <= hi < |xs| == |ys| && Distinct(xs)
    decreases hi - lo
  {
    if lo == hi then ys[lo]
    else Div(DD(xs, ys, lo + 1, hi) - DD(xs, ys, lo, hi - 1), xs[hi] - xs[lo])
  }

  // adding a constant to the values changes no proper divided difference
  lemma {:induction false} ConstantDrops(xs: seq<real>, ys: seq<real>, hs: seq<real>, c: real, lo: nat, hi: nat)
    requires lo <= hi < |xs| == |ys| == |hs| && Distinct(xs)
    requires forall k :: lo <= k <= hi ==> hs[k] == ys[k] - c
    ensures DD(xs, hs, lo, hi) == DD(xs, ys, lo, hi) - if lo == hi then c else 0.0
    decreases hi - lo
  {
    hide Div;
    if lo < hi {
      ConstantDrops(xs, ys, hs, c, lo + 1, hi);
      ConstantDrops(xs, ys, hs, c, lo, hi - 1);
    }
  }

  // the product rule for divided differences, with the linear factor x - c
  lemma {:induction false} ProductRule(xs: seq<real>, gs: seq<real>, hs: seq<real>, c: real, lo: nat, hi: nat)
    requires lo <= hi < |xs| == |gs| == |hs| && Distinct(xs)
    requires forall k :: lo <= k <= hi ==> hs[k] == Mul(xs[k] - c, gs[k])
    ensures DD(xs, hs, lo, hi) ==
      Mul(xs[hi] - c, DD(xs, gs, lo, hi)) + if lo < hi then DD(xs, gs, lo, hi - 1) else 0.0
    ensures DD(xs, hs, lo, hi) ==
      Mul(xs[lo] - c, DD(xs, gs, lo, hi)) + if lo < hi then DD(xs, gs, lo + 1, hi) else 0.0
    decreases hi - lo
  {
    hide Mul, Div;
    if lo < hi {
      ProductRule(xs, gs, hs, c, lo + 1, hi);
      ProductRule(xs, gs, hs, c, lo, hi - 1);
      var d := xs[hi] - xs[lo];
      var (u, v) := (DD(xs, gs, lo + 1, hi), DD(xs, gs, lo, hi - 1));
      var w := if lo + 1 < hi then DD(xs, gs, lo + 1, hi - 1) else 0.0;
      assert DD(xs, hs, lo + 1, hi) == Mul(xs[hi] - c, u) + w;
      assert DD(xs, hs, lo, hi - 1) == Mul(xs[lo] - c, v) + w;
      ProductRuleStep(d, xs[hi] - c, xs[lo] - c, u, v, Div(u - v, d), w);
    }
  }

  lemma ProductRuleStep(d: real, a: real, b: real, u: real, v: real, g: real, w: real)
    requires d == a - b && d != 0.0 && g == Div(u - v, d)
    ensures Div((Mul(a, u) + w) - (Mul(b, v) + w), d) == Mul(a, g) + v == Mul(b, g) + u
  {
    CancelDivisor(u - v, d, g);
    ProductDifference(a, b, u, v, g, d);
    assert (Mul(a, u) + w) - (Mul(b, v) + w) == Mul(Mul(a, g) + v, d);
    DivideBack(Mul(a, g) + v, d);
  }

  lemma CancelDivisor(x: real, d: real, g: real)
    requires d != 0.0 && g == Div(x, d)
    ensures Mul(g, d) == x
  {}

  lemma DivideBack(x: real, d: real)
    requires d != 0.0
    ensures Div(Mul(x, d), d) == x
  {}

  lemma ProductDifference(a: real, b: real, u: real, v: real, g: real, d: real)
    requires d == a - b && Mul(g, d) == u - v
    ensures Mul(a, u) - Mul(b, v) == Mul(Mul(a, g) + v, d) && Mul(a, g) + v == Mul(b, g) + u
  {
    assert a * u - b * v == a * (u - v) + d * v;
    assert a * (u - v) == (a * g) * d by { assert a * (g * d) == (a * g) * d; }
    assert (a * g + v) * d == (a * g) * d + d * v;
    assert a * g == b * g + g * d;
  }

  ghost predicate Slopes(xs: seq<real>, ys: seq<real>, gs: seq<real>, lo: nat)
    requires lo < |xs| == |ys| && Distinct(xs)
  {
    |gs| == |xs| && forall k :: lo < k < |xs| ==> Mul(xs[k] - xs[lo], gs[k]) == ys[k] - ys[lo]
  }

  ghost function SlopesOf(xs: seq<real>, ys: seq<real>, lo: nat): (gs: seq<real>)
    requires lo < |xs| == |ys| && Distinct(xs)
    ensures Slopes(xs, ys, gs, lo)
  {
    seq(|xs|, k requires 0 <= k < |xs| => if k > lo then Div(ys[k] - ys[lo], xs[k] - xs[lo]) else 0.0)
  }

  // the slopes undo the shift and the linear factor
  lemma SlopesProduct(xs: seq<real>, ys: seq<real>, gs: seq<real>, lo: nat, hi: nat)
    requires lo + 1 < hi < |xs| == |ys| && Distinct(xs) && Slopes(xs, ys, gs, lo)
    ensures DD(xs, ys, lo + 1, hi) == Mul(xs[hi] - xs[lo], DD(xs, gs, lo + 1, hi)) + DD(xs, gs, lo + 1, hi - 1)
  {
    hide Mul, Div, DD;
    var hs := seq(|xs|, k requires 0 <= k < |xs| => ys[k] - ys[lo]);
    ConstantDrops(xs, ys, hs, ys[lo], lo + 1, hi);
    ProductRule(xs, gs, hs, xs[lo], lo + 1, hi);
  }

  // divided differences from lo are divided differences of the slopes from lo
  lemma {:induction false} DifferenceOfSlopes(xs: seq<real>, ys: seq<real>, gs: seq<real>, lo: nat, hi: nat)
    requires lo < hi < |xs| == |ys| && Distinct(xs) && Slopes(xs, ys, gs, lo)
    ensures DD(xs, ys, lo, hi) == DD(xs, gs, lo + 1, hi)
    decreases hi - lo
  {
    hide Mul, Div;
    var d := xs[hi] - xs[lo];
    if lo + 1 < hi {
      DifferenceOfSlopes(xs, ys, gs, lo, hi - 1);
      SlopesProduct(xs, ys, gs, lo, hi);
      DivLaws(DD(xs, gs, lo + 1, hi), d);
    } else {
      DivLaws(gs[hi], d);
    }
  }

  /** (x - xs[lo]) ... (x - xs[hi - 1]) */
  function Knots(xs: seq<real>, lo: nat, hi: nat, x: real): real
    requires lo <= hi <= |xs|
    decreases hi - lo
  {
    if lo == hi then 1.0 else Mul(x - xs[hi - 1], Knots(xs, lo, hi - 1, x))
  }

  /** Newton's form on the points lo..hi-1, at x. */
  function NewtonSum(xs: seq<real>, ys: seq<real>, lo: nat, hi: nat, x: real): real
    requires lo <= hi <= |xs| == |ys| && Distinct(xs)
    decreases hi - lo
  {
    if lo == hi then 0.0
    else NewtonSum(xs, ys, lo, hi - 1, x) + Mul(Knots(xs, lo, hi - 1, x), DD(xs, ys, lo, hi - 1))
  }

  lemma {:induction false} KnotsFront(xs: seq<real>, lo: nat, hi: nat, x: real)
    requires lo < hi <= |xs|
    ensures Knots(xs, lo, hi, x) == Mul(x - xs[lo], Knots(xs, lo + 1, hi, x))
    decreases hi - lo
  {
    hide Mul;
    if lo + 1 < hi {
      KnotsFront(xs, lo, hi - 1, x);
      var (a, b, c) := (x - xs[lo], Knots(xs, lo + 1, hi - 1, x), x - xs[hi - 1]);
      MulLaws(c, a, b);
      MulLaws(a, c, b);
    }
  }

  // Newton's form splits off its first point
  lemma {:induction false} NewtonFront(xs: seq<real>, ys: seq<real>, gs: seq<real>, lo: nat, hi: nat, x: real)
    requires lo < hi <= |xs| == |ys| && Distinct(xs) && Slopes(xs, ys, gs, lo)
    ensures NewtonSum(xs, ys, lo, hi, x) == ys[lo] + Mul(x - xs[lo], NewtonSum(xs, gs, lo + 1, hi, x))
    decreases hi - lo
  {
    hide Mul, Div;
    var a := x - xs[lo];
    MulLaws(a, 0.0, 0.0);
    if lo + 1 < hi {
      NewtonFront(xs, ys, gs, lo, hi - 1, x);
      DifferenceOfSlopes(xs, ys, gs, lo, hi - 1);
      KnotsFront(xs, lo, hi - 1, x);
      var (s, d, k) := (NewtonSum(xs, gs, lo + 1, hi - 1, x), DD(xs, gs, lo + 1, hi - 1), Knots(xs, lo + 1, hi - 1, x));
      MulLaws(a, k, d);
      MulLaws(a, s, Mul(k, d));
    } else {
      MulLaws(ys[lo], 0.0, 0.0);
    }
  }

  /** Newton's form takes the given values. */
  lemma {:induction false} NewtonHits(xs: seq<real>, ys: seq<real>, lo: nat, hi: nat, k: nat)
    requires lo <= k < hi <= |xs| == |ys| && Distinct(xs)
    ensures NewtonSum(xs, ys, lo, hi, xs[k]) == ys[k]
    decreases hi - lo
  {
    hide Mul, NewtonSum;
    var gs := SlopesOf(xs, ys, lo);
    NewtonFront(xs, ys, gs, lo, hi, xs[k]);
    if k > lo {
      NewtonHits(xs, gs, lo + 1, hi, k);
    } else {
      MulLaws(NewtonSum(xs, gs, lo + 1, hi, xs[k]), 0.0, 0.0);
    }
  }

  ghost predicate IsSquare<T>(table: seq<seq<T>>, n: nat) {
    |table| == n && forall r :: 0 <= r < n ==> |table[r]| == n
  }

  /** The triangular table of divided differences; fails when two points coincide. */
  method DifferenceTable(xs: seq<real>, ys: seq<real>) returns (r: Option<seq<seq<real>>>)
    requires |xs| == |ys|
    ensures r.Some? <==> Distinct(xs)
    ensures r.Some? ==> IsSquare(r.value, |xs|)
    ensures r.Some? ==> forall i, j :: 0 <= j <= i < |xs| ==> r.value[i][j] == DD(xs, ys, i - j, i)
  {
    hide Mul, Div, DD;
    var n := |xs|;
    var table := seq(n, _ => seq(n, _ => 0.0));
    for i := 0 to n
      invariant IsSquare(table, n)
      invariant forall k :: 0 <= k < i ==> table[k][0] == ys[k]
    {
      table := table[i := table[i][0 := ys[i]]];
    }
    if Distinct(xs) {
      forall k | 0 <= k < n ensures DD(xs, ys, k, k) == ys[k] { SinglePoint(xs, ys, k); }
    }
    var j := 1;
    while j < n
      invariant IsSquare(table, n) && 1 <= j && (n > 0 ==> j <= n)
      invariant forall a, b :: 0 <= a < b < n && b - a < j ==> xs[a] != xs[b]
      invariant Distinct(xs) ==> forall k, l :: 0 <= l <= k < n && l < j ==> table[k][l] == DD(xs, ys, k - l, k)
    {
      for i := j to n
        invariant IsSquare(table, n)
        invariant forall a, b :: 0 <= a < b < n && (b - a < j || (b - a == j && b < i)) ==> xs[a] != xs[b]
        invariant Distinct(xs) ==> forall k, l :: 0 <= l <= k < n && (l < j || (l == j && k < i)) ==>
          table[k][l] == DD(xs, ys, k - l, k)
      {
        var denom := xs[i] - xs[i - j];
        if denom == 0.0 { return None; }
        var entry := Mul(table[i][j - 1] - table[i - 1][j - 1], Div(1.0, denom));
        if Distinct(xs) { NextDifference(xs, ys, table[i][j - 1], table[i - 1][j - 1], i, j); }
        table := table[i := table[i][j := entry]];
      }
      j := j + 1;
    }
    r := Some(table);
  }

  lemma SinglePoint(xs: seq<real>, ys: seq<real>, k: nat)
    requires k < |xs| == |ys| && Distinct(xs)
    ensures DD(xs, ys, k, k) == ys[k]
  {}

  // one entry of the table from the two before it
  lemma NextDifference(xs: seq<real>, ys: seq<real>, u: real, v: real, i: nat, j: nat)
    requires 0 < j <= i < |xs| == |ys| && Distinct(xs)
    requires u == DD(xs, ys, i - (j - 1), i) && v == DD(xs, ys, i - 1 - (j - 1), i - 1)
    ensures Mul(u - v, Div(1.0, xs[i] - xs[i - j])) == DD(xs, ys, i - j, i)
  {
    hide Mul, Div;
    Reciprocal(u - v, xs[i] - xs[i - j]);
  }

  lemma Reciprocal(a: real, d: real)
    requires d != 0.0
    ensures Mul(a, Div(1.0, d)) == Div(a, d)
  {}

  method NewtonTimesLinear(p: seq<real>, point: real) returns (next: seq<real>)
    ensures |next| <= |p| + 1
    ensures forall x :: At(next, x) == Mul(x - point, At(p, x))
  {
    hide Mul;
    next := seq(|p| + 1, _ => 0.0);
    for d := 0 to |p|
      invariant |next| == |p| + 1
      invariant forall l {:trigger next[l]} :: 0 <= l < |next| ==>
        next[l] == (if 0 < l <= d then p[l - 1] else 0.0) - (if l < d then Mul(point, p[l]) else 0.0)
    {
      next := next[d + 1 := next[d + 1] + p[d]];
      next := next[d := next[d] - Mul(point, p[d])];
    }
    forall l {:trigger next[l]} | 0 <= l < |next|
      ensures next[l] == (if l < |p| then Mul(p[l], -point) else 0.0) + (if l > 0 then Mul(p[l - 1], 1.0) else 0.0)
    {
      if l < |p| { MulLaws(point, p[l], 0.0); MulLaws(p[l], -point, 0.0); }
      if l > 0 { MulLaws(p[l - 1], 0.0, 0.0); }
    }
    forall x ensures At(next, x) == Mul(x - point, At(p, x)) {
      AtLinear(p, -point, 1.0, next, x);
      MulLaws(x, 0.0, 0.0);
    }
    next := PopZeros(next, 0);
  }

  /** Interpolation by divided differences: fails exactly on repeated points, and otherwise returns
      the interpolating polynomial. */
  method NewtonInterpolate(xs: seq<real>, ys: seq<real>) returns (r: Option<seq<real>>)
    requires |xs| == |ys|
    ensures r.Some? <==> Distinct(xs)
    ensures r.Some? ==> IsInterpolant(xs, ys, r.value)
  {
    hide Mul, Div, DD;
    var n := |xs|;
    var t := DifferenceTable(xs, ys);
    if t.None? { return None; }
    var table := t.value;
    var result := seq(n, _ => 0.0);
    var newton := [1.0];
    forall x ensures At(result, x) == 0.0 && At(newton, x) == 1.0 {
      AtZeros(result, x);
      assert [1.0][1..] == [];
      MulLaws(x, 0.0, 0.0);
    }
    for j := 0 to n
      invariant |result| == n && |newton| <= j + 1
      invariant forall x :: At(result, x) == NewtonSum(xs, ys, 0, j, x)
      invariant j < n ==> forall x :: At(newton, x) == Knots(xs, 0, j, x)
    {
      var coeff := table[j][j];
      ghost var before := result;
      if coeff != 0.0 {
        for d := 0 to |newton|
          invariant |result| == n
          invariant forall l :: 0 <= l < n ==> result[l] == before[l] + if l < d then Mul(newton[l], coeff) else 0.0
        {
          MulLaws(coeff, newton[d], 0.0);
          result := result[d := result[d] + Mul(coeff, newton[d])];
        }
      }
      forall x ensures At(result, x) == NewtonSum(xs, ys, 0, j + 1, x) {
        if coeff != 0.0 {
          AtSum(before, newton, coeff, result, x);
        }
        MulLaws(At(newton, x), 0.0, 0.0);
      }
      if j + 1 < n {
        newton := NewtonTimesLinear(newton, xs[j]);
      }
    }
    var p := PopZeros(result, 0);
    NormOfPoly(Rationals(), p) by { RationalsAreField(); }
    forall k | 0 <= k < n ensures At(p, xs[k]) == ys[k] {
      NewtonHits(xs, ys, 0, n, k);
    }
    r := Some(p);
  }

  /** On the same integer data the two methods agree. */
  lemma NewtonAgreesWithLagrange(x: seq<int>, y: seq<int>, newton: seq<real>, lagrange: seq<real>)
    requires |x| == |y| && Distinct(x)
    requires IsInterpolant(ToReals(x), ToReals(y), newton)
    requires IsInterpolant(ToReals(x), ToReals(y), Norm(Rationals(), lagrange))
    ensures newton == Norm(Rationals(), lagrange)
  {
    InterpolantUnique(ToReals(x), ToReals(y), newton, Norm(Rationals(), lagrange));
  }

  // ----- q(y - s x), through Pascal's triangle -----

  function Binomial(n: nat, k: nat): nat {
    if k == 0 then 1 else if n == 0 then 0 else Binomial(n - 1, k - 1) + Binomial(n - 1, k)
  }

  lemma {:induction false} BinomialBeyond(n: nat, k: nat)
    requires k > n
    ensures Binomial(n, k) == 0
  {
    if n > 0 {
      BinomialBeyond(n - 1, k - 1);
      BinomialBeyond(n - 1, k);
    }
  }

  lemma FirstInRow(n: nat)
    ensures Binomial(n, 0) == 1
  {}

  lemma Pascal(n: nat, k: nat)
    requires n > 0 && k > 0
    ensures Binomial(n, k) == Binomial(n - 1, k - 1) + Binomial(n - 1, k)
  {}

  method PascalTable(n: nat) returns (table: seq<seq<int>>)
    ensures IsSquare(table, n + 1)
    ensures forall r, c :: 0 <= r <= n && 0 <= c <= n ==> table[r][c] == Binomial(r, c)
  {
    hide Binomial;
    table := seq(n + 1, _ => seq(n + 1, _ => 0));
    for row := 0 to n + 1
      invariant IsSquare(table, n + 1)
      invariant forall r, c :: 0 <= r < row && 0 <= c <= n ==> table[r][c] == Binomial(r, c)
      invariant forall r, c :: row <= r <= n && 0 <= c <= n ==> table[r][c] == 0
    {
      FirstInRow(row);
      table := table[row := table[row][0 := 1]];
      for col := 1 to row + 1
        invariant IsSquare(table, n + 1)
        invariant forall r, c :: 0 <= r < row && 0 <= c <= n ==> table[r][c] == Binomial(r, c)
        invariant forall c :: 0 <= c < col ==> table[row][c] == Binomial(row, c)
        invariant forall r, c :: row <= r <= n && 0 <= c <= n && (r > row || c >= col) ==> table[r][c] == 0
      {
        Pascal(row, col);
        table := table[row := table[row][col := table[row - 1][col - 1] + table[row - 1][col]]];
      }
      forall c | row < c <= n ensures table[row][c] == Binomial(row, c) {
        BinomialBeyond(row, c);
      }
    }
  }

  function Row(i: nat, y: real, s: real): (r: seq<real>)
    ensures |r| == i + 1
  {
    seq(i + 1, k requires 0 <= k <= i => Mul(Mul(Binomial(i, k) as real, Pow(y, i - k)), Pow(s, k)))
  }

  lemma RowEntry(i: nat, y: real, s: real, k: nat)
    requires k <= i
    ensures Row(i, y, s)[k] == Mul(Mul(Binomial(i, k) as real, Pow(y, i - k)), Pow(s, k))
  {}

  lemma PowUp(x: real, n: nat)
    requires n > 0
    ensures Pow(x, n) == Mul(x, Pow(x, n - 1))
  {}

  // each row is the previous one times y + s x
  lemma RowStep(i: nat, y: real, s: real, k: nat)
    requires 0 < i && k <= i
    ensures Row(i, y, s)[k] ==
      (if k < i then Mul(Row(i - 1, y, s)[k], y) else 0.0) + (if k > 0 then Mul(Row(i - 1, y, s)[k - 1], s) else 0.0)
  {
    RowEntry(i, y, s, k);
    if k < i { LeftPart(i, y, s, k); }
    if k > 0 { RightPart(i, y, s, k); }
    EntrySplits(i, y, s, k);
  }

  // C(i-1, k) y^(i-k) s^k and C(i-1, k-1) y^(i-k) s^k
  function LeftTerm(i: nat, y: real, s: real, k: nat): real
    requires 0 < i && k <= i
  {
    Mul(Mul(Binomial(i - 1, k) as real, Pow(y, i - k)), Pow(s, k))
  }

  function RightTerm(i: nat, y: real, s: real, k: nat): real
    requires 0 < k <= i
  {
    Mul(Mul(Binomial(i - 1, k - 1) as real, Pow(y, i - k)), Pow(s, k))
  }

  lemma LeftPart(i: nat, y: real, s: real, k: nat)
    requires 0 < i && k < i
    ensures LeftTerm(i, y, s, k) == Mul(Row(i - 1, y, s)[k], y)
  {
    RowEntry(i - 1, y, s, k);
    PowUp(y, i - k);
    RowStepInner(Binomial(i - 1, k) as real, y, Pow(y, i - 1 - k), Pow(s, k));
  }

  lemma RightPart(i: nat, y: real, s: real, k: nat)
    requires 0 < k <= i
    ensures RightTerm(i, y, s, k) == Mul(Row(i - 1, y, s)[k - 1], s)
  {
    RowEntry(i - 1, y, s, k - 1);
    PowUp(s, k);
    var (a, u, v) := (Binomial(i - 1, k - 1) as real, Pow(y, i - k), Pow(s, k - 1));
    MulLaws(Mul(a, u), v, s);
    MulLaws(v, s, 0.0);
  }

  lemma EntrySplits(i: nat, y: real, s: real, k: nat)
    requires 0 < i && k <= i
    ensures Mul(Mul(Binomial(i, k) as real, Pow(y, i - k)), Pow(s, k))
         == (if k < i then LeftTerm(i, y, s, k) else 0.0) + (if k > 0 then RightTerm(i, y, s, k) else 0.0)
  {
    FirstInRow(i);
    FirstInRow(i - 1);
    if k > 0 { Pascal(i, k); }
    BinomialBeyond(i - 1, i);
    var (u, w) := (Pow(y, i - k), Pow(s, k));
    if 0 < k {
      RowStepProduct(Binomial(i - 1, k - 1), Binomial(i - 1, k), u, w);
      if k == i {
        MulLaws(u, 0.0, 0.0);
        MulLaws(w, 0.0, 0.0);
      }
    }
  }

  lemma RowStepProduct(a: nat, b: nat, u: real, w: real)
    ensures Mul(Mul((a + b) as real, u), w) == Mul(Mul(b as real, u), w) + Mul(Mul(a as real, u), w)
  {
    var (x, y) := (a as real, b as real);
    assert (a + b) as real == x + y;
    MulLaws(u, x, y);
    MulLaws(w, Mul(x, u), Mul(y, u));
  }

  lemma RowStepInner(b: real, y: real, u: real, w: real)
    ensures Mul(Mul(b, Mul(y, u)), w) == Mul(Mul(Mul(b, u), w), y)
  {}

  /** The binomial theorem, as values of a polynomial in x. */
  lemma {:induction false} RowAt(i: nat, y: real, s: real, x: real)
    ensures At(Row(i, y, s), x) == Pow(y + Mul(s, x), i)
  {
    hide Mul;
    if i == 0 {
      MulLaws(1.0, 1.0, 1.0);
      MulLaws(x, 0.0, 0.0);
      assert Row(0, y, s) == [1.0] && [1.0][1..] == [];
    } else {
      RowAt(i - 1, y, s, x);
      var (t, w) := (Row(i - 1, y, s), Row(i, y, s));
      forall k {:trigger w[k]} | 0 <= k <= i
        ensures w[k] == (if k < i then Mul(t[k], y) else 0.0) + (if k > 0 then Mul(t[k - 1], s) else 0.0)
      {
        RowStep(i, y, s, k);
      }
      PowUp(y + Mul(s, x), i);
      AtLinear(t, y, s, w, x);
    }
  }

  method Powers(base: real, n: nat) returns (p: seq<real>)
    requires n > 0
    ensures |p| == n && forall k :: 0 <= k < n ==> p[k] == Pow(base, k)
  {
    hide Mul;
    p := seq(n, _ => 0.0)[0 := 1.0];
    for k := 1 to n
      invariant |p| == n && forall l :: 0 <= l < k ==> p[l] == Pow(base, l)
    {
      MulLaws(p[k - 1], base, 0.0);
      p := p[k := Mul(p[k - 1], base)];
    }
  }

  /** The coefficients of q(y - s x) as a polynomial in x. */
  method ShiftedImage(q: seq<real>, y: real, s: real) returns (r: seq<real>)
    requires q != []
    ensures |r| == |q|
    ensures forall x :: At(r, x) == At(q, y - Mul(s, x))
  {
    hide Mul, At, Binomial;
    var binom := PascalTable(|q| - 1);
    var negS := 0.0 - s;
    var yPows := Powers(y, |q|);
    var sPows := Powers(negS, |q|);
    r := seq(|q|, _ => 0.0);
    assert q[..0] == [];
    forall x ensures At(r, x) == At(q[..0], y + Mul(negS, x)) { AtZeros(r, x); AtNothing(y + Mul(negS, x)); }
    for i := 0 to |q|
      invariant |r| == |q|
      invariant forall x :: At(r, x) == At(q[..i], y + Mul(negS, x))
    {
      var c := q[i];
      ghost var before := r;
      if c != 0.0 {
        for k := 0 to i + 1
          invariant |r| == |q|
          invariant forall l :: 0 <= l < |q| ==> r[l] == before[l] + if l < k then Mul(Row(i, y, negS)[l], c) else 0.0
        {
          TermOrder(c, binom[i][k] as real, yPows[i - k], sPows[k]);
          r := r[k := r[k] + Mul(Mul(Mul(c, binom[i][k] as real), yPows[i - k]), sPows[k])];
        }
      }
      forall x ensures At(r, x) == At(q[..i + 1], y + Mul(negS, x)) {
        AddShifted(before, q, i, y, negS, r, x);
      }
    }
    assert q[..|q|] == q;
    forall x ensures At(r, x) == At(q, y - Mul(s, x)) {
      MulLaws(s, x, 0.0);
    }
  }

  lemma AtNothing(x: real)
    ensures At([], x) == 0.0
  {}

  lemma TermOrder(c: real, b: real, u: real, v: real)
    ensures Mul(Mul(Mul(c, b), u), v) == Mul(Mul(Mul(b, u), v), c)
  {}

  lemma AddShifted(before: seq<real>, q: seq<real>, i: nat, y: real, s: real, after: seq<real>, x: real)
    requires i < |q| == |before| == |after|
    requires At(before, x) == At(q[..i], y + Mul(s, x))
    requires if q[i] == 0.0 then after == before
             else forall l :: 0 <= l < |q| ==>
                    after[l] == before[l] + if l < i + 1 then Mul(Row(i, y, s)[l], q[i]) else 0.0
    ensures At(after, x) == At(q[..i + 1], y + Mul(s, x))
  {
    hide Mul, Row;
    assert q[..i + 1] == q[..i] + [q[i]];
    AtSnoc(q[..i], q[i], y + Mul(s, x));
    if q[i] != 0.0 {
      RowAt(i, y, s, x);
      AtSum(before, Row(i, y, s), q[i], after, x);
    }
    MulLaws(q[i], Pow(y + Mul(s, x), i), 0.0);
    MulLaws(Pow(y + Mul(s, x), i), 0.0, 0.0);
  }
}
