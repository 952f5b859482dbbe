/** The rectangular linear solver: elimination on the augmented matrix, the consistency check, and one
    particular solution. */
module LinearSolve {
  import opened Rings
  import opened Vectors
  import opened LinearAlgebra

  /** x satisfies every equation of the augmented matrix M, whose last column is the right-hand side. */
  ghost predicate Solves<F(!new)>(K: Ring<F>, M: Matrix<F>, n: nat, x: seq<F>) {
    forall i :: 0 <= i < |M| ==> |M[i]| == n + 1 && |x| == n && Dot(K, M[i][..n], x) == M[i][n]
  }

  /** x solves the system when x followed by -1 is orthogonal to every augmented row. */
  lemma SolvesIsKernel<F(!new)>(K: Ring<F>, M: Matrix<F>, m: nat, n: nat, x: seq<F>)
    requires IsRing(K) && IsMatrix(K, M, m, n + 1) && IsVector(K, x, n)
    ensures Solves(K, M, n, x) <==> InKernel(K, M, x + [K.neg(K.one)])
  {
    hide Dot;
    forall i | 0 <= i < |M|
      ensures |M[i]| == n + 1
      ensures Dot(K, M[i], x + [K.neg(K.one)]) == K.zero <==> Dot(K, M[i][..n], x) == M[i][n]
    {
      assert IsVector(K, M[i], n + 1);
      RowIsKernel(K, M[i], n, x);
    }
  }

  lemma RowIsKernel<F(!new)>(K: Ring<F>, r: seq<F>, n: nat, x: seq<F>)
    requires IsRing(K) && IsVector(K, r, n + 1) && IsVector(K, x, n)
    ensures Dot(K, r, x + [K.neg(K.one)]) == K.zero <==> Dot(K, r[..n], x) == r[n]
  {
    assert r == r[..n] + [r[n]];
    DotSnoc(K, r[..n], r[n], x, K.neg(K.one));
    MulNeg(K, r[n], K.one);
    MulOne(K, r[n]);
    DotHas(K, r[..n], x);
    SubSelf(K, Dot(K, r[..n], x), r[n]);
  }

  /** The part of solve_linear_rect after the augmented matrix has been filled. */
  method SolveLinearRect<F(!new,==)>(K: Ring<F>, M0: Matrix<F>, m: nat, n: nat) returns (r: Option<seq<F>>)
    requires IsField(K) && IsMatrix(K, M0, m, n + 1)
    ensures r.Some? ==> IsVector(K, r.value, n) && Solves(K, M0, n, r.value)
    ensures r.None? <==> forall x :: IsVector(K, x, n) ==> !Solves(K, M0, n, x)
    ensures r.Some? ==> ZeroWhereFree(K, M0, n, r.value)
  {
    hide IsField, Echelon, InKernel, IsMatrix, Dot, Solves, Dependent;
    FieldIsRing(K);
    var M, row, piv := GaussJordan(K, M0, m, n + 1, n, false);
    ghost var col: nat :| col <= n && Echelon(K, M, m, n + 1, row, col, piv) && (row == m || col == n);
    EchelonShape(K, M, m, n + 1, row, col, piv);
    for i := row to m
      invariant forall k :: row <= k < i ==> M[k][n] == K.zero
    {
      if M[i][n] != K.zero {
        forall x | IsVector(K, x, n) ensures !Solves(K, M0, n, x) {
          SolvesIsKernel(K, M0, m, n, x);
          VectorSnoc(K, x, n);
          ContradictoryRow(K, M, m, n, i, x);
        }
        return None;
      }
    }
    var x := ReadOff(K, M, m, n, row, col, piv);
    VectorSnoc(K, x, n);
    SolvesIsKernel(K, M0, m, n, x);
    forall j: nat | j < n && Dependent(K, M0, n, j) ensures x[j] == K.zero {
      forall k: nat | k < row ensures piv[k] != j {
        if piv[k] == j { PivotIndependent(K, M0, M, m, n, row, col, piv, k); }
      }
    }
    r := Some(x);
  }

  lemma VectorSnoc<F(!new)>(K: Ring<F>, x: seq<F>, n: nat)
    requires IsRing(K) && IsVector(K, x, n)
    ensures IsVector(K, x + [K.neg(K.one)], n + 1)
  {}

  // 0 x_1 + ... + 0 x_n == b with b not zero
  lemma ContradictoryRow<F(!new)>(K: Ring<F>, M: Matrix<F>, m: nat, n: nat, i: nat, x: seq<F>)
    requires IsRing(K) && IsMatrix(K, M, m, n + 1) && i < m && IsVector(K, x, n)
    requires M[i][n] != K.zero && forall j :: 0 <= j < n ==> M[i][j] == K.zero
    ensures !InKernel(K, M, x + [K.neg(K.one)])
  {
    assert IsVector(K, M[i], n + 1);
    RowIsKernel(K, M[i], n, x);
    DotNone(K, M[i][..n], x);
  }

  // ----- which solution -----

  /** Column j of the coefficients is the combination c of the columns before it. */
  ghost predicate CombinesTo<F(!new)>(K: Ring<F>, M: Matrix<F>, n: nat, j: nat, c: seq<F>)
    requires j < n
  {
    IsVector(K, c, j) && forall i :: 0 <= i < |M| ==> |M[i]| == n + 1 && Dot(K, M[i][..j], c) == M[i][j]
  }

  /** Variable j is free: its column is a combination of the columns before it. */
  ghost predicate Dependent<F(!new)>(K: Ring<F>, M: Matrix<F>, n: nat, j: nat)
    requires j < n
  {
    exists c :: CombinesTo(K, M, n, j, c)
  }

  ghost predicate ZeroWhereFree<F(!new)>(K: Ring<F>, M: Matrix<F>, n: nat, x: seq<F>) {
    |x| == n && forall j: nat :: j < n && Dependent(K, M, n, j) ==> x[j] == K.zero
  }

  // zeros at the end do not matter
  lemma {:induction false} DotPadded<F(!new)>(K: Ring<F>, u: seq<F>, w: seq<F>, v: seq<F>)
    requires IsRing(K) && |u| == |v| && AllIn(K, u) && AllIn(K, v) && AllIn(K, w)
    ensures Dot(K, u + w, v + Zeros(K, |w|)) == Dot(K, u, v)
  {
    if u == [] {
      assert u + w == w && v + Zeros(K, |w|) == Zeros(K, |w|);
      DotNone(K, w, Zeros(K, |w|));
    } else {
      assert (u + w)[1..] == u[1..] + w && (v + Zeros(K, |w|))[1..] == v[1..] + Zeros(K, |w|);
      DotPadded(K, u[1..], w, v[1..]);
    }
  }

  ghost function Relation<F>(K: Ring<F>, n: nat, j: nat, c: seq<F>): (y: seq<F>)
    requires |c| == j < n
    ensures |y| == n + 1 && y[j] == K.neg(K.one) && forall k :: j < k < n + 1 ==> y[k] == K.zero
  {
    c + [K.neg(K.one)] + Zeros(K, n - j)
  }

  // a column that depends on the columns before it gives a null vector
  lemma RelationInKernel<F(!new)>(K: Ring<F>, M: Matrix<F>, m: nat, n: nat, j: nat, c: seq<F>)
    requires IsRing(K) && IsMatrix(K, M, m, n + 1) && j < n && CombinesTo(K, M, n, j, c)
    ensures IsVector(K, Relation(K, n, j, c), n + 1) && InKernel(K, M, Relation(K, n, j, c))
  {
    hide Dot;
    var y := Relation(K, n, j, c);
    forall i | 0 <= i < |M| ensures |M[i]| == |y| && Dot(K, M[i], y) == K.zero {
      assert IsVector(K, M[i], n + 1);
      var (u, w) := (M[i][..j + 1], M[i][j + 1..]);
      assert u + w == M[i] && u[..j] == M[i][..j] && |w| == n - j;
      RowIsKernel(K, u, j, c);
      DotPadded(K, u, w, c + [K.neg(K.one)]);
    }
  }

  // a pivot column does not depend on the columns before it
  lemma PivotIndependent<F(!new)>(K: Ring<F>, M0: Matrix<F>, M: Matrix<F>, m: nat, n: nat, row: nat, col: nat,
                                  piv: seq<int>, r: nat)
    requires IsRing(K) && IsMatrix(K, M0, m, n + 1) && SameKernel(K, M0, M, n + 1)
    requires Echelon(K, M, m, n + 1, row, col, piv) && col <= n && r < row
    ensures 0 <= piv[r] < n && !Dependent(K, M0, n, piv[r])
  {
    hide Dot, InKernel;
    var j: nat := piv[r];
    if Dependent(K, M0, n, j) {
      var c :| CombinesTo(K, M0, n, j, c);
      RelationInKernel(K, M0, m, n, j, c);
      PivotRow(K, M, m, n, j, r, Relation(K, n, j, c));
    }
  }

  // a row that starts with its one at j is not orthogonal to a vector that ends with -1 there
  lemma PivotRow<F(!new)>(K: Ring<F>, M: Matrix<F>, m: nat, n: nat, j: nat, r: nat, y: seq<F>)
    requires IsRing(K) && IsMatrix(K, M, m, n + 1) && j < n && r < m && IsVector(K, y, n + 1)
    requires M[r][j] == K.one && forall k :: 0 <= k < j ==> M[r][k] == K.zero
    requires y[j] == K.neg(K.one) && forall k :: j < k < n + 1 ==> y[k] == K.zero
    ensures !InKernel(K, M, y)
  {
    assert IsVector(K, M[r], n + 1);
    DotSingle(K, M[r], y, j);
    MulOne(K, y[j]);
    NegNeg(K, K.one);
    NegZero(K);
  }

  /** The zeros at the free variables determine the solution. */
  lemma SolutionUnique<F(!new)>(K: Ring<F>, M: Matrix<F>, m: nat, n: nat, x: seq<F>, y: seq<F>)
    requires IsField(K) && IsMatrix(K, M, m, n + 1) && IsVector(K, x, n) && IsVector(K, y, n)
    requires Solves(K, M, n, x) && Solves(K, M, n, y) && ZeroWhereFree(K, M, n, x) && ZeroWhereFree(K, M, n, y)
    ensures x == y
  {
    hide Dot, IsField, Dependent, Solves;
    if x != y {
      var j := LastDifference(x, y);
      DifferenceDepends(K, M, m, n, x, y, j);
      assert false;
    }
  }

  lemma LastDifference<F>(x: seq<F>, y: seq<F>) returns (j: nat)
    requires |x| == |y| && x != y
    ensures j < |x| && x[j] != y[j] && forall k :: j < k < |x| ==> x[k] == y[k]
  {
    var i := |x|;
    while x[i - 1] == y[i - 1]
      invariant 0 < i <= |x| && forall k :: i <= k < |x| ==> x[k] == y[k]
      invariant exists k :: 0 <= k < i && x[k] != y[k]
      decreases i
    {
      i := i - 1;
    }
    j := i - 1;
  }

  // the last difference of two solutions expresses its column by the columns before it
  lemma DifferenceDepends<F(!new)>(K: Ring<F>, M: Matrix<F>, m: nat, n: nat, x: seq<F>, y: seq<F>, j: nat)
    requires IsField(K) && IsMatrix(K, M, m, n + 1) && IsVector(K, x, n) && IsVector(K, y, n)
    requires Solves(K, M, n, x) && Solves(K, M, n, y)
    requires j < n && x[j] != y[j] && forall k :: j < k < n ==> x[k] == y[k]
    ensures Dependent(K, M, n, j)
  {
    hide Dot, IsField;
    FieldIsRing(K);
    var d := VSubScaled(K, x, K.one, y);
    DifferenceAt(K, x, y, j);
    SubSelf(K, x[j], y[j]);
    LeadInverse(K, d[j]);
    var s := K.neg(K.inverse(d[j]).value);
    NegNeg(K, K.inverse(d[j]).value);
    MulComm(K, K.inverse(d[j]).value, d[j]);
    var c := VScale(K, s, d[..j]);
    assert AllIn(K, d) && AllIn(K, c) by { DifferenceIn(K, x, y, s, j); }
    forall i | 0 <= i < |M| ensures |M[i]| == n + 1 && Dot(K, M[i][..j], c) == M[i][j] {
      assert IsVector(K, M[i], n + 1) && IsVector(K, M[i][..n], n);
      DifferenceOrthogonal(K, M[i][..n], x, y);
      ColumnFromZero(K, M[i][..n], d, j, s);
      assert M[i][..n][..j] == M[i][..j];
    }
    assert CombinesTo(K, M, n, j, c);
  }

  lemma DifferenceOrthogonal<F(!new)>(K: Ring<F>, r: seq<F>, x: seq<F>, y: seq<F>)
    requires IsRing(K) && |r| == |x| == |y| && AllIn(K, r) && AllIn(K, x) && AllIn(K, y) && Dot(K, r, x) == Dot(K, r, y)
    ensures Dot(K, r, VSubScaled(K, x, K.one, y)) == K.zero
  {
    hide Dot;
    var d := VSubScaled(K, x, K.one, y);
    DifferenceIn(K, x, y, K.one, 0);
    DotComm(K, r, x);
    DotComm(K, r, y);
    DotComm(K, r, d);
    DotSubScaled(K, x, K.one, y, r);
    DotHas(K, r, y);
    MulOne(K, Dot(K, r, y));
    SubSelf(K, Dot(K, r, y), Dot(K, r, y));
  }

  lemma DifferenceIn<F(!new)>(K: Ring<F>, x: seq<F>, y: seq<F>, s: F, j: nat)
    requires IsRing(K) && |x| == |y| && AllIn(K, x) && AllIn(K, y) && K.has(s) && j <= |x|
    ensures AllIn(K, VSubScaled(K, x, K.one, y)) && AllIn(K, VScale(K, s, VSubScaled(K, x, K.one, y)[..j]))
  {}

  lemma DifferenceAt<F(!new)>(K: Ring<F>, x: seq<F>, y: seq<F>, j: nat)
    requires IsRing(K) && |x| == |y| && AllIn(K, x) && AllIn(K, y) && j < |x|
    requires forall k :: j < k < |x| ==> x[k] == y[k]
    ensures VSubScaled(K, x, K.one, y)[j] == Sub(K, x[j], y[j]) && K.has(VSubScaled(K, x, K.one, y)[j])
    ensures forall k :: j < k < |x| ==> VSubScaled(K, x, K.one, y)[k] == K.zero
  {
    MulOne(K, y[j]);
    forall k | j < k < |x| ensures VSubScaled(K, x, K.one, y)[k] == K.zero {
      MulOne(K, y[k]);
      SubSelf(K, x[k], y[k]);
    }
  }

  // r . d == 0 with d zero beyond j, solved for r[j]
  lemma ColumnFromZero<F(!new)>(K: Ring<F>, r: seq<F>, d: seq<F>, j: nat, s: F)
    requires IsRing(K) && |r| == |d| && AllIn(K, r) && AllIn(K, d) && j < |d| && Dot(K, r, d) == K.zero
    requires forall k :: j < k < |d| ==> d[k] == K.zero
    requires K.has(s) && K.mul(d[j], K.neg(s)) == K.one
    ensures Dot(K, r[..j], VScale(K, s, d[..j])) == r[j]
  {
    hide Dot;
    var (u, w) := (r[..j + 1], r[j + 1..]);
    assert r == u + w && d == d[..j + 1] + Zeros(K, |w|);
    DotPadded(K, u, w, d[..j + 1]);
    assert u == r[..j] + [r[j]] && d[..j + 1] == d[..j] + [d[j]];
    DotSnoc(K, r[..j], r[j], d[..j], d[j]);
    var a := Dot(K, r[..j], d[..j]);
    DotHas(K, r[..j], d[..j]);
    DotComm(K, r[..j], VScale(K, s, d[..j]));
    DotScale(K, s, d[..j], r[..j]);
    DotComm(K, d[..j], r[..j]);
    SolveFor(K, a, r[j], d[j], s);
  }

  // a + b e == 0 and e (-s) == 1 make s a == b
  lemma SolveFor<F(!new)>(K: Ring<F>, a: F, b: F, e: F, s: F)
    requires IsRing(K) && K.has(a) && K.has(b) && K.has(e) && K.has(s)
    requires K.add(a, K.mul(b, e)) == K.zero && K.mul(e, K.neg(s)) == K.one
    ensures K.mul(s, a) == b
  {
    var p := K.mul(b, e);
    AddComm(K, a, p);
    NegUnique(K, p, a);
    MulNeg(K, s, p);
    MulComm(K, s, p);
    MulNeg(K, p, s);
    MulAssoc(K, b, e, K.neg(s));
    MulOne(K, b);
    MulComm(K, b, K.one);
  }

  /** Free variables zero, pivot variables from the last column. */
  method ReadOff<F(!new,==)>(K: Ring<F>, M: Matrix<F>, m: nat, n: nat, row: nat, ghost col: nat, piv: seq<int>)
    returns (x: seq<F>)
    requires IsRing(K) && Echelon(K, M, m, n + 1, row, col, piv) && col <= n && (row == m || col == n)
    requires forall k :: row <= k < m ==> M[k][n] == K.zero
    ensures IsVector(K, x, n) && InKernel(K, M, x + [K.neg(K.one)])
    ensures forall j :: 0 <= j < n && (forall r :: 0 <= r < row ==> piv[r] != j) ==> x[j] == K.zero
    ensures forall r :: 0 <= r < row ==> 0 <= piv[r] < n && x[piv[r]] == M[r][n]
  {
    hide InKernel, Dot, Echelon;
    EchelonShape(K, M, m, n + 1, row, col, piv);
    x := Zeros(K, n);
    PivotsInRange(K, M, m, n + 1, row, col, piv);
    forall k: nat | k < m ensures Residual(K, M[k], n, x) == K.neg(M[k][n]) { ResidualStart(K, M[k], n); }
    for i := 0 to row
      invariant IsVector(K, x, n)
      invariant forall r :: 0 <= r < row ==> x[piv[r]] == if r < i then M[r][n] else K.zero
      invariant forall j :: 0 <= j < n && (forall r :: 0 <= r < i ==> piv[r] != j) ==> x[j] == K.zero
      invariant forall k :: 0 <= k < m ==> Residual(K, M[k], n, x) == if k < i then K.zero else K.neg(M[k][n])
    {
      if piv[i] >= 0 {
        var c: nat := piv[i];
        PivotColumn(K, M, m, n + 1, row, col, piv, i);
        forall k: nat | k < m
          ensures Residual(K, M[k], n, x[c := M[i][n]]) == if k < i + 1 then K.zero else K.neg(M[k][n])
        {
          ResidualUpdate(K, M[k], n, x, c, M[i][n], k == i);
        }
        x := x[c := M[i][n]];
      }
    }
    NegZero(K);
    ResidualKernel(K, M, m, n, x);
  }

  lemma PivotsInRange<F(!new)>(K: Ring<F>, M: Matrix<F>, m: nat, n: nat, row: nat, col: nat, piv: seq<int>)
    requires Echelon(K, M, m, n, row, col, piv)
    ensures forall r :: 0 <= r < row ==> 0 <= piv[r] < col
    ensures forall r, s :: 0 <= r < s < row ==> piv[r] != piv[s]
  {}

  lemma PivotColumn<F(!new)>(K: Ring<F>, M: Matrix<F>, m: nat, n: nat, row: nat, col: nat, piv: seq<int>, r: nat)
    requires Echelon(K, M, m, n, row, col, piv) && r < row
    ensures forall i :: 0 <= i < m ==> M[i][piv[r]] == if i == r then K.one else K.zero
  {}

  /** What is left of equation r . (x, -1) == 0 */
  ghost function Residual<F>(K: Ring<F>, r: seq<F>, n: nat, x: seq<F>): F
    requires |r| == n + 1 && |x| == n
  {
    Dot(K, r, x + [K.neg(K.one)])
  }

  lemma ResidualStart<F(!new)>(K: Ring<F>, r: seq<F>, n: nat)
    requires IsRing(K) && |r| == n + 1 && AllIn(K, r)
    ensures Residual(K, r, n, Zeros(K, n)) == K.neg(r[n])
  {
    var v := Zeros(K, n) + [K.neg(K.one)];
    DotSingle(K, r, v, n);
    MulNeg(K, r[n], K.one);
    MulOne(K, r[n]);
  }

  lemma ResidualUpdate<F(!new)>(K: Ring<F>, r: seq<F>, n: nat, x: seq<F>, c: nat, v: F, mine: bool)
    requires IsRing(K) && |r| == n + 1 && AllIn(K, r) && IsVector(K, x, n) && c < n && K.has(v) && x[c] == K.zero
    requires r[c] == if mine then K.one else K.zero
    requires mine ==> v == r[n] && Residual(K, r, n, x) == K.neg(r[n])
    ensures Residual(K, r, n, x[c := v]) == if mine then K.zero else Residual(K, r, n, x)
  {
    var w := x + [K.neg(K.one)];
    assert x[c := v] + [K.neg(K.one)] == w[c := v];
    DotUpdate(K, r, w, c, v);
    DotHas(K, r, w);
    AddZero(K, Dot(K, r, w));
    MulZero(K, v);
    MulOne(K, v);
    AddNeg(K, r[n]);
  }

  lemma ResidualKernel<F(!new)>(K: Ring<F>, M: Matrix<F>, m: nat, n: nat, x: seq<F>)
    requires IsMatrix(K, M, m, n + 1) && |x| == n
    requires forall k :: 0 <= k < m ==> |M[k]| == n + 1 && Residual(K, M[k], n, x) == K.zero
    ensures InKernel(K, M, x + [K.neg(K.one)])
  {}
}
