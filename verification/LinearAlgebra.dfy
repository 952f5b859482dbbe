/** Vectors and matrices over a Ring, and Gauss-Jordan elimination. */
module LinearAlgebra {
  import opened Rings
  import opened Vectors

  type Matrix<F> = seq<seq<F>>

  ghost predicate IsVector<F(!new)>(K: Ring<F>, v: seq<F>, n: nat) {
    |v| == n && AllIn(K, v)
  }

  ghost predicate IsMatrix<F(!new)>(K: Ring<F>, M: Matrix<F>, m: nat, n: nat) {
    |M| == m && forall i :: 0 <= i < m ==> IsVector(K, M[i], n)
  }

  function Dot<F>(K: Ring<F>, u: seq<F>, v: seq<F>): F
    requires |u| == |v|
  {
    if u == [] then K.zero else K.add(K.mul(u[0], v[0]), Dot(K, u[1..], v[1..]))
  }

  function VScale<F>(K: Ring<F>, c: F, v: seq<F>): (r: seq<F>)
    ensures |r| == |v| && forall i :: 0 <= i < |v| ==> r[i] == K.mul(c, v[i])
  {
    seq(|v|, i requires 0 <= i < |v| => K.mul(c, v[i]))
  }

  function VAdd<F>(K: Ring<F>, u: seq<F>, v: seq<F>): (r: seq<F>)
    requires |u| == |v|
    ensures |r| == |u| && forall i :: 0 <= i < |u| ==> r[i] == K.add(u[i], v[i])
  {
    seq(|u|, i requires 0 <= i < |u| => K.add(u[i], v[i]))
  }

  /** u - c * v */
  function VSubScaled<F>(K: Ring<F>, u: seq<F>, c: F, v: seq<F>): (r: seq<F>)
    requires |u| == |v|
    ensures |r| == |u| && forall i :: 0 <= i < |u| ==> r[i] == Sub(K, u[i], K.mul(c, v[i]))
  {
    seq(|u|, i requires 0 <= i < |u| => Sub(K, u[i], K.mul(c, v[i])))
  }

  lemma {:induction false} DotHas<F(!new)>(K: Ring<F>, u: seq<F>, v: seq<F>)
    requires IsRing(K) && |u| == |v| && AllIn(K, u) && AllIn(K, v)
    ensures K.has(Dot(K, u, v))
  {
    if u != [] { DotHas(K, u[1..], v[1..]); }
  }

  lemma {:induction false} DotComm<F(!new)>(K: Ring<F>, u: seq<F>, v: seq<F>)
    requires IsRing(K) && |u| == |v| && AllIn(K, u) && AllIn(K, v)
    ensures Dot(K, u, v) == Dot(K, v, u)
  {
    if u != [] {
      DotComm(K, u[1..], v[1..]);
      MulComm(K, u[0], v[0]);
    }
  }

  lemma {:induction false} DotScale<F(!new)>(K: Ring<F>, c: F, u: seq<F>, v: seq<F>)
    requires IsRing(K) && |u| == |v| && AllIn(K, u) && AllIn(K, v) && K.has(c)
    ensures Dot(K, VScale(K, c, u), v) == K.mul(c, Dot(K, u, v))
  {
    if u == [] {
      MulZero(K, c);
    } else {
      assert VScale(K, c, u)[1..] == VScale(K, c, u[1..]);
      DotScale(K, c, u[1..], v[1..]);
      DotHas(K, u[1..], v[1..]);
      MulAssoc(K, c, u[0], v[0]);
      Distr(K, c, K.mul(u[0], v[0]), Dot(K, u[1..], v[1..]));
    }
  }

  lemma {:induction false} DotAdd<F(!new)>(K: Ring<F>, u: seq<F>, w: seq<F>, v: seq<F>)
    requires IsRing(K) && |u| == |w| == |v| && AllIn(K, u) && AllIn(K, w) && AllIn(K, v)
    ensures Dot(K, VAdd(K, u, w), v) == K.add(Dot(K, u, v), Dot(K, w, v))
  {
    if u == [] {
      AddZero(K, K.zero);
    } else {
      assert VAdd(K, u, w)[1..] == VAdd(K, u[1..], w[1..]);
      DotAdd(K, u[1..], w[1..], v[1..]);
      DotHas(K, u[1..], v[1..]);
      DotHas(K, w[1..], v[1..]);
      DistrRight(K, u[0], w[0], v[0]);
      AddSwap(K, K.mul(u[0], v[0]), K.mul(w[0], v[0]), Dot(K, u[1..], v[1..]), Dot(K, w[1..], v[1..]));
    }
  }

  lemma {:induction false} DotSubScaled<F(!new)>(K: Ring<F>, u: seq<F>, c: F, w: seq<F>, v: seq<F>)
    requires IsRing(K) && |u| == |w| == |v| && AllIn(K, u) && AllIn(K, w) && AllIn(K, v) && K.has(c)
    ensures Dot(K, VSubScaled(K, u, c, w), v) == Sub(K, Dot(K, u, v), K.mul(c, Dot(K, w, v)))
  {
    var n := K.neg(c);
    forall i | 0 <= i < |u| ensures VSubScaled(K, u, c, w)[i] == VAdd(K, u, VScale(K, n, w))[i] {
      MulNeg(K, c, w[i]);
    }
    assert VSubScaled(K, u, c, w) == VAdd(K, u, VScale(K, n, w));
    DotAdd(K, u, VScale(K, n, w), v);
    DotScale(K, n, w, v);
    DotHas(K, w, v);
    MulNeg(K, c, Dot(K, w, v));
  }

  // products all zero but one
  lemma {:induction false} DotSingle<F(!new)>(K: Ring<F>, u: seq<F>, v: seq<F>, c: nat)
    requires IsRing(K) && |u| == |v| && AllIn(K, u) && AllIn(K, v) && c < |u|
    requires forall j :: 0 <= j < |u| && j != c ==> u[j] == K.zero || v[j] == K.zero
    ensures Dot(K, u, v) == K.mul(u[c], v[c])
  {
    if c == 0 {
      DotNone(K, u[1..], v[1..]);
      AddZero(K, K.mul(u[0], v[0]));
    } else {
      DotSingle(K, u[1..], v[1..], c - 1);
      MulZero(K, u[0]);
      MulZero(K, v[0]);
      AddZero(K, K.mul(u[c], v[c]));
    }
  }

  lemma {:induction false} DotNone<F(!new)>(K: Ring<F>, u: seq<F>, v: seq<F>)
    requires IsRing(K) && |u| == |v| && AllIn(K, u) && AllIn(K, v)
    requires forall j :: 0 <= j < |u| ==> u[j] == K.zero || v[j] == K.zero
    ensures Dot(K, u, v) == K.zero
  {
    if u != [] {
      DotNone(K, u[1..], v[1..]);
      MulZero(K, u[0]);
      MulZero(K, v[0]);
      AddZero(K, K.zero);
    }
  }

  lemma {:induction false} DotSnoc<F(!new)>(K: Ring<F>, u: seq<F>, c: F, v: seq<F>, d: F)
    requires IsRing(K) && |u| == |v| && AllIn(K, u) && AllIn(K, v) && K.has(c) && K.has(d)
    ensures Dot(K, u + [c], v + [d]) == K.add(Dot(K, u, v), K.mul(c, d))
  {
    if u == [] {
      assert u + [c] == [c] && v + [d] == [d];
      assert [c][1..] == [] && [d][1..] == [];
      AddComm(K, K.mul(c, d), K.zero);
    } else {
      assert (u + [c])[1..] == u[1..] + [c] && (v + [d])[1..] == v[1..] + [d];
      DotSnoc(K, u[1..], c, v[1..], d);
      DotHas(K, u[1..], v[1..]);
      AddAssoc(K, K.mul(u[0], v[0]), Dot(K, u[1..], v[1..]), K.mul(c, d));
    }
  }

  /** Changing one coordinate. */
  lemma DotUpdate<F(!new)>(K: Ring<F>, u: seq<F>, v: seq<F>, c: nat, x: F)
    requires IsRing(K) && |u| == |v| && AllIn(K, u) && AllIn(K, v) && c < |u| && K.has(x) && v[c] == K.zero
    ensures Dot(K, u, v[c := x]) == K.add(Dot(K, u, v), K.mul(u[c], x))
  {
    var e := Zeros(K, |v|)[c := x];
    forall i | 0 <= i < |v| ensures v[c := x][i] == VAdd(K, v, e)[i] {
      AddZero(K, v[i]);
      AddZero(K, x);
    }
    assert v[c := x] == VAdd(K, v, e);
    DotComm(K, u, v[c := x]);
    DotAdd(K, v, e, u);
    DotComm(K, v, u);
    DotComm(K, e, u);
    DotSingle(K, u, e, c);
  }

  // ----- the null space -----

  /** Every row of M is orthogonal to y. */
  ghost predicate InKernel<F(!new)>(K: Ring<F>, M: Matrix<F>, y: seq<F>) {
    forall i :: 0 <= i < |M| ==> |M[i]| == |y| && Dot(K, M[i], y) == K.zero
  }

  ghost predicate SameKernel<F(!new)>(K: Ring<F>, M: Matrix<F>, N: Matrix<F>, n: nat) {
    forall y :: IsVector(K, y, n) ==> (InKernel(K, M, y) <==> InKernel(K, N, y))
  }

  lemma KernelAdd<F(!new)>(K: Ring<F>, M: Matrix<F>, m: nat, n: nat, y: seq<F>, z: seq<F>)
    requires IsRing(K) && IsMatrix(K, M, m, n) && IsVector(K, y, n) && IsVector(K, z, n)
    requires InKernel(K, M, y) && InKernel(K, M, z)
    ensures InKernel(K, M, VAdd(K, y, z))
  {
    forall i | 0 <= i < |M| ensures Dot(K, M[i], VAdd(K, y, z)) == K.zero {
      assert IsVector(K, M[i], n);
      DotComm(K, M[i], VAdd(K, y, z));
      DotAdd(K, y, z, M[i]);
      DotComm(K, y, M[i]);
      DotComm(K, z, M[i]);
      AddZero(K, K.zero);
    }
  }

  lemma KernelScale<F(!new)>(K: Ring<F>, M: Matrix<F>, m: nat, n: nat, c: F, y: seq<F>)
    requires IsRing(K) && IsMatrix(K, M, m, n) && IsVector(K, y, n) && K.has(c) && InKernel(K, M, y)
    ensures InKernel(K, M, VScale(K, c, y))
  {
    forall i | 0 <= i < |M| ensures Dot(K, M[i], VScale(K, c, y)) == K.zero {
      assert IsVector(K, M[i], n);
      DotComm(K, M[i], VScale(K, c, y));
      DotScale(K, c, y, M[i]);
      DotComm(K, y, M[i]);
      MulZero(K, c);
    }
  }

  // ----- one column of Gauss-Jordan -----

  function SwapRows<F>(M: Matrix<F>, a: nat, b: nat): (r: Matrix<F>)
    requires a < |M| && b < |M|
    ensures |r| == |M| && r[a] == M[b] && r[b] == M[a]
    ensures forall i :: 0 <= i < |M| && i != a && i != b ==> r[i] == M[i]
  {
    M[a := M[b]][b := M[a]]
  }

  /** S with row `row` used to clear column col of every other row below index k. */
  function Cleared<F>(K: Ring<F>, S: Matrix<F>, row: nat, col: nat, k: nat): (r: Matrix<F>)
    requires row < |S| && forall i :: 0 <= i < |S| ==> |S[i]| == |S[row]| && col < |S[i]|
    ensures |r| == |S| && forall i :: 0 <= i < |S| ==>
      r[i] == if i == row || i >= k then S[i] else VSubScaled(K, S[i], S[i][col], S[row])
  {
    seq(|S|, i requires 0 <= i < |S| =>
      if i == row || i >= k then S[i] else VSubScaled(K, S[i], S[i][col], S[row]))
  }

  /** The state of the elimination before column col: the first `row` rows hold their pivots, each the first
      non-zero entry of its row and the only one of its column. */
  ghost predicate Echelon<F(!new)>(K: Ring<F>, M: Matrix<F>, m: nat, n: nat, row: nat, col: nat, piv: seq<int>) {
    && IsMatrix(K, M, m, n) && row <= m && row <= col <= n && |piv| == m
    && (forall r :: row <= r < m ==> piv[r] == -1)
    && (forall r :: 0 <= r < row ==> 0 <= piv[r] < col)
    && (forall r, s :: 0 <= r < s < row ==> piv[r] != piv[s])
    && (forall r, i :: 0 <= r < row && 0 <= i < m ==> M[i][piv[r]] == if i == r then K.one else K.zero)
    && (forall i, j :: row <= i < m && 0 <= j < col ==> M[i][j] == K.zero)
    && (forall r, j :: 0 <= r < row && 0 <= j < piv[r] ==> M[r][j] == K.zero)
  }

  // a column without a pivot
  lemma EchelonSkip<F(!new)>(K: Ring<F>, M: Matrix<F>, m: nat, n: nat, row: nat, col: nat, piv: seq<int>)
    requires Echelon(K, M, m, n, row, col, piv) && col < n
    requires forall i :: row <= i < m ==> M[i][col] == K.zero
    ensures Echelon(K, M, m, n, row, col + 1, piv)
  {}

  lemma SwapStays<F(!new)>(K: Ring<F>, M: Matrix<F>, m: nat, n: nat, row: nat, col: nat, piv: seq<int>, p: nat)
    requires Echelon(K, M, m, n, row, col, piv) && row <= p < m
    ensures Echelon(K, SwapRows(M, row, p), m, n, row, col, piv)
  {}

  lemma ScaleStays<F(!new)>(K: Ring<F>, M: Matrix<F>, m: nat, n: nat, row: nat, col: nat, piv: seq<int>, c: F)
    requires IsRing(K) && Echelon(K, M, m, n, row, col, piv) && row < m && K.has(c)
    ensures Echelon(K, M[row := VScale(K, c, M[row])], m, n, row, col, piv)
  {
    MulZero(K, c);
    var N := M[row := VScale(K, c, M[row])];
    assert IsVector(K, M[row], n);
    assert AllIn(K, N[row]);
  }

  lemma ClearedIsMatrix<F(!new)>(K: Ring<F>, S: Matrix<F>, m: nat, n: nat, row: nat, col: nat, k: nat)
    requires IsRing(K) && IsMatrix(K, S, m, n) && row < m && col < n
    ensures IsMatrix(K, Cleared(K, S, row, col, k), m, n)
  {
    forall i | 0 <= i < m ensures IsVector(K, Cleared(K, S, row, col, k)[i], n) {
      assert IsVector(K, S[i], n) && IsVector(K, S[row], n);
      assert K.has(S[i][col]);
    }
  }

  lemma ClearedAt<F(!new)>(K: Ring<F>, S: Matrix<F>, m: nat, n: nat, row: nat, col: nat, i: nat, j: nat)
    requires IsRing(K) && IsMatrix(K, S, m, n) && row < m && col < n && i < m && j < n
    requires i != row
    ensures S[row][j] == K.zero ==> Cleared(K, S, row, col, m)[i][j] == S[i][j]
    ensures j == col && S[row][col] == K.one ==> Cleared(K, S, row, col, m)[i][j] == K.zero
  {
    var a := S[i][col];
    assert IsVector(K, S[i], n) && K.has(a) && K.has(S[i][j]);
    MulZero(K, a);
    MulOne(K, a);
    NegZero(K);
    AddZero(K, S[i][j]);
    AddNeg(K, a);
  }

  // a row with its leading one clears the column
  lemma EchelonPivot<F(!new)>(K: Ring<F>, S: Matrix<F>, m: nat, n: nat, row: nat, col: nat, piv: seq<int>)
    requires IsRing(K) && Echelon(K, S, m, n, row, col, piv) && row < m && col < n && S[row][col] == K.one
    ensures Echelon(K, Cleared(K, S, row, col, m), m, n, row + 1, col + 1, piv[row := col])
  {
    var N, piv' := Cleared(K, S, row, col, m), piv[row := col];
    ClearedIsMatrix(K, S, m, n, row, col, m);
    forall i, j | 0 <= i < m && 0 <= j < n && i != row
      ensures S[row][j] == K.zero ==> N[i][j] == S[i][j]
      ensures j == col ==> N[i][j] == K.zero
    {
      ClearedAt(K, S, m, n, row, col, i, j);
    }
    assert N[row] == S[row];
    forall r, i | 0 <= r < row + 1 && 0 <= i < m ensures N[i][piv'[r]] == if i == r then K.one else K.zero {
      if r < row { assert S[row][piv[r]] == K.zero; }
    }
  }

  lemma KernelSwap<F(!new)>(K: Ring<F>, M: Matrix<F>, a: nat, b: nat, y: seq<F>)
    requires a < |M| && b < |M|
    ensures InKernel(K, SwapRows(M, a, b), y) <==> InKernel(K, M, y)
  {
    hide Dot;
    var S := SwapRows(M, a, b);
    assert SwapRows(S, a, b) == M;
    if InKernel(K, M, y) { KernelSwapOne(K, M, a, b, y); }
    if InKernel(K, S, y) { KernelSwapOne(K, S, a, b, y); }
  }

  lemma KernelSwapOne<F(!new)>(K: Ring<F>, M: Matrix<F>, a: nat, b: nat, y: seq<F>)
    requires a < |M| && b < |M| && InKernel(K, M, y)
    ensures InKernel(K, SwapRows(M, a, b), y)
  {
    hide Dot;
    var S := SwapRows(M, a, b);
    forall i | 0 <= i < |S| ensures |S[i]| == |y| && Dot(K, S[i], y) == K.zero {
      assert S[i] == M[if i == a then b else if i == b then a else i];
    }
  }

  lemma KernelScaleRow<F(!new)>(K: Ring<F>, M: Matrix<F>, m: nat, n: nat, row: nat, c: F, y: seq<F>)
    requires IsRing(K) && IsMatrix(K, M, m, n) && row < m && IsVector(K, y, n) && K.has(c) && K.inverse(c).Some?
    ensures InKernel(K, M[row := VScale(K, c, M[row])], y) <==> InKernel(K, M, y)
  {
    var N := M[row := VScale(K, c, M[row])];
    assert IsVector(K, M[row], n);
    DotScale(K, c, M[row], y);
    DotHas(K, M[row], y);
    MulZero(K, c);
    if Dot(K, M[row], y) != K.zero { UnitTimesNonZero(K, c, Dot(K, M[row], y)); }
    assert Dot(K, N[row], y) == K.zero <==> Dot(K, M[row], y) == K.zero;
    if InKernel(K, M, y) {
      forall i | 0 <= i < |N| ensures |N[i]| == |y| && Dot(K, N[i], y) == K.zero {
        assert i != row ==> N[i] == M[i];
      }
    }
    if InKernel(K, N, y) {
      forall i | 0 <= i < |M| ensures |M[i]| == |y| && Dot(K, M[i], y) == K.zero {
        assert i != row ==> N[i] == M[i];
      }
    }
  }

  lemma KernelClearedRow<F(!new)>(K: Ring<F>, S: Matrix<F>, m: nat, n: nat, row: nat, col: nat, y: seq<F>, i: nat)
    requires IsRing(K) && IsMatrix(K, S, m, n) && row < m && col < n && IsVector(K, y, n) && i < m
    requires Dot(K, S[row], y) == K.zero
    ensures Dot(K, Cleared(K, S, row, col, m)[i], y) == Dot(K, S[i], y)
  {
    if i != row {
      assert IsVector(K, S[i], n) && IsVector(K, S[row], n) && K.has(S[i][col]);
      DotSubScaled(K, S[i], S[i][col], S[row], y);
      MulZero(K, S[i][col]);
      NegZero(K);
      DotHas(K, S[i], y);
      AddZero(K, Dot(K, S[i], y));
    }
  }

  lemma KernelCleared<F(!new)>(K: Ring<F>, S: Matrix<F>, m: nat, n: nat, row: nat, col: nat, y: seq<F>)
    requires IsRing(K) && IsMatrix(K, S, m, n) && row < m && col < n && IsVector(K, y, n)
    ensures InKernel(K, Cleared(K, S, row, col, m), y) <==> InKernel(K, S, y)
  {
    hide Dot;
    var N := Cleared(K, S, row, col, m);
    assert N[row] == S[row] && IsVector(K, S[row], n);
    if Dot(K, S[row], y) == K.zero {
      forall i: nat | i < m ensures Dot(K, N[i], y) == Dot(K, S[i], y) && |N[i]| == |S[i]| == |y| {
        KernelClearedRow(K, S, m, n, row, col, y, i);
        assert IsVector(K, S[i], n) && IsVector(K, S[row], n);
      }
    } else {
      assert !InKernel(K, S, y) && !InKernel(K, N, y);
    }
  }

  // ----- the loops -----

  /** Multiplies the entries from column `from` on; entries before it are zero. */
  method ScaleRow<F(!new,==)>(K: Ring<F>, v: seq<F>, c: F, from: nat) returns (r: seq<F>)
    requires IsRing(K) && AllIn(K, v) && K.has(c) && from <= |v| && forall j :: 0 <= j < from ==> v[j] == K.zero
    ensures r == VScale(K, c, v)
  {
    MulZero(K, c);
    r := v;
    for j := from to |v|
      invariant |r| == |v|
      invariant forall k :: 0 <= k < |v| ==> r[k] == if k < j then K.mul(c, v[k]) else v[k]
    {
      r := r[j := K.mul(c, r[j])];
    }
  }

  /** Subtracts f times the pivot row, from column `from` on. */
  method SubtractScaled<F(!new,==)>(K: Ring<F>, u: seq<F>, f: F, v: seq<F>, from: nat) returns (r: seq<F>)
    requires IsRing(K) && AllIn(K, u) && AllIn(K, v) && |u| == |v| && K.has(f)
    requires from <= |v| && forall j :: 0 <= j < from ==> v[j] == K.zero
    ensures r == VSubScaled(K, u, f, v)
  {
    MulZero(K, f);
    NegZero(K);
    r := u;
    forall k | 0 <= k < from ensures u[k] == Sub(K, u[k], K.mul(f, v[k])) { AddZero(K, u[k]); }
    for j := from to |v|
      invariant |r| == |u|
      invariant forall k :: 0 <= k < |u| ==> r[k] == if k < j then Sub(K, u[k], K.mul(f, v[k])) else u[k]
    {
      r := r[j := Sub(K, r[j], K.mul(f, v[j]))];
    }
  }

  /** Clears the column in every other row. */
  method ClearColumn<F(!new,==)>(K: Ring<F>, S: Matrix<F>, m: nat, n: nat, row: nat, col: nat, from: nat)
    returns (M: Matrix<F>)
    requires IsRing(K) && IsMatrix(K, S, m, n) && row < m && col < n
    requires from <= n && forall j :: 0 <= j < from ==> S[row][j] == K.zero
    ensures M == Cleared(K, S, row, col, m)
  {
    M := S;
    assert IsVector(K, S[row], n);
    for k := 0 to m
      invariant M == Cleared(K, S, row, col, k)
    {
      assert IsVector(K, S[k], n);
      if k != row {
        var f := M[k][col];
        assert K.has(f);
        if f != K.zero {
          var r := SubtractScaled(K, M[k], f, M[row], from);
          M := M[k := r];
        } else {
          ZeroMultiple(K, S[k], S[row]);
        }
      }
      assert M == Cleared(K, S, row, col, k + 1);
    }
  }

  lemma ZeroMultiple<F(!new)>(K: Ring<F>, u: seq<F>, v: seq<F>)
    requires IsRing(K) && |u| == |v| && AllIn(K, u) && AllIn(K, v)
    ensures VSubScaled(K, u, K.zero, v) == u
  {
    forall i | 0 <= i < |u| ensures VSubScaled(K, u, K.zero, v)[i] == u[i] {
      MulZero(K, v[i]);
      NegZero(K);
      AddZero(K, u[i]);
    }
  }

  method FindPivot<F(!new,==)>(K: Ring<F>, M: Matrix<F>, m: nat, n: nat, row: nat, col: nat) returns (p: nat)
    requires IsMatrix(K, M, m, n) && row <= m && col < n
    ensures row <= p <= m && (p < m ==> M[p][col] != K.zero)
    ensures forall i :: row <= i < p ==> M[i][col] == K.zero
  {
    p := row;
    assert forall i :: 0 <= i < m ==> IsVector(K, M[i], n);
    while p < m && M[p][col] == K.zero
      invariant row <= p <= m && forall i :: row <= i < p ==> M[i][col] == K.zero
    {
      p := p + 1;
    }
  }

  /** Elimination on the first `cols` columns of an m by n matrix.  With whole == false each row update
      starts at the pivot column, with whole == true it covers the row: both are the same row
      operations, because the pivot row has only zeros before its pivot.  Every vector keeps its
      membership in the null space. */
  method GaussJordan<F(!new,==)>(K: Ring<F>, M0: Matrix<F>, m: nat, n: nat, cols: nat, whole: bool)
    returns (M: Matrix<F>, row: nat, piv: seq<int>)
    requires IsField(K) && IsMatrix(K, M0, m, n) && cols <= n
    ensures SameKernel(K, M0, M, n)
    ensures exists col: nat :: col <= cols && Echelon(K, M, m, n, row, col, piv) && (row == m || col == cols)
  {
    hide IsField, Echelon, InKernel, IsMatrix, Cleared, SwapRows, VScale;
    FieldIsDomain(K);
    FieldIsRing(K);
    M, row, piv := M0, 0, seq(m, _ => -1);
    EchelonStart(K, M0, m, n, piv);
    var col := 0;
    while col < cols && row < m
      invariant col <= cols && Echelon(K, M, m, n, row, col, piv) && SameKernel(K, M0, M, n)
      decreases cols - col
    {
      EchelonShape(K, M, m, n, row, col, piv);
      var p := FindPivot(K, M, m, n, row, col);
      if p == m {
        EchelonSkip(K, M, m, n, row, col, piv);
      } else {
        ghost var before := M;
        SwapStays(K, M, m, n, row, col, piv, p);
        M := SwapRows(M, row, p);
        EchelonShape(K, M, m, n, row, col, piv);
        var lead := M[row][col];
        LeadInverse(K, lead);
        var inv := K.inverse(lead).value;
        ghost var swapped := M;
        var from := if whole then 0 else col;
        var scaled := ScaleRow(K, M[row], inv, from);
        ScaleStays(K, M, m, n, row, col, piv, inv);
        M := M[row := scaled];
        EchelonShape(K, M, m, n, row, col, piv);
        EchelonPivot(K, M, m, n, row, col, piv);
        ghost var S := M;
        M := ClearColumn(K, M, m, n, row, col, from);
        PivotKernel(K, before, swapped, S, M, m, n, row, p, col, inv);
        SameKernelTrans(K, M0, before, M, n);
        piv := piv[row := col];
        row := row + 1;
      }
      col := col + 1;
    }
    EchelonShape(K, M, m, n, row, col, piv);
    assert col <= cols && Echelon(K, M, m, n, row, col, piv) && (row == m || col == cols);
  }

  lemma FieldIsRing<F(!new)>(K: Ring<F>)
    requires IsField(K)
    ensures IsRing(K)
  {}

  lemma EchelonStart<F(!new)>(K: Ring<F>, M: Matrix<F>, m: nat, n: nat, piv: seq<int>)
    requires IsMatrix(K, M, m, n) && |piv| == m && forall r :: 0 <= r < m ==> piv[r] == -1
    ensures Echelon(K, M, m, n, 0, 0, piv) && SameKernel(K, M, M, n)
  {}

  lemma EchelonShape<F(!new)>(K: Ring<F>, M: Matrix<F>, m: nat, n: nat, row: nat, col: nat, piv: seq<int>)
    requires Echelon(K, M, m, n, row, col, piv)
    ensures IsMatrix(K, M, m, n) && |M| == m && |piv| == m && row <= col <= n && row <= m
    ensures forall i :: 0 <= i < m ==> |M[i]| == n && AllIn(K, M[i])
    ensures forall i, j :: row <= i < m && 0 <= j < col ==> M[i][j] == K.zero
  {
    assert forall i :: 0 <= i < m ==> IsVector(K, M[i], n);
  }

  lemma LeadInverse<F(!new)>(K: Ring<F>, lead: F)
    requires IsField(K) && K.has(lead) && lead != K.zero
    ensures K.inverse(lead).Some?
    ensures var inv := K.inverse(lead).value;
            K.has(inv) && K.mul(inv, lead) == K.one && K.inverse(inv).Some?
  {
    var inv := K.inverse(lead).value;
    MulComm(K, inv, lead);
    MulZero(K, lead);
  }

  lemma PivotKernel<F(!new)>(K: Ring<F>, M: Matrix<F>, swapped: Matrix<F>, S: Matrix<F>, N: Matrix<F>,
                             m: nat, n: nat, row: nat, p: nat, col: nat, inv: F)
    requires IsRing(K) && IsMatrix(K, M, m, n) && IsMatrix(K, swapped, m, n) && IsMatrix(K, S, m, n)
    requires |M| == m && row <= p < m && col < n && K.has(inv) && K.inverse(inv).Some?
    requires swapped == SwapRows(M, row, p) && S == swapped[row := VScale(K, inv, swapped[row])]
    requires (forall i :: 0 <= i < m ==> |S[i]| == n) && N == Cleared(K, S, row, col, m)
    ensures SameKernel(K, M, N, n)
  {
    hide InKernel, IsMatrix, SwapRows, Cleared, VScale;
    forall y | IsVector(K, y, n) ensures InKernel(K, M, y) <==> InKernel(K, N, y) {
      KernelSwap(K, M, row, p, y);
      KernelScaleRow(K, swapped, m, n, row, inv, y);
      KernelCleared(K, S, m, n, row, col, y);
    }
  }

  lemma SameKernelTrans<F(!new)>(K: Ring<F>, A: Matrix<F>, B: Matrix<F>, C: Matrix<F>, n: nat)
    requires SameKernel(K, A, B, n) && SameKernel(K, B, C, n)
    ensures SameKernel(K, A, C, n)
  {
    hide InKernel;
  }
}
