/** The fixed vectors of a matrix: h with h Q == h. */
module FixedVectors {
  import opened Rings
  import opened Vectors
  import opened LinearAlgebra
  import opened NullSpace

  function Unit<F>(K: Ring<F>, n: nat, i: nat): (v: seq<F>)
    requires i < n
    ensures |v| == n
  {
    Zeros(K, n)[i := K.one]
  }

  function Column<F>(Q: Matrix<F>, n: nat, i: nat): (c: seq<F>)
    requires |Q| == n && i < n && forall j :: 0 <= j < n ==> |Q[j]| == n
    ensures |c| == n && forall j :: 0 <= j < n ==> c[j] == Q[j][i]
  {
    seq(n, j requires 0 <= j < n => Q[j][i])
  }

  /** h Q == h */
  ghost predicate IsFixed<F>(K: Ring<F>, Q: Matrix<F>, n: nat, h: seq<F>)
    requires |Q| == n == |h| && forall j :: 0 <= j < n ==> |Q[j]| == n
  {
    forall i: nat :: i < n ==> Dot(K, h, Column(Q, n, i)) == h[i]
  }

  /** The transpose of Q minus the identity. */
  function MinusIdentity<F>(K: Ring<F>, Q: Matrix<F>, n: nat): (A: Matrix<F>)
    requires |Q| == n && forall j :: 0 <= j < n ==> |Q[j]| == n
    ensures |A| == n && forall i: nat :: i < n ==> A[i] == VSubScaled(K, Column(Q, n, i), K.one, Unit(K, n, i))
  {
    seq(n, i requires 0 <= i < n => VSubScaled(K, Column(Q, n, i), K.one, Unit(K, n, i)))
  }

  lemma ColumnHas<F(!new)>(K: Ring<F>, Q: Matrix<F>, n: nat, i: nat)
    requires IsRing(K) && IsMatrix(K, Q, n, n) && i < n
    ensures AllIn(K, Column(Q, n, i)) && AllIn(K, Unit(K, n, i))
  {
    forall j | 0 <= j < n ensures K.has(Column(Q, n, i)[j]) { assert IsVector(K, Q[j], n); }
  }

  lemma MinusIdentityIsMatrix<F(!new)>(K: Ring<F>, Q: Matrix<F>, n: nat)
    requires IsRing(K) && IsMatrix(K, Q, n, n)
    ensures forall j :: 0 <= j < n ==> |Q[j]| == n
    ensures IsMatrix(K, MinusIdentity(K, Q, n), n, n)
  {
    assert forall j :: 0 <= j < n ==> IsVector(K, Q[j], n);
    forall i: nat | i < n ensures IsVector(K, MinusIdentity(K, Q, n)[i], n) { ColumnHas(K, Q, n, i); }
  }

  /** The null space of that matrix is the fixed space of Q. */
  lemma KernelIsFixed<F(!new)>(K: Ring<F>, Q: Matrix<F>, n: nat, h: seq<F>)
    requires IsRing(K) && IsMatrix(K, Q, n, n) && IsVector(K, h, n)
    ensures forall j :: 0 <= j < n ==> |Q[j]| == n
    ensures InKernel(K, MinusIdentity(K, Q, n), h) <==> IsFixed(K, Q, n, h)
  {
    MinusIdentityIsMatrix(K, Q, n);
    var A := MinusIdentity(K, Q, n);
    forall i: nat | i < n
      ensures |A[i]| == n && (Dot(K, A[i], h) == K.zero <==> Dot(K, h, Column(Q, n, i)) == h[i])
    {
      FixedAt(K, Q, n, h, i);
    }
  }

  lemma FixedAt<F(!new)>(K: Ring<F>, Q: Matrix<F>, n: nat, h: seq<F>, i: nat)
    requires IsRing(K) && IsMatrix(K, Q, n, n) && IsVector(K, h, n) && i < n
    requires forall j :: 0 <= j < n ==> |Q[j]| == n
    ensures Dot(K, MinusIdentity(K, Q, n)[i], h) == K.zero <==> Dot(K, h, Column(Q, n, i)) == h[i]
  {
    var (c, e) := (Column(Q, n, i), Unit(K, n, i));
    ColumnHas(K, Q, n, i);
    DotSubScaled(K, c, K.one, e, h);
    DotSingle(K, e, h, i);
    MulOne(K, h[i]);
    DotComm(K, c, h);
    DotHas(K, h, c);
    SubSelf(K, Dot(K, h, c), h[i]);
  }

  /** When row 0 of Q is the first unit vector, that vector is fixed and column 0 never holds a pivot. */
  lemma FirstIsFree<F(!new)>(K: Ring<F>, Q: Matrix<F>, n: nat, M: Matrix<F>, row: nat, piv: seq<int>)
    requires IsRing(K) && IsMatrix(K, Q, n, n) && n > 0 && Q[0] == Unit(K, n, 0)
    requires forall j :: 0 <= j < n ==> |Q[j]| == n
    requires Reduced(K, M, n, n, row, piv) && SameKernel(K, MinusIdentity(K, Q, n), M, n)
    ensures IsVector(K, Unit(K, n, 0), n) && FreeBasis(K, M, n, row, piv, 1, [0], [Unit(K, n, 0)])
  {
    var (A, u) := (MinusIdentity(K, Q, n), Unit(K, n, 0));
    forall i: nat | i < n ensures |A[i]| == n && Dot(K, A[i], u) == K.zero { FirstColumn(K, Q, n, i); }
    assert InKernel(K, A, u);
    NegZero(K);
    forall r | 0 <= r < row ensures M[r][0] == K.zero {
      assert IsVector(K, M[r], n);
      DotSingle(K, M[r], u, 0);
      MulOne(K, M[r][0]);
    }
    forall r | 0 <= r < row ensures piv[r] != 0 { assert M[r][piv[r]] == K.one; }
    assert !IsPivot(piv, row, 0);
    assert IsFreeVector(K, M, n, row, piv, 0, u);
  }

  lemma FirstColumn<F(!new)>(K: Ring<F>, Q: Matrix<F>, n: nat, i: nat)
    requires IsRing(K) && IsMatrix(K, Q, n, n) && i < n && Q[0] == Unit(K, n, 0)
    requires forall j :: 0 <= j < n ==> |Q[j]| == n
    ensures Dot(K, MinusIdentity(K, Q, n)[i], Unit(K, n, 0)) == K.zero
  {
    var a := MinusIdentity(K, Q, n)[i];
    MinusIdentityIsMatrix(K, Q, n);
    assert IsVector(K, a, n);
    DotSingle(K, a, Unit(K, n, 0), 0);
    assert a[0] == Sub(K, Q[0][i], K.mul(K.one, Unit(K, n, i)[0]));
    MulOne(K, K.one);
    MulOne(K, K.zero);
    AddNeg(K, K.one);
    AddNeg(K, K.zero);
  }

  /** A null vector for one free column. */
  method FreeVector<F(!new,==)>(K: Ring<F>, M: Matrix<F>, n: nat, row: nat, piv: seq<int>, f: nat)
    returns (v: seq<F>)
    requires IsRing(K) && Reduced(K, M, n, n, row, piv) && f < n && !IsPivot(piv, row, f)
    ensures IsFreeVector(K, M, n, row, piv, f, v)
  {
    v := Zeros(K, n)[f := K.one];
    for r := 0 to row
      invariant IsVector(K, v, n) && v[f] == K.one
      invariant forall s :: 0 <= s < r ==> v[piv[s]] == K.neg(M[s][f])
      invariant forall j :: 0 <= j < n && j != f && !IsPivot(piv, row, j) ==> v[j] == K.zero
    {
      assert IsVector(K, M[r], n);
      if piv[r] >= 0 {
        assert IsPivot(piv, row, piv[r]);
        v := v[piv[r] := K.neg(M[r][f])];
      }
    }
  }

  method BuildMinusIdentity<F(!new,==)>(K: Ring<F>, Q: Matrix<F>, n: nat) returns (A: Matrix<F>)
    requires IsRing(K) && IsMatrix(K, Q, n, n)
    ensures (forall j :: 0 <= j < n ==> |Q[j]| == n) && A == MinusIdentity(K, Q, n)
  {
    MinusIdentityIsMatrix(K, Q, n);
    A := seq(n, _ => Zeros(K, n));
    for i := 0 to n
      invariant |A| == n && (forall k :: i <= k < n ==> A[k] == Zeros(K, n))
      invariant forall k: nat :: k < i ==> A[k] == MinusIdentity(K, Q, n)[k]
    {
      for j := 0 to n
        invariant |A| == n && |A[i]| == n && (forall k :: i < k < n ==> A[k] == Zeros(K, n))
        invariant forall k: nat :: k < i ==> A[k] == MinusIdentity(K, Q, n)[k]
        invariant forall l :: 0 <= l < j ==> A[i][l] == MinusIdentity(K, Q, n)[i][l]
      {
        MulOne(K, K.one);
        MulOne(K, K.zero);
        A := A[i := A[i][j := Sub(K, Q[j][i], if j == i then K.one else K.zero)]];
      }
      assert A[i] == MinusIdentity(K, Q, n)[i];
    }
  }

  /** A reduced matrix with the null space of A has `rank` pivots. */
  ghost predicate HasRank<F(!new)>(K: Ring<F>, A: Matrix<F>, n: nat, rank: nat) {
    exists M, piv :: SameKernel(K, A, M, n) && Reduced(K, M, n, n, rank, piv)
  }

  ghost predicate InSpan<F(!new)>(K: Ring<F>, basis: seq<seq<F>>, n: nat, v: seq<F>) {
    AreVectors(K, basis, n) &&
    exists c {:trigger Combo(K, basis, c, n)} :: IsVector(K, c, |basis|) && Combo(K, basis, c, n) == v
  }

  /** The combinations of the basis are the h with h Q == h, no more and no less. */
  ghost predicate SpansFixed<F(!new)>(K: Ring<F>, Q: Matrix<F>, n: nat, basis: seq<seq<F>>)
    requires |Q| == n && forall j :: 0 <= j < n ==> |Q[j]| == n
  {
    forall v :: IsVector(K, v, n) ==> (IsFixed(K, Q, n, v) <==> InSpan(K, basis, n, v))
  }

  /** A basis of the null space of (Q - I) transposed is a basis of the fixed vectors of Q. */
  lemma BasisSpansFixed<F(!new)>(K: Ring<F>, Q: Matrix<F>, n: nat, basis: seq<seq<F>>)
    requires IsRing(K) && IsMatrix(K, Q, n, n)
    requires forall j :: 0 <= j < n ==> |Q[j]| == n
    requires IsBasis(K, MinusIdentity(K, Q, n), n, basis)
    ensures SpansFixed(K, Q, n, basis)
  {
    hide InKernel, IsFixed, IsRing, MinusIdentity, Combo;
    var A := MinusIdentity(K, Q, n);
    forall v | IsVector(K, v, n) ensures IsFixed(K, Q, n, v) <==> InSpan(K, basis, n, v) {
      KernelIsFixed(K, Q, n, v);
      if InSpan(K, basis, n, v) {
        var c :| IsVector(K, c, |basis|) && Combo(K, basis, c, n) == v;
        MinusIdentityIsMatrix(K, Q, n);
        ComboKernel(K, A, n, n, basis, c);
      }
    }
  }

  lemma RankIntro<F(!new)>(K: Ring<F>, A: Matrix<F>, M: Matrix<F>, n: nat, rank: nat, piv: seq<int>)
    requires SameKernel(K, A, M, n) && Reduced(K, M, n, n, rank, piv)
    ensures HasRank(K, A, n, rank)
  {}

  /** The basis is the hard-wired first unit vector and one vector for each later free column.  It
      spans the fixed vectors of Q, is independent, and has n minus the rank members. */
  method FixedBasis<F(!new,==)>(K: Ring<F>, Q: Matrix<F>, n: nat) returns (basis: seq<seq<F>>)
    requires IsField(K) && IsMatrix(K, Q, n, n) && n > 0 && Q[0] == Unit(K, n, 0)
    ensures forall j :: 0 <= j < n ==> |Q[j]| == n
    ensures IsBasis(K, MinusIdentity(K, Q, n), n, basis) && SpansFixed(K, Q, n, basis)
    ensures 0 < |basis| <= n && HasRank(K, MinusIdentity(K, Q, n), n, n - |basis|)
    ensures basis[0] == Unit(K, n, 0)
  {
    hide IsField, InKernel, IsMatrix, Dot, Reduced, FreeBasis, IsBasis, Echelon, HasRank, SpansFixed, SameKernel;
    FieldIsRing(K);
    var A := BuildMinusIdentity(K, Q, n);
    MinusIdentityIsMatrix(K, Q, n);
    var M, row, piv := GaussJordan(K, A, n, n, n, true);
    ghost var col: nat :| col <= n && Echelon(K, M, n, n, row, col, piv) && (row == n || col == n);
    EchelonReduced(K, M, n, n, row, col, piv);
    FirstIsFree(K, Q, n, M, row, piv);
    basis := ReadBasis(K, M, n, row, piv);
    BasisSame(K, A, M, n, basis);
    RankIntro(K, A, M, n, row, piv);
    BasisSpansFixed(K, Q, n, basis);
  }

  method ReadBasis<F(!new,==)>(K: Ring<F>, M: Matrix<F>, n: nat, row: nat, piv: seq<int>)
    returns (basis: seq<seq<F>>)
    requires IsRing(K) && n > 0 && Reduced(K, M, n, n, row, piv)
    requires FreeBasis(K, M, n, row, piv, 1, [0], [Unit(K, n, 0)])
    ensures IsBasis(K, M, n, basis)
    ensures row <= n && |basis| == n - row && |basis| > 0 && basis[0] == Unit(K, n, 0)
  {
    hide IsFreeVector, Reduced, IsPivot, FreeBasis, IsBasis;
    ReducedShape(K, M, n, n, row, piv);
    basis := [Unit(K, n, 0)];
    ghost var frees: seq<nat> := [0];
    for f := 1 to n
      invariant FreeBasis(K, M, n, row, piv, f, frees, basis) && |basis| > 0 && basis[0] == Unit(K, n, 0)
    {
      if !exists r :: 0 <= r < row && piv[r] == f {
        NotPivot(piv, row, f);
        var v := FreeVector(K, M, n, row, piv, f);
        FreeBasisGrows(K, M, n, row, piv, f, frees, basis, v);
        basis, frees := basis + [v], frees + [f];
      } else {
        FreeBasisSkips(K, M, n, row, piv, f, frees, basis);
      }
    }
    FreeCount(K, M, n, n, row, piv, frees, basis);
    FreeBasisIsBasis(K, M, n, n, row, piv, frees, basis);
  }

  lemma NotPivot(piv: seq<int>, row: nat, j: int)
    requires row <= |piv| && !exists r :: 0 <= r < row && piv[r] == j
    ensures !IsPivot(piv, row, j)
  {}

  lemma ReducedShape<F(!new)>(K: Ring<F>, M: Matrix<F>, m: nat, n: nat, row: nat, piv: seq<int>)
    requires Reduced(K, M, m, n, row, piv)
    ensures row <= |piv| && row <= |M| == m && (forall i :: 0 <= i < |M| ==> |M[i]| == n)
    ensures forall r :: 0 <= r < row ==> 0 <= piv[r] < n
  {}

  lemma FreeBasisGrows<F(!new)>(K: Ring<F>, M: Matrix<F>, n: nat, row: nat, piv: seq<int>,
                                f: nat, frees: seq<nat>, basis: seq<seq<F>>, v: seq<F>)
    requires row <= |piv| && row <= |M| && (forall i :: 0 <= i < |M| ==> |M[i]| == n) && f < n
    requires forall r :: 0 <= r < row ==> 0 <= piv[r] < n
    requires FreeBasis(K, M, n, row, piv, f, frees, basis)
    requires !IsPivot(piv, row, f) && IsFreeVector(K, M, n, row, piv, f, v)
    ensures FreeBasis(K, M, n, row, piv, f + 1, frees + [f], basis + [v])
  {
    hide IsFreeVector, IsPivot;
  }

  lemma FreeBasisSkips<F(!new)>(K: Ring<F>, M: Matrix<F>, n: nat, row: nat, piv: seq<int>,
                                f: nat, frees: seq<nat>, basis: seq<seq<F>>)
    requires row <= |piv| && row <= |M| && (forall i :: 0 <= i < |M| ==> |M[i]| == n) && f < n
    requires forall r :: 0 <= r < row ==> 0 <= piv[r] < n
    requires FreeBasis(K, M, n, row, piv, f, frees, basis) && exists r :: 0 <= r < row && piv[r] == f
    ensures FreeBasis(K, M, n, row, piv, f + 1, frees, basis)
  {
    hide IsFreeVector;
    assert IsPivot(piv, row, f);
  }

  lemma BasisSame<F(!new)>(K: Ring<F>, A: Matrix<F>, M: Matrix<F>, n: nat, basis: seq<seq<F>>)
    requires SameKernel(K, A, M, n) && IsBasis(K, M, n, basis)
    ensures IsBasis(K, A, n, basis)
  {
    hide InKernel, Combo;
    forall t | 0 <= t < |basis| ensures InKernel(K, A, basis[t]) { assert IsVector(K, basis[t], n); }
  }
}
