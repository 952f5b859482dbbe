/** Reading a basis of the null space off a reduced matrix. */
module NullSpace {
  import opened Rings
  import opened Vectors
  import opened LinearAlgebra

  /** c_0 basis_0 + c_1 basis_1 + ... */
  ghost function Combo<F>(K: Ring<F>, basis: seq<seq<F>>, c: seq<F>, n: nat): (v: seq<F>)
    requires |c| == |basis| && forall t :: 0 <= t < |basis| ==> |basis[t]| == n
    ensures |v| == n
  {
    if basis == [] then Zeros(K, n)
    else VAdd(K, VScale(K, c[0], basis[0]), Combo(K, basis[1..], c[1..], n))
  }

  ghost predicate AreVectors<F(!new)>(K: Ring<F>, basis: seq<seq<F>>, n: nat) {
    forall t :: 0 <= t < |basis| ==> IsVector(K, basis[t], n)
  }

  lemma {:induction false} ComboHas<F(!new)>(K: Ring<F>, basis: seq<seq<F>>, c: seq<F>, n: nat)
    requires IsRing(K) && AreVectors(K, basis, n) && IsVector(K, c, |basis|)
    ensures AllIn(K, Combo(K, basis, c, n))
  {
    if basis != [] {
      ComboHas(K, basis[1..], c[1..], n);
      assert IsVector(K, basis[0], n);
    }
  }

  lemma {:induction false} ComboKernel<F(!new)>(K: Ring<F>, M: Matrix<F>, m: nat, n: nat, basis: seq<seq<F>>, c: seq<F>)
    requires IsRing(K) && IsMatrix(K, M, m, n) && AreVectors(K, basis, n) && IsVector(K, c, |basis|)
    requires forall t :: 0 <= t < |basis| ==> InKernel(K, M, basis[t])
    ensures InKernel(K, M, Combo(K, basis, c, n))
  {
    hide InKernel, Dot;
    if basis == [] {
      ZerosKernel(K, M, m, n);
    } else {
      ComboKernel(K, M, m, n, basis[1..], c[1..]);
      ComboHas(K, basis[1..], c[1..], n);
      assert IsVector(K, basis[0], n);
      KernelScale(K, M, m, n, c[0], basis[0]);
      KernelAdd(K, M, m, n, VScale(K, c[0], basis[0]), Combo(K, basis[1..], c[1..], n));
    }
  }

  lemma ZerosKernel<F(!new)>(K: Ring<F>, M: Matrix<F>, m: nat, n: nat)
    requires IsRing(K) && IsMatrix(K, M, m, n)
    ensures InKernel(K, M, Zeros(K, n))
  {
    forall i | 0 <= i < m ensures Dot(K, M[i], Zeros(K, n)) == K.zero {
      assert IsVector(K, M[i], n);
      DotNone(K, M[i], Zeros(K, n));
    }
  }

  // a coordinate at which only basis vector t is not zero, and is one
  lemma {:induction false} ComboAt<F(!new)>(K: Ring<F>, basis: seq<seq<F>>, c: seq<F>, n: nat, j: nat, t: nat)
    requires IsRing(K) && AreVectors(K, basis, n) && IsVector(K, c, |basis|) && j < n
    requires forall s :: 0 <= s < |basis| ==> basis[s][j] == if s == t then K.one else K.zero
    ensures Combo(K, basis, c, n)[j] == if t < |basis| then c[t] else K.zero
  {
    if basis != [] {
      var rest := Combo(K, basis[1..], c[1..], n);
      ComboHas(K, basis[1..], c[1..], n);
      MulOne(K, c[0]);
      MulZero(K, c[0]);
      assert basis[0][j] == if 0 == t then K.one else K.zero;
      if t > 0 {
        ComboAt(K, basis[1..], c[1..], n, j, t - 1);
      } else {
        ComboAt(K, basis[1..], c[1..], n, j, |basis|);
      }
      AddZero(K, rest[j]);
      AddZero(K, c[0]);
    }
  }

  /** Every null vector is one and only one combination of the basis. */
  ghost predicate IsBasis<F(!new)>(K: Ring<F>, M: Matrix<F>, n: nat, basis: seq<seq<F>>) {
    && AreVectors(K, basis, n)
    && (forall t :: 0 <= t < |basis| ==> InKernel(K, M, basis[t]))
    && (forall y :: IsVector(K, y, n) && InKernel(K, M, y) ==>
          exists c {:trigger Combo(K, basis, c, n)} :: IsVector(K, c, |basis|) && Combo(K, basis, c, n) == y)
    && (forall c, d {:trigger Combo(K, basis, c, n), Combo(K, basis, d, n)} ::
          (IsVector(K, c, |basis|) && IsVector(K, d, |basis|) && Combo(K, basis, c, n) == Combo(K, basis, d, n)) ==>
            c == d)
  }

  predicate IsPivot(piv: seq<int>, row: nat, j: int)
    requires row <= |piv|
  {
    exists r :: 0 <= r < row && piv[r] == j
  }

  /** The null vector of a free column f: one at f, the negated column in the pivot places. */
  ghost predicate IsFreeVector<F(!new)>(K: Ring<F>, M: Matrix<F>, n: nat, row: nat, piv: seq<int>, f: nat, v: seq<F>)
    requires row <= |piv| && row <= |M| && (forall i :: 0 <= i < |M| ==> |M[i]| == n) && f < n
    requires forall r :: 0 <= r < row ==> 0 <= piv[r] < n
  {
    && IsVector(K, v, n) && v[f] == K.one
    && (forall r :: 0 <= r < row ==> v[piv[r]] == K.neg(M[r][f]))
    && (forall j :: 0 <= j < n && j != f && !IsPivot(piv, row, j) ==> v[j] == K.zero)
  }

  /** A finished elimination: no pivot is left to find. */
  ghost predicate Reduced<F(!new)>(K: Ring<F>, M: Matrix<F>, m: nat, n: nat, row: nat, piv: seq<int>) {
    && IsMatrix(K, M, m, n) && row <= m && |piv| == m && (forall i :: 0 <= i < m ==> |M[i]| == n)
    && (forall r :: 0 <= r < row ==> 0 <= piv[r] < n)
    && (forall r, s :: 0 <= r < s < row ==> piv[r] != piv[s])
    && (forall r, i :: 0 <= r < row && 0 <= i < m ==> M[i][piv[r]] == if i == r then K.one else K.zero)
    && (forall i, j :: row <= i < m && 0 <= j < n ==> M[i][j] == K.zero)
  }

  lemma EchelonReduced<F(!new)>(K: Ring<F>, M: Matrix<F>, m: nat, n: nat, row: nat, col: nat, piv: seq<int>)
    requires Echelon(K, M, m, n, row, col, piv) && (row == m || col == n)
    ensures Reduced(K, M, m, n, row, piv)
  {
    EchelonShape(K, M, m, n, row, col, piv);
  }

  lemma FreeVectorRow<F(!new)>(K: Ring<F>, M: Matrix<F>, m: nat, n: nat, row: nat, piv: seq<int>, f: nat,
                               v: seq<F>, r: nat)
    requires IsRing(K) && Reduced(K, M, m, n, row, piv) && f < n && !IsPivot(piv, row, f)
    requires IsFreeVector(K, M, n, row, piv, f, v) && r < row
    ensures Dot(K, M[r], v) == K.zero
  {
    assert IsVector(K, M[r], n);
    var w := v[f := K.zero];
    var p: nat := piv[r];
    assert IsPivot(piv, row, p) && p != f;
    forall j | 0 <= j < n && j != p ensures M[r][j] == K.zero || w[j] == K.zero {
      if IsPivot(piv, row, j) {
        var s :| 0 <= s < row && piv[s] == j;
        assert s != r;
      }
    }
    DotSingle(K, M[r], w, p);
    assert w[f := K.one] == v;
    DotUpdate(K, M[r], w, f, K.one);
    MulOne(K, M[r][f]);
    MulOne(K, K.neg(M[r][f]));
    AddNeg(K, M[r][f]);
  }

  lemma FreeVectorKernel<F(!new)>(K: Ring<F>, M: Matrix<F>, m: nat, n: nat, row: nat, piv: seq<int>, f: nat, v: seq<F>)
    requires IsRing(K) && Reduced(K, M, m, n, row, piv) && f < n && !IsPivot(piv, row, f)
    requires IsFreeVector(K, M, n, row, piv, f, v)
    ensures InKernel(K, M, v)
  {
    hide IsFreeVector;
    assert |v| == n by { VectorOf(K, M, n, row, piv, f, v); }
    VectorOf(K, M, n, row, piv, f, v);
    forall i: nat | i < m ensures Dot(K, M[i], v) == K.zero {
      if i < row {
        FreeVectorRow(K, M, m, n, row, piv, f, v, i);
      } else {
        assert IsVector(K, M[i], n);
        DotNone(K, M[i], v);
      }
    }
  }

  lemma VectorOf<F(!new)>(K: Ring<F>, M: Matrix<F>, n: nat, row: nat, piv: seq<int>, f: nat, v: seq<F>)
    requires row <= |piv| && row <= |M| && (forall i :: 0 <= i < |M| ==> |M[i]| == n) && f < n
    requires (forall r :: 0 <= r < row ==> 0 <= piv[r] < n) && IsFreeVector(K, M, n, row, piv, f, v)
    ensures IsVector(K, v, n)
  {}

  // a null vector that is zero in the free places is zero
  lemma NoFreePart<F(!new)>(K: Ring<F>, M: Matrix<F>, m: nat, n: nat, row: nat, piv: seq<int>, z: seq<F>)
    requires IsRing(K) && Reduced(K, M, m, n, row, piv) && IsVector(K, z, n) && InKernel(K, M, z)
    requires forall j :: 0 <= j < n && !IsPivot(piv, row, j) ==> z[j] == K.zero
    ensures z == Zeros(K, n)
  {
    forall j | 0 <= j < n ensures z[j] == K.zero {
      if IsPivot(piv, row, j) {
        var r :| 0 <= r < row && piv[r] == j;
        assert IsVector(K, M[r], n);
        forall k | 0 <= k < n && k != j ensures M[r][k] == K.zero || z[k] == K.zero {
          if IsPivot(piv, row, k) {
            var s :| 0 <= s < row && piv[s] == k;
            assert s != r;
          }
        }
        DotSingle(K, M[r], z, j);
        MulOne(K, z[j]);
      }
    }
  }

  /** The list of free columns, one vector for each. */
  ghost predicate FreeBasis<F(!new)>(K: Ring<F>, M: Matrix<F>, n: nat, row: nat, piv: seq<int>,
                                     upto: nat, frees: seq<nat>, basis: seq<seq<F>>)
    requires row <= |piv| && row <= |M| && (forall i :: 0 <= i < |M| ==> |M[i]| == n) && upto <= n
    requires forall r :: 0 <= r < row ==> 0 <= piv[r] < n
  {
    && |frees| == |basis|
    && (forall t :: 0 <= t < |frees| ==> frees[t] < upto && !IsPivot(piv, row, frees[t]))
    && (forall s, t :: 0 <= s < t < |frees| ==> frees[s] < frees[t])
    && (forall t :: 0 <= t < |frees| ==> IsFreeVector(K, M, n, row, piv, frees[t], basis[t]))
    && (forall j :: 0 <= j < upto && !IsPivot(piv, row, j) ==> j in frees)
  }

  lemma BasisAt<F(!new)>(K: Ring<F>, M: Matrix<F>, m: nat, n: nat, row: nat, piv: seq<int>,
                         frees: seq<nat>, basis: seq<seq<F>>, c: seq<F>, t: nat)
    requires IsRing(K) && Reduced(K, M, m, n, row, piv) && FreeBasis(K, M, n, row, piv, n, frees, basis)
    requires IsVector(K, c, |basis|) && t < |basis| && AreVectors(K, basis, n)
    ensures Combo(K, basis, c, n)[frees[t]] == c[t]
  {
    forall s | 0 <= s < |basis| ensures basis[s][frees[t]] == if s == t then K.one else K.zero {
      assert IsFreeVector(K, M, n, row, piv, frees[s], basis[s]);
      if s != t { assert frees[s] != frees[t]; }
    }
    ComboAt(K, basis, c, n, frees[t], t);
  }

  lemma FreeVectors<F(!new)>(K: Ring<F>, M: Matrix<F>, m: nat, n: nat, row: nat, piv: seq<int>,
                             frees: seq<nat>, basis: seq<seq<F>>)
    requires IsRing(K) && Reduced(K, M, m, n, row, piv) && FreeBasis(K, M, n, row, piv, n, frees, basis)
    ensures AreVectors(K, basis, n) && forall t :: 0 <= t < |basis| ==> InKernel(K, M, basis[t])
  {
    forall t | 0 <= t < |basis| ensures IsVector(K, basis[t], n) && InKernel(K, M, basis[t]) {
      assert IsFreeVector(K, M, n, row, piv, frees[t], basis[t]);
      FreeVectorKernel(K, M, m, n, row, piv, frees[t], basis[t]);
    }
  }

  // a null vector is the combination of the basis by its own entries in the free places
  lemma Spanned<F(!new)>(K: Ring<F>, M: Matrix<F>, m: nat, n: nat, row: nat, piv: seq<int>,
                         frees: seq<nat>, basis: seq<seq<F>>, y: seq<F>) returns (c: seq<F>)
    requires IsRing(K) && Reduced(K, M, m, n, row, piv) && FreeBasis(K, M, n, row, piv, n, frees, basis)
    requires IsVector(K, y, n) && InKernel(K, M, y)
    ensures IsVector(K, c, |basis|) && AreVectors(K, basis, n) && Combo(K, basis, c, n) == y
  {
    hide InKernel, Dot;
    FreeVectors(K, M, m, n, row, piv, frees, basis);
    c := seq(|frees|, t requires 0 <= t < |frees| => y[frees[t]]);
    var v := Combo(K, basis, c, n);
    ComboHas(K, basis, c, n);
    ComboKernel(K, M, m, n, basis, c);
    var minus := K.neg(K.one);
    var z := VAdd(K, y, VScale(K, minus, v));
    KernelScale(K, M, m, n, minus, v);
    KernelAdd(K, M, m, n, y, VScale(K, minus, v));
    forall j | 0 <= j < n ensures z[j] == Sub(K, y[j], v[j]) {
      MulNeg(K, K.one, v[j]);
      MulOne(K, v[j]);
    }
    forall j | 0 <= j < n && !IsPivot(piv, row, j) ensures z[j] == K.zero {
      var t :| 0 <= t < |frees| && frees[t] == j;
      BasisAt(K, M, m, n, row, piv, frees, basis, c, t);
      AddNeg(K, y[j]);
    }
    NoFreePart(K, M, m, n, row, piv, z);
    forall j | 0 <= j < n ensures v[j] == y[j] { SubSelf(K, y[j], v[j]); }
  }

  lemma FreeBasisIsBasis<F(!new)>(K: Ring<F>, M: Matrix<F>, m: nat, n: nat, row: nat, piv: seq<int>,
                                  frees: seq<nat>, basis: seq<seq<F>>)
    requires IsRing(K) && Reduced(K, M, m, n, row, piv) && FreeBasis(K, M, n, row, piv, n, frees, basis)
    ensures IsBasis(K, M, n, basis)
  {
    hide InKernel, Combo, FreeBasis, Reduced;
    FreeVectors(K, M, m, n, row, piv, frees, basis);
    forall y | IsVector(K, y, n) && InKernel(K, M, y)
      ensures exists c {:trigger Combo(K, basis, c, n)} :: IsVector(K, c, |basis|) && Combo(K, basis, c, n) == y
    {
      var c := Spanned(K, M, m, n, row, piv, frees, basis, y);
    }
    forall c, d {:trigger Combo(K, basis, c, n), Combo(K, basis, d, n)} |
      IsVector(K, c, |basis|) && IsVector(K, d, |basis|) && Combo(K, basis, c, n) == Combo(K, basis, d, n)
      ensures c == d
    {
      Independent(K, M, m, n, row, piv, frees, basis, c, d);
    }
  }

  lemma Independent<F(!new)>(K: Ring<F>, M: Matrix<F>, m: nat, n: nat, row: nat, piv: seq<int>,
                             frees: seq<nat>, basis: seq<seq<F>>, c: seq<F>, d: seq<F>)
    requires IsRing(K) && Reduced(K, M, m, n, row, piv) && FreeBasis(K, M, n, row, piv, n, frees, basis)
    requires AreVectors(K, basis, n) && IsVector(K, c, |basis|) && IsVector(K, d, |basis|)
    requires Combo(K, basis, c, n) == Combo(K, basis, d, n)
    ensures c == d
  {
    forall t | 0 <= t < |basis| ensures c[t] == d[t] {
      BasisAt(K, M, m, n, row, piv, frees, basis, c, t);
      BasisAt(K, M, m, n, row, piv, frees, basis, d, t);
    }
  }

  // ----- the count -----

  ghost function PivotSet(piv: seq<int>, row: nat): set<int>
    requires row <= |piv|
  {
    set r | 0 <= r < row :: piv[r]
  }

  lemma {:induction false} PivotCount(piv: seq<int>, row: nat)
    requires row <= |piv| && forall r, s :: 0 <= r < s < row ==> piv[r] != piv[s]
    ensures |PivotSet(piv, row)| == row
  {
    if row > 0 {
      PivotCount(piv, row - 1);
      assert PivotSet(piv, row) == PivotSet(piv, row - 1) + {piv[row - 1]};
      assert piv[row - 1] !in PivotSet(piv, row - 1);
    }
  }

  ghost function Below(n: nat): (s: set<int>)
    ensures |s| == n && forall j :: j in s <==> 0 <= j < n
  {
    if n == 0 then {} else Below(n - 1) + {n - 1}
  }

  ghost function Listed(frees: seq<nat>): (s: set<int>)
    requires forall s, t :: 0 <= s < t < |frees| ==> frees[s] < frees[t]
    ensures |s| == |frees| && forall j: nat :: j in s <==> j in frees
    ensures forall j :: j in s ==> 0 <= j
  {
    if frees == [] then {}
    else
      var (rest, top) := (frees[..|frees| - 1], frees[|frees| - 1]);
      assert frees == rest + [top];
      Listed(rest) + {top}
  }

  lemma CountColumns(piv: seq<int>, row: nat, n: nat, frees: seq<nat>)
    requires row <= |piv| && (forall r :: 0 <= r < row ==> 0 <= piv[r] < n)
    requires forall r, s :: 0 <= r < s < row ==> piv[r] != piv[s]
    requires forall s, t :: 0 <= s < t < |frees| ==> frees[s] < frees[t]
    requires forall t :: 0 <= t < |frees| ==> frees[t] < n && !IsPivot(piv, row, frees[t])
    requires forall j :: 0 <= j < n && !IsPivot(piv, row, j) ==> j in frees
    ensures |frees| == n - row
  {
    var (P, L) := (PivotSet(piv, row), Listed(frees));
    PivotCount(piv, row);
    forall j ensures j in P <==> IsPivot(piv, row, j) {}
    forall j: int | 0 <= j < n ensures j in P + L {
      if !IsPivot(piv, row, j) { assert (j as nat) in frees; }
    }
    forall j | j in P + L ensures 0 <= j < n && !(j in P && j in L) { PivotOrFree(piv, row, n, frees, j); }
    assert P + L == Below(n);
    assert |P + L| == |P| + |L|;
  }

  lemma PivotOrFree(piv: seq<int>, row: nat, n: nat, frees: seq<nat>, j: int)
    requires row <= |piv| && (forall r :: 0 <= r < row ==> 0 <= piv[r] < n)
    requires forall s, t :: 0 <= s < t < |frees| ==> frees[s] < frees[t]
    requires forall t :: 0 <= t < |frees| ==> frees[t] < n && !IsPivot(piv, row, frees[t])
    requires IsPivot(piv, row, j) || j in Listed(frees)
    ensures 0 <= j < n && !(IsPivot(piv, row, j) && j in Listed(frees))
  {
    if j in Listed(frees) {
      var t :| 0 <= t < |frees| && frees[t] == j as nat;
    }
  }

  /** As many null vectors as columns without a pivot: n minus the rank. */
  lemma FreeCount<F(!new)>(K: Ring<F>, M: Matrix<F>, m: nat, n: nat, row: nat, piv: seq<int>,
                           frees: seq<nat>, basis: seq<seq<F>>)
    requires Reduced(K, M, m, n, row, piv) && FreeBasis(K, M, n, row, piv, n, frees, basis)
    ensures |basis| == n - row
  {
    hide IsFreeVector, IsPivot;
    CountColumns(piv, row, n, frees);
  }
}
