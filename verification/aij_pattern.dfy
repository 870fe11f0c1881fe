/**
 * The nonzero structure of an LU factor in AIJ storage, and what makes it the
 * structure of the factor of a given matrix.  Row `k` of the factor holds the
 * columns of L strictly left of the diagonal (positions `rowPtr[k] ..
 * diag[k]-1`) followed by the columns of U from the diagonal on (positions
 * `diag[k] .. rowPtr[k+1]-1`).  A pattern under construction has as many rows
 * as `diag` has entries.
 */
module AijPattern {
  import opened AijMatrix
  import opened FillList
  import opened Permutations

  datatype Pattern = Pattern(rowPtr: seq<int>, cols: seq<int>, diag: seq<int>)

  /** Row pointers and diagonal pointers are consistent with the column array. */
  predicate Shaped(P: Pattern) {
    && |P.rowPtr| == |P.diag| + 1
    && P.rowPtr[0] == 0
    && (forall a, b :: 0 <= a <= b <= |P.diag| ==> P.rowPtr[a] <= P.rowPtr[b])
    && P.rowPtr[|P.diag|] == |P.cols|
    && (forall k :: 0 <= k < |P.diag| ==> P.rowPtr[k] <= P.diag[k] <= P.rowPtr[k + 1])
  }

  /** The columns of factor row `k`. */
  function Row(P: Pattern, k: int): seq<int>
    requires Shaped(P) && 0 <= k < |P.diag|
  {
    P.cols[P.rowPtr[k]..P.rowPtr[k + 1]]
  }

  /** The columns of row `k` stored in L. */
  function Lower(P: Pattern, k: int): seq<int>
    requires Shaped(P) && 0 <= k < |P.diag|
  {
    assert P.rowPtr[k + 1] <= P.rowPtr[|P.diag|];
    P.cols[P.rowPtr[k]..P.diag[k]]
  }

  /** The columns of row `k` stored in U, from the diagonal pointer on. */
  function Upper(P: Pattern, k: int): seq<int>
    requires Shaped(P) && 0 <= k < |P.diag|
  {
    assert P.rowPtr[k + 1] <= P.rowPtr[|P.diag|];
    P.cols[P.diag[k]..P.rowPtr[k + 1]]
  }

  /** Row `k` is increasing, in range, and split by `diag[k]` at column `k`. */
  predicate RowSorted(P: Pattern, n: nat, k: int)
    requires Shaped(P) && 0 <= k < |P.diag|
  {
    && Increasing(Row(P, k))
    && (forall x :: x in Row(P, k) ==> 0 <= x < n)
    && (forall x :: x in Lower(P, k) ==> x < k)
    && (forall x :: x in Upper(P, k) ==> k <= x)
  }

  /** Column `x` of permuted row `i` of `A` is stored: `x = ic[col]` for a stored `col` of row `r[i]`. */
  predicate IsOriginal(A: Csr, r: seq<int>, ic: seq<int>, i: int, x: int)
    requires WellFormed(A) && IsPermutation(r, A.m) && IsPermutation(ic, A.n) && 0 <= i < A.m
  {
    exists p :: A.rowPtr[r[i]] <= p < A.rowPtr[r[i] + 1] && ic[A.cols[p]] == x
  }

  /**
   * Row `k` is the symbolic row of Gaussian elimination: it holds the permuted
   * row of `A`, it is closed under the fill of every earlier row it touches
   * (the U part of row `j` for each `j < k` in it), and it holds nothing else:
   * a column not in `A` is brought in by a row `j` left of it, so no column
   * can account for itself.
   */
  predicate RowFilled(P: Pattern, A: Csr, r: seq<int>, ic: seq<int>, k: int)
    requires Shaped(P) && 0 <= k < |P.diag|
    requires WellFormed(A) && IsPermutation(r, A.m) && IsPermutation(ic, A.n) && k < A.m
  {
    && (forall p :: A.rowPtr[r[k]] <= p < A.rowPtr[r[k] + 1] ==> ic[A.cols[p]] in Row(P, k))
    && (forall j :: 0 <= j < k && j in Row(P, k) ==> forall x :: x in Upper(P, j) ==> x in Row(P, k))
    && (forall x :: x in Row(P, k) ==> IsOriginal(A, r, ic, k, x) || exists j :: 0 <= j < k && j < x && j in Row(P, k) && x in Upper(P, j))
  }

  /** Every row of `P` is the sorted symbolic row of the permuted `A`, with `ic` the inverse column permutation. */
  predicate FactorPattern(P: Pattern, A: Csr, r: seq<int>, ic: seq<int>)
  {
    && Shaped(P)
    && WellFormed(A) && A.m == A.n && IsPermutation(r, A.m) && IsPermutation(ic, A.n)
    && |P.diag| <= A.n
    && (forall k :: 0 <= k < |P.diag| ==> RowSorted(P, A.n, k) && RowFilled(P, A, r, ic, k))
  }

  /** The identity of order 2, in compressed-row storage. */
  function Identity2(): Csr {
    Csr(2, 2, [0, 1, 2], [0, 1], [1.0, 1.0])
  }

  /** The identity of order 2 produces no fill: a second row that also stores column 0 is not its symbolic factor. */
  lemma IdentityHasNoFill()
    ensures !FactorPattern(Pattern([0, 1, 3], [0, 0, 1], [0, 2]), Identity2(), [0, 1], [0, 1])
  {
    var A, r := Identity2(), [0, 1];
    var filled := Pattern([0, 1, 3], [0, 0, 1], [0, 2]);
    assert Shaped(filled) && WellFormed(A) && IsPermutation(r, 2);
    assert Row(filled, 1) == [0, 1];
    assert !IsOriginal(A, r, r, 1, 0);
    assert !RowFilled(filled, A, r, r, 1);
  }

  /** The pattern with one more row, holding `L` with its first `nzi` columns in L. */
  function AppendRow(P: Pattern, L: seq<int>, nzi: int): (P': Pattern)
    requires Shaped(P)
    requires 0 <= nzi <= |L|
    ensures Shaped(P') && |P'.diag| == |P.diag| + 1
    ensures forall k :: 0 <= k < |P.diag| ==> Row(P', k) == Row(P, k) && Upper(P', k) == Upper(P, k) && Lower(P', k) == Lower(P, k)
    ensures Row(P', |P.diag|) == L && Lower(P', |P.diag|) == L[..nzi] && Upper(P', |P.diag|) == L[nzi..]
  {
    var i := |P.diag|;
    var P' := Pattern(P.rowPtr + [P.rowPtr[i] + |L|], P.cols + L, P.diag + [P.rowPtr[i] + nzi]);
    AppendedShaped(P, L, nzi, P');
    AppendedRows(P, L, nzi, P');
    P'
  }

  lemma AppendedShaped(P: Pattern, L: seq<int>, nzi: int, P': Pattern)
    requires Shaped(P) && 0 <= nzi <= |L|
    requires P' == Pattern(P.rowPtr + [P.rowPtr[|P.diag|] + |L|], P.cols + L, P.diag + [P.rowPtr[|P.diag|] + nzi])
    ensures Shaped(P') && |P'.diag| == |P.diag| + 1
  {
    var i := |P.diag|;
    assert forall k :: 0 <= k <= i ==> P'.rowPtr[k] == P.rowPtr[k];
    assert forall k :: 0 <= k < i ==> P'.diag[k] == P.diag[k];
  }

  lemma AppendedRows(P: Pattern, L: seq<int>, nzi: int, P': Pattern)
    requires Shaped(P) && 0 <= nzi <= |L|
    requires P' == Pattern(P.rowPtr + [P.rowPtr[|P.diag|] + |L|], P.cols + L, P.diag + [P.rowPtr[|P.diag|] + nzi])
    requires Shaped(P') && |P'.diag| == |P.diag| + 1
    ensures forall k :: 0 <= k < |P.diag| ==> Row(P', k) == Row(P, k) && Upper(P', k) == Upper(P, k) && Lower(P', k) == Lower(P, k)
    ensures Row(P', |P.diag|) == L && Lower(P', |P.diag|) == L[..nzi] && Upper(P', |P.diag|) == L[nzi..]
  {
    var i := |P.diag|;
    forall k | 0 <= k < i
      ensures Row(P', k) == Row(P, k) && Upper(P', k) == Upper(P, k) && Lower(P', k) == Lower(P, k)
    {
      assert P'.rowPtr[k] == P.rowPtr[k] && P'.rowPtr[k + 1] == P.rowPtr[k + 1] && P'.diag[k] == P.diag[k];
      assert P.rowPtr[k + 1] <= P.rowPtr[i];
      assert P'.cols[..|P.cols|] == P.cols;
    }
    assert P'.cols[P.rowPtr[i]..] == L;
  }
}
