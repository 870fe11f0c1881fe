/**
 * Symbolic LU factorisation of a square AIJ matrix (`MatiAIJLUFactorSymbolic`,
 * aijfact.c).  Row by row, the sparsity of row `r[i]` of the matrix, with its
 * columns renumbered by the inverse column permutation, is loaded into the
 * sorted linked list `fill`; the U part of every earlier factor row whose
 * index is on the list is merged in; the list is then appended to the
 * factor's column array, growing the array when the estimate is exceeded.
 */
module AijSymbolic {
  import opened Results
  import opened AijMatrix
  import opened FillList
  import opened Permutations
  import opened AijPattern

  datatype SymbolicError = NotSquare | NoRowPermutation | NoColumnPermutation

  /** The symbolic factor: its pattern, the length of the column array that holds it, and the permutations it was built with. */
  datatype Symbolic = Symbolic(pattern: Pattern, capacity: int, row: seq<int>, col: seq<int>)

  /** The first estimate `aijfact.c` makes of the column array length: twice the 1-origin `ai[n]`. */
  function InitialCapacity(A: Csr): int
    requires WellFormed(A)
  {
    2 * (A.rowPtr[A.m] + 1)
  }

  /** Distinct columns of one row stay distinct when renumbered by a permutation. */
  lemma RenumberedDistinct(A: Csr, ic: seq<int>, row: int, q: int, p: int)
    requires WellFormed(A) && DistinctColumns(A) && IsPermutation(ic, A.n)
    requires 0 <= row < A.m && A.rowPtr[row] <= q < p < A.rowPtr[row + 1]
    ensures ic[A.cols[q]] != ic[A.cols[p]]
  {
    assert A.rowPtr[row + 1] <= A.rowPtr[A.m];
    assert A.cols[q] != A.cols[p];
    if A.cols[q] < A.cols[p] {
      assert ic[A.cols[q]] != ic[A.cols[p]];
    } else {
      assert ic[A.cols[p]] != ic[A.cols[q]];
    }
  }

  /** Inserts a column known not to be on the list (lines 42-49). */
  method InsertColumn(fill0: seq<int>, n: nat, ghost L0: seq<int>, idx: int) returns (fill: seq<int>, ghost L: seq<int>)
    requires ListRep(fill0, n, L0) && 0 <= idx < n && idx !in L0
    ensures ListRep(fill, n, L) && |L| == |L0| + 1
    ensures forall x :: x in L <==> x in L0 || x == idx
  {
    var m, fm, t := Locate(fill0, n, L0, idx);
    SpliceInserts(fill0, n, L0, idx, m, fm, t);
    fill := Splice(fill0, n, m, fm, idx);
    L := InsertAt(L0, t, idx);
  }

  /** The renumbered columns stored at positions `lo .. p-1` of `A`. */
  ghost function Renumbered(A: Csr, ic: seq<int>, lo: int, p: int): seq<int>
    requires WellFormed(A) && IsPermutation(ic, A.n) && 0 <= lo <= p <= |A.cols|
  {
    seq(p - lo, k requires 0 <= k < p - lo => ic[A.cols[lo + k]])
  }

  /** The next renumbered column of a row is new, and extends the renumbered prefix. */
  lemma RenumberedNext(A: Csr, ic: seq<int>, row: int, p: int)
    requires WellFormed(A) && DistinctColumns(A) && IsPermutation(ic, A.n)
    requires 0 <= row < A.m && A.rowPtr[row] <= p < A.rowPtr[row + 1]
    ensures A.rowPtr[row + 1] <= |A.cols| && 0 <= ic[A.cols[p]] < A.n
    ensures ic[A.cols[p]] !in Renumbered(A, ic, A.rowPtr[row], p)
    ensures Renumbered(A, ic, A.rowPtr[row], p + 1) == Renumbered(A, ic, A.rowPtr[row], p) + [ic[A.cols[p]]]
  {
    var lo := A.rowPtr[row];
    assert A.rowPtr[row + 1] <= A.rowPtr[A.m];
    forall q | lo <= q < p
      ensures ic[A.cols[q]] != ic[A.cols[p]]
    {
      RenumberedDistinct(A, ic, row, q, p);
    }
    assert Renumbered(A, ic, lo, p + 1) == Renumbered(A, ic, lo, p) + [ic[A.cols[p]]];
  }

  /** The renumbered row `r[i]` holds exactly the columns `IsOriginal` names. */
  lemma RenumberedRow(A: Csr, r: seq<int>, ic: seq<int>, i: int)
    requires WellFormed(A) && IsPermutation(r, A.m) && IsPermutation(ic, A.n) && 0 <= i < A.m
    ensures A.rowPtr[r[i]] <= A.rowPtr[r[i] + 1] <= |A.cols|
    ensures forall x :: x in Renumbered(A, ic, A.rowPtr[r[i]], A.rowPtr[r[i] + 1]) <==> IsOriginal(A, r, ic, i, x)
  {
    var lo, hi := A.rowPtr[r[i]], A.rowPtr[r[i] + 1];
    assert hi <= A.rowPtr[A.m];
    var R := Renumbered(A, ic, lo, hi);
    forall x
      ensures x in R <==> IsOriginal(A, r, ic, i, x)
    {
      if x in R {
        var k :| 0 <= k < hi - lo && R[k] == x;
        assert ic[A.cols[lo + k]] == x;
      }
      if IsOriginal(A, r, ic, i, x) {
        var q :| lo <= q < hi && ic[A.cols[q]] == x;
        assert R[q - lo] == x;
      }
    }
  }

  /**
   * Loads the permuted row `r[i]` of `A` into an empty list (lines 38-50):
   * the list ends up holding exactly the renumbered columns of that row.
   */
  method LoadRow(A: Csr, r: seq<int>, ic: seq<int>, i: int, fill0: seq<int>) returns (fill: seq<int>, nnz: int, ghost L: seq<int>)
    requires WellFormed(A) && A.m == A.n && DistinctColumns(A)
    requires IsPermutation(r, A.n) && IsPermutation(ic, A.n)
    requires 0 <= i < A.n && |fill0| == A.n + 1
    ensures ListRep(fill, A.n, L) && nnz == |L|
    ensures forall x :: x in L <==> IsOriginal(A, r, ic, i, x)
  {
    var n := A.n;
    var lo, hi := A.rowPtr[r[i]], A.rowPtr[r[i] + 1];
    assert hi <= A.rowPtr[A.m];
    nnz := hi - lo;
    fill := fill0[n := n];
    L := [];
    var p := lo;
    while p < hi
      invariant lo <= p <= hi
      invariant ListRep(fill, n, L) && |L| == p - lo
      invariant forall x :: x in L <==> x in Renumbered(A, ic, lo, p)
    {
      var idx := ic[A.cols[p]];
      RenumberedNext(A, ic, r[i], p);
      fill, L := InsertColumn(fill, n, L, idx);
      p := p + 1;
    }
    assert p == hi;
    RenumberedRow(A, r, ic, i);
  }

  /**
   * One step of the merge (lines 57-68): inserts `idx` unless the walk finds
   * it already on the list.  Positions up to `tr`, which hold columns not
   * above `idx`, are left in place.
   */
  method MergeColumn(fill0: seq<int>, n: nat, nnz0: int, ghost L0: seq<int>, idx: int, ghost tr: int)
    returns (fill: seq<int>, nnz: int, ghost L: seq<int>)
    requires ListRep(fill0, n, L0) && nnz0 == |L0|
    requires 0 <= tr < |L0| && L0[tr] <= idx < n
    ensures ListRep(fill, n, L) && nnz == |L|
    ensures tr < |L| && L[..tr + 1] == L0[..tr + 1]
    ensures forall x :: x in L <==> x in L0 || x == idx
  {
    fill, nnz, L := fill0, nnz0, L0;
    var m, fm, t := Locate(fill, n, L, idx);
    if fm != idx {
      SpliceInserts(fill, n, L, idx, m, fm, t);
      InsertKeepsPrefix(L, t, idx, tr);
      fill := Splice(fill, n, m, fm, idx);
      L := InsertAt(L, t, idx);
      nnz := nnz + 1;
    }
  }

  /** The U part of a sorted row `row` holds columns `row .. n-1`. */
  lemma UpperBounds(P: Pattern, n: nat, row: int)
    requires Shaped(P) && 0 <= row < |P.diag| && RowSorted(P, n, row)
    ensures forall x :: x in Upper(P, row) ==> row <= x < n
  {
    forall x | x in Upper(P, row)
      ensures x in Row(P, row)
    {
      var k :| 0 <= k < |Upper(P, row)| && Upper(P, row)[k] == x;
      assert P.rowPtr[row + 1] <= P.rowPtr[|P.diag|];
      assert Row(P, row)[P.diag[row] - P.rowPtr[row] + k] == x;
    }
  }

  /**
   * Merges the U part of factor row `row`, which sits at position `tr` of the
   * list, into the list (lines 53-69); columns already present are skipped.
   */
  method MergeRow(P: Pattern, n: nat, row: int, ghost tr: int, fill0: seq<int>, nnz0: int, ghost L0: seq<int>)
    returns (fill: seq<int>, nnz: int, ghost L: seq<int>)
    requires Shaped(P) && 0 <= row < |P.diag| && RowSorted(P, n, row)
    requires ListRep(fill0, n, L0) && nnz0 == |L0|
    requires 0 <= tr < |L0| && L0[tr] == row
    ensures ListRep(fill, n, L) && nnz == |L|
    ensures tr < |L| && L[..tr + 1] == L0[..tr + 1]
    ensures forall x :: x in L0 ==> x in L
    ensures forall x :: x in L ==> x in L0 || x in Upper(P, row)
    ensures forall x :: x in Upper(P, row) ==> x in L
    ensures forall x :: x in L && x !in L0 ==> row < x
  {
    fill, nnz, L := fill0, nnz0, L0;
    var U := Upper(P, row);
    UpperBounds(P, n, row);
    var q := 0;
    while q < |U|
      invariant 0 <= q <= |U|
      invariant ListRep(fill, n, L) && nnz == |L|
      invariant tr < |L| && L[..tr + 1] == L0[..tr + 1]
      invariant forall x :: x in L0 ==> x in L
      invariant forall x :: x in L ==> x in L0 || x in U[..q]
      invariant forall x :: x in U[..q] ==> x in L
    {
      var idx := U[q];
      assert idx in U;
      assert L[tr] == L0[..tr + 1][tr];
      fill, nnz, L := MergeColumn(fill, n, nnz, L, idx, tr);
      assert U[..q + 1] == U[..q] + [idx];
      q := q + 1;
    }
    assert U[..q] == U;
    assert row in L0 by {
      assert L0[tr] == row;
    }
  }

  /**
   * The state of the merge after the first `tr` list entries, all rows
   * below `i`, have been visited: their U parts are on the list, and
   * everything on it came from the loaded row or from such a U part.
   */
  ghost predicate Merged(P: Pattern, i: int, L0: seq<int>, L: seq<int>, tr: int)
    requires Shaped(P) && |P.diag| == i
  {
    && 0 <= tr <= |L|
    && (forall k :: 0 <= k < tr ==> 0 <= L[k] < i)
    && (forall x :: x in L0 ==> x in L)
    && (forall k :: 0 <= k < tr ==> forall x :: x in Upper(P, L[k]) ==> x in L)
    && (forall x :: x in L ==> x in L0 || exists k :: 0 <= k < tr && L[k] < x && x in Upper(P, L[k]))
  }

  /** Visiting the next row keeps the merge state. */
  lemma MergeStep(P: Pattern, i: int, L0: seq<int>, Lb: seq<int>, L: seq<int>, tr: int)
    requires Shaped(P) && |P.diag| == i
    requires Merged(P, i, L0, Lb, tr) && tr < |Lb| && 0 <= Lb[tr] < i
    requires tr < |L| && L[..tr + 1] == Lb[..tr + 1]
    requires forall x :: x in Lb ==> x in L
    requires forall x :: x in L ==> x in Lb || x in Upper(P, Lb[tr])
    requires forall x :: x in Upper(P, Lb[tr]) ==> x in L
    requires forall x :: x in L && x !in Lb ==> Lb[tr] < x
    ensures Merged(P, i, L0, L, tr + 1)
  {
    forall k | 0 <= k <= tr
      ensures L[k] == Lb[k]
    {
      assert L[..tr + 1][k] == Lb[..tr + 1][k];
    }
    forall x | x in L && x !in L0
      ensures exists k :: 0 <= k < tr + 1 && L[k] < x && x in Upper(P, L[k])
    {
      if x !in Lb {
        assert L[tr] < x && x in Upper(P, L[tr]);
      } else {
        var k :| 0 <= k < tr && Lb[k] < x && x in Upper(P, Lb[k]);
        assert L[k] < x && x in Upper(P, L[k]);
      }
    }
  }

  /** Once the walk reaches a row not below `i`, every list entry below `i` has been visited. */
  lemma MergeDone(P: Pattern, i: int, L0: seq<int>, L: seq<int>, tr: int)
    requires Shaped(P) && |P.diag| == i
    requires Merged(P, i, L0, L, tr) && Increasing(L)
    requires tr == |L| || i <= L[tr]
    ensures forall j :: 0 <= j < i && j in L ==> forall x :: x in Upper(P, j) ==> x in L
    ensures forall x :: x in L ==> x in L0 || exists j :: 0 <= j < i && j < x && j in L && x in Upper(P, j)
  {
    forall j | 0 <= j < i && j in L
      ensures forall x :: x in Upper(P, j) ==> x in L
    {
      var k :| 0 <= k < |L| && L[k] == j;
    }
    forall x | x in L && x !in L0
      ensures exists j :: 0 <= j < i && j < x && j in L && x in Upper(P, j)
    {
      var k :| 0 <= k < tr && L[k] < x && x in Upper(P, L[k]);
      assert L[k] in L;
    }
  }

  /**
   * Merges into the list the U part of every earlier factor row on it
   * (lines 51-71).  Rows are visited in increasing order, so a row added by a
   * merge is itself visited later.
   */
  method MergeFill(P: Pattern, n: nat, i: int, fill0: seq<int>, nnz0: int, ghost L0: seq<int>)
    returns (fill: seq<int>, nnz: int, ghost L: seq<int>)
    requires Shaped(P) && |P.diag| == i && 0 <= i < n
    requires forall k :: 0 <= k < i ==> RowSorted(P, n, k)
    requires ListRep(fill0, n, L0) && nnz0 == |L0|
    ensures ListRep(fill, n, L) && nnz == |L|
    ensures forall x :: x in L0 ==> x in L
    ensures forall j :: 0 <= j < i && j in L ==> forall x :: x in Upper(P, j) ==> x in L
    ensures forall x :: x in L ==> x in L0 || exists j :: 0 <= j < i && j < x && j in L && x in Upper(P, j)
  {
    fill, nnz, L := fill0, nnz0, L0;
    var row := fill[n];
    ghost var tr := 0;
    while row < i
      invariant ListRep(fill, n, L) && nnz == |L|
      invariant Merged(P, i, L0, L, tr)
      invariant row == NextOf(L, n, tr - 1)
      decreases n - row
    {
      ghost var Lb := L;
      assert tr < |L| && L[tr] == row;
      assert RowSorted(P, n, row);
      fill, nnz, L := MergeRow(P, n, row, tr, fill, nnz, L);
      MergeStep(P, i, L0, Lb, L, tr);
      assert L[tr] == row by {
        assert L[..tr + 1][tr] == Lb[..tr + 1][tr];
      }
      Successor(fill, n, L, tr);
      row := fill[row];
      tr := tr + 1;
    }
    MergeDone(P, i, L0, L, tr);
  }

  /** An increasing list splits into the entries below `i` and the rest. */
  lemma SplitBelow(L: seq<int>, i: int) returns (s: int)
    requires Increasing(L)
    ensures 0 <= s <= |L|
    ensures forall k :: 0 <= k < s ==> L[k] < i
    ensures forall k :: s <= k < |L| ==> i <= L[k]
  {
    s := 0;
    while s < |L| && L[s] < i
      invariant 0 <= s <= |L|
      invariant forall k :: 0 <= k < s ==> L[k] < i
    {
      s := s + 1;
    }
    forall k | s <= k < |L|
      ensures i <= L[k]
    {
      assert s == k || L[s] < L[k];
    }
  }

  /**
   * Copies the list into the column array from position `start` on (lines
   * 82-89); `nzi` counts the columns left of the diagonal.
   */
  method WriteRow(ajnew0: seq<int>, start: int, fill: seq<int>, n: nat, i: int, nnz: int, ghost L: seq<int>)
    returns (ajnew: seq<int>, nzi: int)
    requires ListRep(fill, n, L) && nnz == |L|
    requires 0 <= start && start + nnz <= |ajnew0|
    ensures |ajnew| == |ajnew0|
    ensures ajnew[..start] == ajnew0[..start]
    ensures ajnew[start..start + nnz] == L
    ensures 0 <= nzi <= nnz
    ensures forall k :: 0 <= k < nzi ==> L[k] < i
    ensures forall k :: nzi <= k < nnz ==> i <= L[k]
  {
    ghost var s := SplitBelow(L, i);
    ajnew, nzi := CopyList(ajnew0, start, fill, n, i, nnz, L, s);
  }

  /** The walk of `WriteRow`, over a list whose first `s` entries are the ones below `i`. */
  method CopyList(ajnew0: seq<int>, start: int, fill: seq<int>, n: nat, i: int, nnz: int, ghost L: seq<int>, ghost s: int)
    returns (ajnew: seq<int>, nzi: int)
    requires nnz == |L| && |fill| == n + 1 && fill[n] == NextOf(L, n, -1)
    requires forall k :: 0 <= k < |L| ==> 0 <= L[k] < n && fill[L[k]] == NextOf(L, n, k)
    requires 0 <= start && start + |L| <= |ajnew0|
    requires 0 <= s <= |L|
    requires forall k :: 0 <= k < s ==> L[k] < i
    requires forall k :: s <= k < |L| ==> i <= L[k]
    ensures |ajnew| == |ajnew0|
    ensures ajnew[..start] == ajnew0[..start]
    ensures ajnew[start..start + |L|] == L
    ensures nzi == s
  {
    ajnew := ajnew0;
    var fm := fill[n];
    nzi := 0;
    var t := 0;
    while t < nnz
      invariant 0 <= t <= nnz && nzi == if t < s then t else s
      invariant |ajnew| == |ajnew0|
      invariant fm == NextOf(L, n, t - 1)
      invariant forall q :: 0 <= q < start ==> ajnew[q] == ajnew0[q]
      invariant forall k :: 0 <= k < t ==> ajnew[start + k] == L[k]
    {
      if fm < i {
        nzi := nzi + 1;
      }
      ajnew := ajnew[start + t := fm];
      fm := fill[fm];
      t := t + 1;
    }
    assert ajnew[start..start + |L|] == L;
  }

  /**
   * `L` is what factor row `i = |P.diag|` must hold: increasing columns in
   * range, the permuted row of `A`, closed under the fill of the earlier rows
   * on it, and nothing else.
   */
  ghost predicate Candidate(P: Pattern, A: Csr, r: seq<int>, ic: seq<int>, L: seq<int>)
    requires Shaped(P) && WellFormed(A) && IsPermutation(r, A.m) && IsPermutation(ic, A.n) && |P.diag| < A.m
  {
    var i := |P.diag|;
    && Increasing(L) && (forall k :: 0 <= k < |L| ==> 0 <= L[k] < A.n)
    && (forall x :: IsOriginal(A, r, ic, i, x) ==> x in L)
    && (forall j :: 0 <= j < i && j in L ==> forall x :: x in Upper(P, j) ==> x in L)
    && (forall x :: x in L ==> IsOriginal(A, r, ic, i, x) || exists j :: 0 <= j < i && j < x && j in L && x in Upper(P, j))
  }

  /** Loading then merging produces the candidate row. */
  lemma LoadedAndMerged(P: Pattern, A: Csr, r: seq<int>, ic: seq<int>, fill: seq<int>, L1: seq<int>, L: seq<int>)
    requires Shaped(P) && WellFormed(A) && IsPermutation(r, A.m) && IsPermutation(ic, A.n) && |P.diag| < A.m
    requires ListRep(fill, A.n, L)
    requires forall x :: x in L1 <==> IsOriginal(A, r, ic, |P.diag|, x)
    requires forall x :: x in L1 ==> x in L
    requires forall j :: 0 <= j < |P.diag| && j in L ==> forall x :: x in Upper(P, j) ==> x in L
    requires forall x :: x in L ==> x in L1 || exists j :: 0 <= j < |P.diag| && j < x && j in L && x in Upper(P, j)
    ensures Candidate(P, A, r, ic, L)
  {
  }

  /** Builds the list for factor row `|P.diag|` (lines 38-71). */
  method BuildRow(A: Csr, r: seq<int>, ic: seq<int>, P: Pattern, fill0: seq<int>) returns (fill: seq<int>, nnz: int, ghost L: seq<int>)
    requires WellFormed(A) && A.m == A.n && DistinctColumns(A)
    requires FactorPattern(P, A, r, ic) && |P.diag| < A.n
    requires |fill0| == A.n + 1
    ensures ListRep(fill, A.n, L) && nnz == |L|
    ensures Candidate(P, A, r, ic, L)
  {
    var i := |P.diag|;
    fill, nnz, L := LoadRow(A, r, ic, i, fill0);
    ghost var L1 := L;
    fill, nnz, L := MergeFill(P, A.n, i, fill, nnz, L);
    LoadedAndMerged(P, A, r, ic, fill, L1, L);
  }

  /** Rows that `AppendRow` leaves alone keep their properties. */
  lemma KeptRow(P: Pattern, P': Pattern, A: Csr, r: seq<int>, ic: seq<int>, k: int)
    requires FactorPattern(P, A, r, ic) && Shaped(P') && |P'.diag| == |P.diag| + 1
    requires forall j :: 0 <= j < |P.diag| ==> Row(P', j) == Row(P, j) && Upper(P', j) == Upper(P, j) && Lower(P', j) == Lower(P, j)
    requires 0 <= k < |P.diag|
    ensures RowSorted(P', A.n, k) && RowFilled(P', A, r, ic, k)
  {
    assert RowSorted(P, A.n, k) && RowFilled(P, A, r, ic, k);
  }

  /** The new row is sorted and split at the diagonal. */
  lemma NewRowSorted(P': Pattern, n: nat, i: int, L: seq<int>, nzi: int)
    requires Shaped(P') && 0 <= i < |P'.diag|
    requires 0 <= nzi <= |L|
    requires Row(P', i) == L && Lower(P', i) == L[..nzi] && Upper(P', i) == L[nzi..]
    requires Increasing(L) && (forall k :: 0 <= k < |L| ==> 0 <= L[k] < n)
    requires forall k :: 0 <= k < nzi ==> L[k] < i
    requires forall k :: nzi <= k < |L| ==> i <= L[k]
    ensures RowSorted(P', n, i)
  {
    forall x | x in L[..nzi]
      ensures x < i
    {
      var k :| 0 <= k < nzi && L[..nzi][k] == x;
    }
    forall x | x in L[nzi..]
      ensures i <= x
    {
      var k :| 0 <= k < |L| - nzi && L[nzi..][k] == x;
      assert L[nzi + k] == x;
    }
  }

  /** The new row holds the permuted row of `A`, is closed under fill, and holds nothing else. */
  lemma NewRowFilled(P: Pattern, P': Pattern, A: Csr, r: seq<int>, ic: seq<int>, L: seq<int>)
    requires Shaped(P) && Shaped(P') && |P'.diag| == |P.diag| + 1
    requires WellFormed(A) && IsPermutation(r, A.m) && IsPermutation(ic, A.n) && |P.diag| < A.m
    requires forall j :: 0 <= j < |P.diag| ==> Upper(P', j) == Upper(P, j)
    requires Row(P', |P.diag|) == L
    requires Candidate(P, A, r, ic, L)
    ensures RowFilled(P', A, r, ic, |P.diag|)
  {
    var i := |P.diag|;
    forall p | A.rowPtr[r[i]] <= p < A.rowPtr[r[i] + 1]
      ensures ic[A.cols[p]] in L
    {
      assert IsOriginal(A, r, ic, i, ic[A.cols[p]]);
    }
    forall x | x in L && !IsOriginal(A, r, ic, i, x)
      ensures exists j :: 0 <= j < i && j < x && j in Row(P', i) && x in Upper(P', j)
    {
      var j :| 0 <= j < i && j < x && j in L && x in Upper(P, j);
      assert x in Upper(P', j);
    }
  }

  /** Appending the candidate row, split at `nzi`, extends a factor pattern by one row. */
  lemma AppendFilledRow(P: Pattern, P': Pattern, A: Csr, r: seq<int>, ic: seq<int>, L: seq<int>, nzi: int)
    requires FactorPattern(P, A, r, ic) && |P.diag| < A.n
    requires Candidate(P, A, r, ic, L)
    requires 0 <= nzi <= |L|
    requires forall k :: 0 <= k < nzi ==> L[k] < |P.diag|
    requires forall k :: nzi <= k < |L| ==> |P.diag| <= L[k]
    requires P' == AppendRow(P, L, nzi)
    ensures FactorPattern(P', A, r, ic) && |P'.diag| == |P.diag| + 1
  {
    var i := |P.diag|;
    forall k | 0 <= k < i + 1
      ensures RowSorted(P', A.n, k) && RowFilled(P', A, r, ic, k)
    {
      if k < i {
        KeptRow(P, P', A, r, ic, k);
      } else {
        NewRowSorted(P', A.n, i, L, nzi);
        NewRowFilled(P, P', A, r, ic, L);
      }
    }
  }

  /**
   * The column array after the capacity test of lines 74-81: unchanged when
   * the `nnz` new entries fit after the `start` committed ones, and otherwise
   * replaced by one with room for `rowsLeft` more rows of `nnz` entries, the
   * committed entries copied over.  The fresh tail is uninitialised in the
   * library and zero here.
   */
  function EnsureRoom(ajnew: seq<int>, start: int, jmax: int, nnz: nat, rowsLeft: int): (r: (int, seq<int>))
    requires 0 <= start <= jmax == |ajnew| && rowsLeft >= 1
    ensures start + nnz <= jmax ==> r == (jmax, ajnew)
    ensures start + nnz > jmax ==> r.0 == jmax + nnz * rowsLeft
    ensures |r.1| == r.0 && start + nnz <= r.0
    ensures r.1[..start] == ajnew[..start]
  {
    if start + nnz > jmax then
      assert nnz <= nnz * rowsLeft by {
        assert nnz * rowsLeft == nnz + nnz * (rowsLeft - 1);
      }
      var jmax' := jmax + nnz * rowsLeft;
      (jmax', ajnew[..start] + seq(jmax' - start, _ => 0))
    else
      (jmax, ajnew)
  }

  /** The committed prefix of the column array, once the row is written after it, is the appended pattern's. */
  lemma AppendedBuffer(P: Pattern, P': Pattern, ajnew: seq<int>, start: int, nnz: int, nzi: int, L: seq<int>)
    requires Shaped(P) && start == |P.cols| && 0 <= nzi <= nnz == |L|
    requires start + nnz <= |ajnew|
    requires ajnew[..start] == P.cols && ajnew[start..start + nnz] == L
    requires P' == Pattern(P.rowPtr + [start + nnz], ajnew[..start + nnz], P.diag + [start + nzi])
    ensures P' == AppendRow(P, L, nzi)
  {
    assert ajnew[..start + nnz] == ajnew[..start] + ajnew[start..start + nnz];
  }

  /**
   * Stores the list as the next factor row (lines 73-90): sets its row
   * pointer, makes room in the column array, copies the list after the
   * committed entries and sets the diagonal pointer.
   */
  method StoreRow(P: Pattern, n: nat, ajnew0: seq<int>, jmax0: int, fill: seq<int>, nnz: int, ghost L: seq<int>)
    returns (P': Pattern, ajnew: seq<int>, jmax: int, ghost nzi: int)
    requires Shaped(P) && |P.diag| < n
    requires |ajnew0| == jmax0 && |P.cols| <= jmax0 && ajnew0[..|P.cols|] == P.cols
    requires ListRep(fill, n, L) && nnz == |L|
    ensures 0 <= nzi <= |L|
    ensures P' == AppendRow(P, L, nzi)
    ensures forall k :: 0 <= k < nzi ==> L[k] < |P.diag|
    ensures forall k :: nzi <= k < |L| ==> |P.diag| <= L[k]
    ensures |ajnew| == jmax && |P'.cols| <= jmax && ajnew[..|P'.cols|] == P'.cols
  {
    var i := |P.diag|;
    var start := P.rowPtr[i];
    assert start == |P.cols|;
    var room := EnsureRoom(ajnew0, start, jmax0, nnz, n - i);
    jmax, ajnew := room.0, room.1;
    assert ajnew[..start] == P.cols;
    var nz;
    ajnew, nz := WriteRow(ajnew, start, fill, n, i, nnz, L);
    assert ajnew[..start] == P.cols;
    P' := Pattern(P.rowPtr + [start + nnz], ajnew[..start + nnz], P.diag + [start + nz]);
    AppendedBuffer(P, P', ajnew, start, nnz, nz, L);
    nzi := nz;
  }

  /** One pass of the row loop (lines 37-90): builds factor row `i` and appends it. */
  method FactorRow(A: Csr, r: seq<int>, ic: seq<int>, P: Pattern, ajnew0: seq<int>, jmax0: int, fill0: seq<int>)
    returns (P': Pattern, ajnew: seq<int>, jmax: int, fill: seq<int>)
    requires WellFormed(A) && A.m == A.n && DistinctColumns(A)
    requires FactorPattern(P, A, r, ic) && |P.diag| < A.n
    requires |ajnew0| == jmax0 && |P.cols| <= jmax0 && ajnew0[..|P.cols|] == P.cols
    requires |fill0| == A.n + 1
    ensures FactorPattern(P', A, r, ic) && |P'.diag| == |P.diag| + 1
    ensures |ajnew| == jmax && |P'.cols| <= jmax && ajnew[..|P'.cols|] == P'.cols
    ensures |fill| == A.n + 1
  {
    ghost var L, nzi;
    var nnz;
    fill, nnz, L := BuildRow(A, r, ic, P, fill0);
    P', ajnew, jmax, nzi := StoreRow(P, A.n, ajnew0, jmax0, fill, nnz, L);
    AppendFilledRow(P, P', A, r, ic, L, nzi);
  }

  /**
   * `MatiAIJLUFactorSymbolic`: the sparsity pattern of the LU factors of
   * `A(r, c)`.  Refuses a non-square matrix and a missing permutation, in
   * that order.
   */
  method LUFactorSymbolic(A: Csr, isrow: Option<seq<int>>, iscol: Option<seq<int>>) returns (res: Result<Symbolic, SymbolicError>)
    requires WellFormed(A) && DistinctColumns(A)
    requires isrow.Some? ==> IsPermutation(isrow.value, A.m)
    requires iscol.Some? ==> IsPermutation(iscol.value, A.n)
    ensures A.m != A.n ==> res == Err(NotSquare)
    ensures A.m == A.n && isrow.None? ==> res == Err(NoRowPermutation)
    ensures A.m == A.n && isrow.Some? && iscol.None? ==> res == Err(NoColumnPermutation)
    ensures res.Ok? <==> A.m == A.n && isrow.Some? && iscol.Some?
    ensures res.Ok? ==>
      && res.value.row == isrow.value && res.value.col == iscol.value
      && |res.value.pattern.diag| == A.n
      && FactorPattern(res.value.pattern, A, isrow.value, Inverse(iscol.value, A.n))
      && |res.value.pattern.cols| <= res.value.capacity
  {
    if A.m != A.n {
      return Err(NotSquare);
    }
    if isrow.None? {
      return Err(NoRowPermutation);
    }
    if iscol.None? {
      return Err(NoColumnPermutation);
    }
    var n := A.n;
    var r := isrow.value;
    var ic := Invert(iscol.value, n);
    var jmax := InitialCapacity(A);
    var ajnew := seq(jmax, _ => 0);
    var fill := seq(n + 1, _ => 0);
    var P := Pattern([0], [], []);
    var i := 0;
    while i < n
      invariant 0 <= i <= n
      invariant FactorPattern(P, A, r, ic) && |P.diag| == i
      invariant |ajnew| == jmax && |P.cols| <= jmax && ajnew[..|P.cols|] == P.cols
      invariant |fill| == n + 1
    {
      P, ajnew, jmax, fill := FactorRow(A, r, ic, P, ajnew, jmax, fill);
      i := i + 1;
    }
    return Ok(Symbolic(P, jmax, r, iscol.value));
  }
}
