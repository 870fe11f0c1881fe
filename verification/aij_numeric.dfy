/**
 * Numeric LU factorisation on a symbolic factor (`MatiAIJLUFactorNumeric`,
 * aijfact.c).  Row `i` of the factor is computed in a dense work row: the
 * pattern positions are cleared, row `r[i]` of the matrix is scattered into
 * it through the inverse column permutation, every earlier row `j` on the
 * pattern left of the diagonal is eliminated (its multiplier overwriting the
 * work entry `j`), the diagonal is replaced by its reciprocal, and the
 * pattern positions are copied into the factor.
 *
 * The result is described by Doolittle's equations on the stored values:
 * the entry of L is the eliminated entry times the stored pivot reciprocal,
 * the diagonal is the reciprocal of the eliminated pivot, and the entry of U
 * is the eliminated entry itself.
 */
module AijNumeric {
  import opened AijMatrix
  import opened FillList
  import opened Permutations
  import opened AijPattern
  import opened AijSymbolic
  import opened Dense

  /** The diagonal pointer of row `k` points at a stored entry of column `k`. */
  predicate DiagStored(P: Pattern, k: int)
    requires Shaped(P) && 0 <= k < |P.diag|
  {
    P.diag[k] < P.rowPtr[k + 1] <= |P.cols| && P.cols[P.diag[k]] == k
  }

  /** Every row stores its diagonal. */
  predicate HasDiag(P: Pattern)
    requires Shaped(P)
  {
    forall k :: 0 <= k < |P.diag| ==> DiagStored(P, k)
  }

  /** `P` is the symbolic factor of `A(r, c)`, square, with every diagonal present. */
  ghost predicate Refines(P: Pattern, A: Csr, r: seq<int>, c: seq<int>)
  {
    && WellFormed(A) && A.m == A.n
    && IsPermutation(r, A.n) && IsPermutation(c, A.n)
    && FactorPattern(P, A, r, Inverse(c, A.n))
    && |P.diag| == A.n
    && HasDiag(P)
  }

  /** A matrix read densely: entry `(i, k)` for every pair of indices. */
  type Entries = (int, int) -> real

  /** Entry `(i, k)` of the factor whose values are `vals`, 0 where the pattern stores none. */
  function Stored(P: Pattern, vals: seq<real>, i: int, k: int): real
  {
    if 0 <= i && i + 1 < |P.rowPtr| && 0 <= P.rowPtr[i] && P.rowPtr[i + 1] <= |P.cols| && |vals| == |P.cols|
    then FindLast(P.cols, vals, P.rowPtr[i], P.rowPtr[i + 1], k)
    else 0.0
  }

  /** Entry `(i, k)` of the permuted matrix `A(r, c)`, that is `A(r[i], c[k])`. */
  function Permuted(A: Csr, r: seq<int>, c: seq<int>, i: int, k: int): real
  {
    if && 0 <= i < |r| && 0 <= r[i] && r[i] + 1 < |A.rowPtr| && 0 <= k < |c|
       && 0 <= A.rowPtr[r[i]] && A.rowPtr[r[i] + 1] <= |A.cols| && A.rowPtr[r[i] + 1] <= |A.vals|
    then FindLast(A.cols, A.vals, A.rowPtr[r[i]], A.rowPtr[r[i] + 1], c[k])
    else 0.0
  }

  /** The factor with values `vals`, read densely. */
  function FactorEntries(P: Pattern, vals: seq<real>): Entries
  {
    (i, k) => Stored(P, vals, i, k)
  }

  /** The permuted matrix `A(r, c)`, read densely. */
  function PermutedEntries(A: Csr, r: seq<int>, c: seq<int>): Entries
  {
    (i, k) => Permuted(A, r, c, i, k)
  }

  /** `sum_{j<b} F(i,j) F(j,k)`: what the elimination by rows `0 .. b-1` has taken from entry `(i, k)`. */
  function Elim(F: Entries, i: int, b: int, k: int): real
  {
    Sum(0, b, ElimTerm(F, i, k))
  }

  /** The term `j` of `Elim`: row `j`'s entry `k` scaled by multiplier `(i, j)`. */
  function ElimTerm(F: Entries, i: int, k: int): int -> real
  {
    j => F(i, j) * F(j, k)
  }

  /**
   * Doolittle's equation for entry `(i, k)` of the factor `F` of `M`: left
   * of the diagonal the multiplier (the eliminated entry times the stored
   * reciprocal of pivot `k`), on it the reciprocal of the eliminated pivot,
   * right of it the eliminated entry.
   */
  ghost predicate Doolittle(F: Entries, M: Entries, i: int, k: int)
  {
    F(i, k) ==
      if k < i then (M(i, k) - Elim(F, i, k, k)) * F(k, k)
      else if k == i then Quot(1.0, M(i, i) - Elim(F, i, i, i))
      else M(i, k) - Elim(F, i, i, k)
  }

  /** Row `i` of `F` satisfies Doolittle's equations on its pattern. */
  ghost predicate RowEliminated(P: Pattern, F: Entries, M: Entries, i: int)
    requires Shaped(P) && 0 <= i < |P.diag|
  {
    forall k :: k in Row(P, i) ==> Doolittle(F, M, i, k)
  }

  /** Rows `0 .. rows-1` satisfy Doolittle's equations. */
  ghost predicate Eliminated(P: Pattern, F: Entries, M: Entries, rows: int)
    requires Shaped(P) && rows <= |P.diag|
  {
    forall i :: 0 <= i < rows ==> RowEliminated(P, F, M, i)
  }

  /** Rows `0 .. rows-1` of `F` and `G` agree. */
  ghost predicate SameRows(F: Entries, G: Entries, rows: int)
  {
    forall j, k :: 0 <= j < rows ==> F(j, k) == G(j, k)
  }

  /** The multiplier for row `j` held in the work row `w` of a row whose pattern is `R`. */
  function Held(R: seq<int>, w: seq<real>, j: int): real
  {
    if j in R && 0 <= j < |w| then w[j] else 0.0
  }

  /** `sum_{j<b} w_j F(j,k)` over the multipliers held in the work row. */
  function Applied(F: Entries, R: seq<int>, w: seq<real>, b: int, k: int): real
  {
    Sum(0, b, j => Held(R, w, j) * F(j, k))
  }

  /**
   * Entry `k` of the work row of row `i`, whose pattern is `R`, once the
   * rows on the pattern below `b` have been eliminated: a row already used
   * holds its multiplier, any other entry the matrix entry minus what has
   * been eliminated so far.
   */
  ghost predicate WorkEntry(F: Entries, M: Entries, i: int, R: seq<int>, w: seq<real>, b: int, k: int)
    requires 0 <= k < |w|
  {
    w[k] == if k < b then (M(i, k) - Applied(F, R, w, k, k)) * F(k, k)
            else M(i, k) - Applied(F, R, w, b, k)
  }

  /** The work row of row `i` once the rows on its pattern below `b` have been eliminated. */
  ghost predicate Eliminating(P: Pattern, F: Entries, M: Entries, i: int, w: seq<real>, b: int)
    requires Shaped(P) && 0 <= i < |P.diag|
  {
    forall k :: k in Row(P, i) && 0 <= k < |w| ==> WorkEntry(F, M, i, Row(P, i), w, b, k)
  }

  // ----- reading rows by position -----

  /** A sorted row read by position: increasing columns in range, L part left of `i`, U part from `i` on. */
  lemma RowPositions(P: Pattern, n: nat, i: int)
    requires Shaped(P) && 0 <= i < |P.diag| && RowSorted(P, n, i)
    ensures P.rowPtr[i] <= P.diag[i] <= P.rowPtr[i + 1] <= |P.cols|
    ensures forall p, q :: P.rowPtr[i] <= p < q < P.rowPtr[i + 1] ==> P.cols[p] < P.cols[q]
    ensures forall p :: P.rowPtr[i] <= p < P.rowPtr[i + 1] ==> 0 <= P.cols[p] < n && P.cols[p] in Row(P, i)
    ensures forall p :: P.rowPtr[i] <= p < P.diag[i] ==> P.cols[p] < i
    ensures forall p :: P.diag[i] <= p < P.rowPtr[i + 1] ==> i <= P.cols[p]
  {
    assert P.rowPtr[i + 1] <= P.rowPtr[|P.diag|];
    RowOrder(P, n, i);
    RowRange(P, n, i);
    LowerBelow(P, n, i);
    UpperAbove(P, n, i);
  }

  lemma RowOrder(P: Pattern, n: nat, i: int)
    requires Shaped(P) && 0 <= i < |P.diag| && RowSorted(P, n, i)
    ensures forall p, q :: P.rowPtr[i] <= p < q < P.rowPtr[i + 1] ==> P.cols[p] < P.cols[q]
  {
    var lo, hi := P.rowPtr[i], P.rowPtr[i + 1];
    assert hi <= P.rowPtr[|P.diag|];
    var R := Row(P, i);
    assert Increasing(R);
    forall p, q | lo <= p < q < hi
      ensures P.cols[p] < P.cols[q]
    {
      assert R[p - lo] == P.cols[p] && R[q - lo] == P.cols[q];
    }
  }

  lemma RowRange(P: Pattern, n: nat, i: int)
    requires Shaped(P) && 0 <= i < |P.diag| && RowSorted(P, n, i)
    ensures forall p :: P.rowPtr[i] <= p < P.rowPtr[i + 1] ==> 0 <= P.cols[p] < n && P.cols[p] in Row(P, i)
  {
    var lo, hi := P.rowPtr[i], P.rowPtr[i + 1];
    assert hi <= P.rowPtr[|P.diag|];
    var R := Row(P, i);
    assert forall x :: x in R ==> 0 <= x < n;
    forall p | lo <= p < hi
      ensures 0 <= P.cols[p] < n && P.cols[p] in R
    {
      assert R[p - lo] == P.cols[p];
      assert R[p - lo] in R;
    }
  }

  lemma LowerBelow(P: Pattern, n: nat, i: int)
    requires Shaped(P) && 0 <= i < |P.diag| && RowSorted(P, n, i)
    ensures forall p :: P.rowPtr[i] <= p < P.diag[i] ==> P.cols[p] < i
  {
    var lo, d := P.rowPtr[i], P.diag[i];
    assert P.rowPtr[i + 1] <= P.rowPtr[|P.diag|];
    var Lw := Lower(P, i);
    assert forall x :: x in Lw ==> x < i;
    forall p | lo <= p < d
      ensures P.cols[p] < i
    {
      assert Lw[p - lo] == P.cols[p];
      assert Lw[p - lo] in Lw;
    }
  }

  lemma UpperAbove(P: Pattern, n: nat, i: int)
    requires Shaped(P) && 0 <= i < |P.diag| && RowSorted(P, n, i)
    ensures forall p :: P.diag[i] <= p < P.rowPtr[i + 1] ==> i <= P.cols[p]
  {
    var d, hi := P.diag[i], P.rowPtr[i + 1];
    assert hi <= P.rowPtr[|P.diag|];
    var U := Upper(P, i);
    assert forall x :: x in U ==> i <= x;
    forall p | d <= p < hi
      ensures i <= P.cols[p]
    {
      assert U[p - d] == P.cols[p];
      assert U[p - d] in U;
    }
  }

  /** A column on row `i` sits at some position of the row. */
  lemma RowPosition(P: Pattern, i: int, x: int) returns (p: int)
    requires Shaped(P) && 0 <= i < |P.diag| && x in Row(P, i)
    ensures P.rowPtr[i] <= p < P.rowPtr[i + 1] <= |P.cols| && P.cols[p] == x
  {
    assert P.rowPtr[i + 1] <= P.rowPtr[|P.diag|];
    var a :| 0 <= a < |Row(P, i)| && Row(P, i)[a] == x;
    p := P.rowPtr[i] + a;
  }

  /** The stored entry at a position of a sorted row is the value at that position. */
  lemma StoredAt(P: Pattern, n: nat, vals: seq<real>, i: int, p: int)
    requires Shaped(P) && 0 <= i < |P.diag| && RowSorted(P, n, i) && |vals| == |P.cols|
    requires P.rowPtr[i] <= p < P.rowPtr[i + 1]
    ensures Stored(P, vals, i, P.cols[p]) == vals[p]
  {
    RowPositions(P, n, i);
    FindLastAt(P.cols, vals, P.rowPtr[i], P.rowPtr[i + 1], P.cols[p], p);
  }

  /** A column off the pattern of row `i` reads as 0. */
  lemma StoredOff(P: Pattern, vals: seq<real>, i: int, k: int)
    requires Shaped(P) && 0 <= i < |P.diag| && |vals| == |P.cols| && k !in Row(P, i)
    ensures Stored(P, vals, i, k) == 0.0
  {
    assert P.rowPtr[i + 1] <= P.rowPtr[|P.diag|];
    forall p | P.rowPtr[i] <= p < P.rowPtr[i + 1]
      ensures P.cols[p] != k
    {
      assert Row(P, i)[p - P.rowPtr[i]] == P.cols[p];
    }
    FindLastAbsent(P.cols, vals, P.rowPtr[i], P.rowPtr[i + 1], k);
  }

  /** Values outside the positions of row `j` do not change what row `j` reads. */
  lemma StoredFrame(P: Pattern, vals: seq<real>, vals': seq<real>, j: int)
    requires Shaped(P) && 0 <= j < |P.diag| && |vals| == |vals'| == |P.cols|
    requires forall q :: P.rowPtr[j] <= q < P.rowPtr[j + 1] ==> vals[q] == vals'[q]
    ensures forall k :: Stored(P, vals, j, k) == Stored(P, vals', j, k)
  {
    assert P.rowPtr[j + 1] <= P.rowPtr[|P.diag|];
    forall k
      ensures Stored(P, vals, j, k) == Stored(P, vals', j, k)
    {
      FindLastFrame(P.cols, vals, P.cols, vals', P.rowPtr[j], P.rowPtr[j + 1], k);
    }
  }

  // ----- the sums -----

  /** Elimination sums agree when the rows they read agree. */
  lemma {:induction false} ElimSame(F: Entries, G: Entries, i: int, b: int, k: int)
    requires forall j :: 0 <= j < b ==> F(i, j) == G(i, j) && F(j, k) == G(j, k)
    ensures Elim(F, i, b, k) == Elim(G, i, b, k)
    decreases b
  {
    if b > 0 {
      ElimSame(F, G, i, b - 1, k);
    }
  }

  /** Sums over the work row agree when the held multipliers agree. */
  lemma {:induction false} AppliedSame(F: Entries, R: seq<int>, w: seq<real>, w': seq<real>, b: int, k: int)
    requires forall j :: 0 <= j < b ==> Held(R, w, j) == Held(R, w', j)
    ensures Applied(F, R, w, b, k) == Applied(F, R, w', b, k)
    decreases b
  {
    if b > 0 {
      AppliedSame(F, R, w, w', b - 1, k);
    }
  }

  /** Nothing is eliminated before the first column of the pattern. */
  lemma {:induction false} AppliedNone(F: Entries, R: seq<int>, w: seq<real>, b: int, k: int)
    requires forall j :: 0 <= j < b ==> j !in R
    ensures Applied(F, R, w, b, k) == 0.0
    decreases b
  {
    if b > 0 {
      AppliedNone(F, R, w, b - 1, k);
      assert Applied(F, R, w, b, k) == Applied(F, R, w, b - 1, k) + Held(R, w, b - 1) * F(b - 1, k);
    }
  }

  /** Moving the bound from `b` to the next pattern column `b'` adds the term of row `b` alone. */
  lemma {:induction false} AppliedExtend(F: Entries, R: seq<int>, w: seq<real>, b: int, b': int, k: int)
    requires 0 <= b < b'
    requires forall j :: j in R ==> j <= b || b' <= j
    ensures Applied(F, R, w, b', k) == Applied(F, R, w, b, k) + Held(R, w, b) * F(b, k)
    decreases b' - b
  {
    if b' > b + 1 {
      AppliedExtend(F, R, w, b, b' - 1, k);
      assert Applied(F, R, w, b', k) == Applied(F, R, w, b' - 1, k) + Held(R, w, b' - 1) * F(b' - 1, k);
    } else {
      assert Applied(F, R, w, b', k) == Applied(F, R, w, b, k) + Held(R, w, b) * F(b, k);
    }
  }

  /** The work-row sum is the elimination sum of row `i` once the multipliers are stored in it. */
  lemma {:induction false} AppliedIsElim(F: Entries, G: Entries, R: seq<int>, w: seq<real>, i: int, b: int, k: int)
    requires forall j :: 0 <= j < b ==> Held(R, w, j) == G(i, j) && F(j, k) == G(j, k)
    ensures Applied(F, R, w, b, k) == Elim(G, i, b, k)
    decreases b
  {
    if b > 0 {
      AppliedIsElim(F, G, R, w, i, b - 1, k);
    }
  }

  /** Doolittle's equations for earlier rows survive a change that leaves those rows alone. */
  lemma EliminatedFrame(P: Pattern, n: nat, F: Entries, G: Entries, M: Entries, rows: int)
    requires Shaped(P) && 0 <= rows <= |P.diag|
    requires forall j :: 0 <= j < rows ==> RowSorted(P, n, j)
    requires Eliminated(P, F, M, rows) && SameRows(F, G, rows)
    ensures Eliminated(P, G, M, rows)
  {
    forall i, k | 0 <= i < rows && k in Row(P, i)
      ensures Doolittle(G, M, i, k)
    {
      assert RowEliminated(P, F, M, i);
      assert Doolittle(F, M, i, k);
      assert F(i, k) == G(i, k);
      assert RowSorted(P, n, i);
      if k < i {
        assert F(k, k) == G(k, k);
        ElimSame(F, G, i, k, k);
      } else {
        ElimSame(F, G, i, i, k);
      }
    }
  }

  // ----- one row -----

  /** Clears the pattern positions of the work row (lines 126-128). */
  method ClearRow(P: Pattern, n: nat, i: int, w0: seq<real>) returns (w: seq<real>)
    requires Shaped(P) && 0 <= i < |P.diag| && RowSorted(P, n, i) && |w0| == n
    ensures |w| == n
    ensures forall k :: k in Row(P, i) ==> 0 <= k < n && w[k] == 0.0
  {
    RowRange(P, n, i);
    var lo, hi := P.rowPtr[i], P.rowPtr[i + 1];
    w := w0;
    var p := lo;
    while p < hi
      invariant lo <= p <= hi && |w| == n
      invariant forall q :: lo <= q < p ==> w[P.cols[q]] == 0.0
    {
      w := w[P.cols[p] := 0.0];
      p := p + 1;
    }
    forall k | k in Row(P, i)
      ensures 0 <= k < n && w[k] == 0.0
    {
      var q := RowPosition(P, i, k);
    }
  }

  /**
   * Scatters row `r[i]` of the matrix into the cleared work row at the
   * columns renumbered by `ic`, the inverse of `c` (lines 131-135).
   */
  method ScatterRow(A: Csr, r: seq<int>, c: seq<int>, ic: seq<int>, P: Pattern, i: int, w0: seq<real>) returns (w: seq<real>)
    requires WellFormed(A) && IsPermutation(r, A.m) && IsPermutation(c, A.n) && ic == Inverse(c, A.n)
    requires Shaped(P) && 0 <= i < |P.diag| && i < A.m
    requires forall p :: A.rowPtr[r[i]] <= p < A.rowPtr[r[i] + 1] ==> ic[A.cols[p]] in Row(P, i)
    requires |w0| == A.n
    requires forall k :: k in Row(P, i) ==> 0 <= k < A.n && w0[k] == 0.0
    ensures |w| == A.n
    ensures forall k :: k in Row(P, i) ==> 0 <= k < A.n && w[k] == Permuted(A, r, c, i, k)
  {
    var R := Row(P, i);
    var alo, ahi := A.rowPtr[r[i]], A.rowPtr[r[i] + 1];
    assert ahi <= A.rowPtr[A.m];
    w := ScatterValues(A.cols, A.vals, alo, ahi, c, ic, R, A.n, w0);
    forall k | k in R
      ensures w[k] == Permuted(A, r, c, i, k)
    {
    }
  }

  /**
   * Scatters the entries at positions `lo .. hi-1` into the work row, entry
   * with column `x` going to `ic[x]` (lines 133-136).
   */
  method ScatterValues(cols: seq<int>, vals: seq<real>, lo: int, hi: int, c: seq<int>, ic: seq<int>, R: seq<int>, n: nat, w0: seq<real>)
    returns (w: seq<real>)
    requires 0 <= lo <= hi <= |cols| && hi <= |vals| && |w0| == n
    requires forall k :: k in R ==> 0 <= k < n && k < |c| && 0 <= c[k] < |ic| && ic[c[k]] == k && w0[k] == 0.0
    requires forall p :: lo <= p < hi ==> 0 <= cols[p] < |ic| && ic[cols[p]] in R && c[ic[cols[p]]] == cols[p]
    ensures |w| == n
    ensures forall k :: k in R ==> w[k] == FindLast(cols, vals, lo, hi, c[k])
  {
    w := w0;
    var p := lo;
    while p < hi
      invariant lo <= p <= hi && |w| == n
      invariant forall k :: k in R ==> w[k] == FindLast(cols, vals, lo, p, c[k])
    {
      var kx := ic[cols[p]];
      w := w[kx := vals[p]];
      p := p + 1;
    }
  }

  /**
   * `w0 - mult * v` for the sparse vector `v` held at positions `d .. hi-1`,
   * whose columns increase and lie above `b` (the inner loop, lines 145-146).
   */
  method SubtractScaled(cols: seq<int>, vals: seq<real>, d: int, hi: int, b: int, n: nat, mult: real, w0: seq<real>) returns (w: seq<real>)
    requires 0 <= d <= hi <= |cols| && hi <= |vals| && |w0| == n && 0 <= b
    requires forall p, q :: d <= p < q < hi ==> cols[p] < cols[q]
    requires forall p :: d <= p < hi ==> b < cols[p] < n
    ensures |w| == n
    ensures forall k :: 0 <= k <= b && k < n ==> w[k] == w0[k]
    ensures forall k :: b < k < n ==> w[k] == w0[k] - mult * FindLast(cols, vals, d, hi, k)
  {
    w := w0;
    var p := d;
    while p < hi
      invariant d <= p <= hi && |w| == n
      invariant forall k :: 0 <= k <= b && k < n ==> w[k] == w0[k]
      invariant forall k :: b < k < n ==> w[k] == w0[k] - mult * FindLast(cols, vals, d, p, k)
    {
      var x := cols[p];
      FindLastAbsent(cols, vals, d, p, x);
      var w' := w[x := w[x] - mult * vals[p]];
      forall k | b < k < n
        ensures w'[k] == w0[k] - mult * FindLast(cols, vals, d, p + 1, k)
      {
        if k == x {
          assert FindLast(cols, vals, d, p + 1, k) == vals[p];
          assert w[k] == w0[k] - mult * 0.0;
        } else {
          assert FindLast(cols, vals, d, p + 1, k) == FindLast(cols, vals, d, p, k);
          assert w'[k] == w[k];
        }
      }
      w, p := w', p + 1;
    }
  }

  /**
   * Subtracts `mult` times the U part of row `b`, right of its diagonal,
   * from the work row (lines 140-146).
   */
  method ApplyRow(P: Pattern, n: nat, vals: seq<real>, b: int, mult: real, w0: seq<real>) returns (w: seq<real>)
    requires Shaped(P) && |vals| == |P.cols|
    requires 0 <= b < |P.diag| && RowSorted(P, n, b) && |w0| == n
    requires DiagStored(P, b)
    ensures |w| == n
    ensures forall k :: 0 <= k <= b && k < n ==> w[k] == w0[k]
    ensures forall k :: b < k < n ==> w[k] == w0[k] - mult * Stored(P, vals, b, k)
  {
    var d, hi := P.diag[b] + 1, P.rowPtr[b + 1];
    UpperColumns(P, n, b);
    w := SubtractScaled(P.cols, vals, d, hi, b, n, mult, w0);
    forall k | b < k < n
      ensures FindLast(P.cols, vals, d, hi, k) == Stored(P, vals, b, k)
    {
      StoredUpper(P, n, vals, b, k);
    }
  }

  /** Right of its stored diagonal, row `b` holds increasing columns above `b`. */
  lemma UpperColumns(P: Pattern, n: nat, b: int)
    requires Shaped(P) && 0 <= b < |P.diag| && RowSorted(P, n, b) && DiagStored(P, b)
    ensures P.rowPtr[b + 1] <= |P.cols|
    ensures forall p, q :: P.diag[b] + 1 <= p < q < P.rowPtr[b + 1] ==> P.cols[p] < P.cols[q]
    ensures forall p :: P.diag[b] + 1 <= p < P.rowPtr[b + 1] ==> b < P.cols[p] < n
  {
    RowOrder(P, n, b);
    RowRange(P, n, b);
    var d, hi := P.diag[b] + 1, P.rowPtr[b + 1];
    assert forall p :: d <= p < hi ==> P.cols[d - 1] < P.cols[p];
  }

  /** Right of the diagonal, row `b` is read from the positions after the diagonal. */
  lemma StoredUpper(P: Pattern, n: nat, vals: seq<real>, b: int, k: int)
    requires Shaped(P) && |vals| == |P.cols| && 0 <= b < |P.diag| && RowSorted(P, n, b)
    requires DiagStored(P, b) && b < k
    ensures FindLast(P.cols, vals, P.diag[b] + 1, P.rowPtr[b + 1], k) == Stored(P, vals, b, k)
  {
    RowOrder(P, n, b);
    var lo, d, hi := P.rowPtr[b], P.diag[b] + 1, P.rowPtr[b + 1];
    forall q | lo <= q < d
      ensures P.cols[q] != k
    {
      assert q == d - 1 || P.cols[q] < P.cols[d - 1];
    }
    FindLastSuffix(P.cols, vals, lo, d, hi, k);
  }

  /** The columns of row `i` are the ones at its positions, in increasing order. */
  lemma RowBetween(P: Pattern, n: nat, i: int, p: int, j: int)
    requires Shaped(P) && 0 <= i < |P.diag| && RowSorted(P, n, i)
    requires P.rowPtr[i] <= p < P.rowPtr[i + 1] && j in Row(P, i)
    ensures j <= P.cols[p] || (p + 1 < P.rowPtr[i + 1] && P.cols[p + 1] <= j)
  {
    RowOrder(P, n, i);
    var q := RowPosition(P, i, j);
    assert q <= p ==> P.cols[q] <= P.cols[p];
    assert q > p ==> P.cols[p + 1] <= P.cols[q];
  }

  /** No column of row `i` lies strictly between its columns at positions `p` and `p + 1`. */
  lemma RowGap(P: Pattern, n: nat, i: int, p: int)
    requires Shaped(P) && 0 <= i < |P.diag| && RowSorted(P, n, i)
    requires P.rowPtr[i] <= p && p + 1 < P.rowPtr[i + 1]
    ensures P.rowPtr[i + 1] <= |P.cols| && P.cols[p] in Row(P, i) && P.cols[p] < P.cols[p + 1]
    ensures forall j :: j in Row(P, i) ==> j <= P.cols[p] || P.cols[p + 1] <= j
  {
    RowRange(P, n, i);
    RowOrder(P, n, i);
    forall j | j in Row(P, i)
      ensures j <= P.cols[p] || P.cols[p + 1] <= j
    {
      RowBetween(P, n, i, p, j);
    }
  }

  /** Before any elimination the work row holds the matrix row. */
  lemma StartEliminating(P: Pattern, n: nat, F: Entries, M: Entries, i: int, w: seq<real>)
    requires Shaped(P) && 0 <= i < |P.diag| && RowSorted(P, n, i)
    requires P.rowPtr[i] < P.rowPtr[i + 1] && |w| == n
    requires forall k :: k in Row(P, i) ==> 0 <= k < n && w[k] == M(i, k)
    ensures Eliminating(P, F, M, i, w, P.cols[P.rowPtr[i]])
  {
    RowOrder(P, n, i);
    var lo := P.rowPtr[i];
    var R := Row(P, i);
    forall j | j in R
      ensures P.cols[lo] <= j
    {
      var q := RowPosition(P, i, j);
      assert q == lo || P.cols[lo] < P.cols[q];
    }
    forall k | k in R && 0 <= k < |w|
      ensures WorkEntry(F, M, i, R, w, P.cols[lo], k)
    {
      AppliedNone(F, R, w, P.cols[lo], k);
    }
  }

  /** The entry `k` of the work row after the step of `EliminateStep`. */
  lemma StepEntry(F: Entries, M: Entries, i: int, R: seq<int>, w: seq<real>, w': seq<real>, b: int, b': int, k: int)
    requires 0 <= b < b' && b in R && k in R && 0 <= k < |w| == |w'| && b < |w|
    requires forall j :: j in R ==> j <= b || b' <= j
    requires WorkEntry(F, M, i, R, w, b, k) && WorkEntry(F, M, i, R, w, b, b)
    requires w'[b] == w[b] * F(b, b)
    requires forall j :: 0 <= j < b ==> w'[j] == w[j]
    requires b < k ==> w'[k] == w[k] - w'[b] * F(b, k)
    ensures WorkEntry(F, M, i, R, w', b', k)
  {
    if k < b {
      AppliedSame(F, R, w, w', k, k);
    } else if k == b {
      AppliedSame(F, R, w, w', b, b);
    } else {
      AppliedSame(F, R, w, w', b, k);
      AppliedExtend(F, R, w', b, b', k);
    }
  }

  /**
   * One elimination step: row `b = cols[p]`, left of the diagonal, has been
   * used with multiplier `w'[b]`, so the bound moves on to the next column
   * of the pattern.
   */
  lemma EliminateStep(P: Pattern, n: nat, F: Entries, M: Entries, i: int, w: seq<real>, w': seq<real>, p: int)
    requires Shaped(P) && 0 <= i < |P.diag| && RowSorted(P, n, i) && |w| == n && |w'| == n
    requires P.rowPtr[i] <= p && p + 1 < P.rowPtr[i + 1]
    requires 0 <= P.cols[p] < i && i <= n
    requires Eliminating(P, F, M, i, w, P.cols[p])
    requires w'[P.cols[p]] == w[P.cols[p]] * F(P.cols[p], P.cols[p])
    requires forall k :: 0 <= k < P.cols[p] ==> w'[k] == w[k]
    requires forall k :: P.cols[p] < k < n ==> w'[k] == w[k] - w'[P.cols[p]] * F(P.cols[p], k)
    ensures Eliminating(P, F, M, i, w', P.cols[p + 1])
  {
    RowGap(P, n, i, p);
    StepAll(F, M, i, Row(P, i), w, w', P.cols[p], P.cols[p + 1]);
  }

  /** `StepEntry` for every entry of the pattern. */
  lemma StepAll(F: Entries, M: Entries, i: int, R: seq<int>, w: seq<real>, w': seq<real>, b: int, b': int)
    requires 0 <= b < b' && b in R && b < |w| == |w'|
    requires forall j :: j in R ==> j <= b || b' <= j
    requires forall k :: k in R && 0 <= k < |w| ==> WorkEntry(F, M, i, R, w, b, k)
    requires w'[b] == w[b] * F(b, b)
    requires forall k :: 0 <= k < b ==> w'[k] == w[k]
    requires forall k :: b < k < |w| ==> w'[k] == w[k] - w'[b] * F(b, k)
    ensures forall k :: k in R && 0 <= k < |w'| ==> WorkEntry(F, M, i, R, w', b', k)
  {
    forall k | k in R && 0 <= k < |w'|
      ensures WorkEntry(F, M, i, R, w', b', k)
    {
      StepEntry(F, M, i, R, w, w', b, b', k);
    }
  }

  /**
   * Eliminates with row `row` when its work entry is nonzero: the entry
   * becomes the multiplier and the U part of `row` is subtracted (lines
   * 139-147).
   */
  method UseRow(P: Pattern, n: nat, vals: seq<real>, row: int, w0: seq<real>) returns (w: seq<real>)
    requires Shaped(P) && |vals| == |P.cols|
    requires 0 <= row < |P.diag| && DiagStored(P, row) && RowSorted(P, n, row) && row < n == |w0|
    ensures |w| == n
    ensures w[row] == w0[row] * Stored(P, vals, row, row)
    ensures forall k :: 0 <= k < row ==> w[k] == w0[k]
    ensures forall k :: row < k < n ==> w[k] == w0[k] - w[row] * Stored(P, vals, row, k)
  {
    w := w0;
    if w0[row] != 0.0 {
      StoredAt(P, n, vals, row, P.diag[row]);
      var multiplier := w0[row] * vals[P.diag[row]];
      w := ApplyRow(P, n, vals, row, multiplier, w0[row := multiplier]);
    }
  }

  /** The rows the elimination of row `i` uses lie above it, store their diagonals and are sorted. */
  lemma LowerRows(P: Pattern, n: nat, i: int)
    requires Shaped(P) && HasDiag(P) && 0 <= i < |P.diag|
    requires forall j :: 0 <= j <= i ==> RowSorted(P, n, j)
    ensures P.diag[i] <= |P.cols|
    ensures forall p :: P.rowPtr[i] <= p < P.diag[i] ==>
      0 <= P.cols[p] < i && DiagStored(P, P.cols[p]) && RowSorted(P, n, P.cols[p])
  {
    assert P.rowPtr[i + 1] <= P.rowPtr[|P.diag|];
    assert RowSorted(P, n, i);
    LowerBelow(P, n, i);
    RowRange(P, n, i);
    forall p | P.rowPtr[i] <= p < P.diag[i]
      ensures 0 <= P.cols[p] < i && DiagStored(P, P.cols[p]) && RowSorted(P, n, P.cols[p])
    {
      var row := P.cols[p];
      assert DiagStored(P, row) && RowSorted(P, n, row);
    }
  }

  /** Eliminates row `i` with the row at its position `p`, left of the diagonal. */
  method EliminateAt(P: Pattern, n: nat, vals: seq<real>, ghost F: Entries, ghost M: Entries, i: int, w: seq<real>, p: int) returns (w': seq<real>)
    requires Shaped(P) && |vals| == |P.cols| && 0 <= i < |P.diag| <= n && RowSorted(P, n, i) && |w| == n
    requires P.rowPtr[i] <= p && p + 1 < P.rowPtr[i + 1]
    requires 0 <= P.cols[p] < i && DiagStored(P, P.cols[p]) && RowSorted(P, n, P.cols[p])
    requires F == FactorEntries(P, vals) && Eliminating(P, F, M, i, w, P.cols[p])
    ensures |w'| == n && Eliminating(P, F, M, i, w', P.cols[p + 1])
  {
    w' := UseRow(P, n, vals, P.cols[p], w);
    EliminateStep(P, n, F, M, i, w, w', p);
  }

  /**
   * Walks the pattern of row `i` left of the diagonal, eliminating with each
   * row it holds (lines 137-150).
   */
  method EliminateLower(P: Pattern, n: nat, vals: seq<real>, ghost F: Entries, ghost M: Entries, i: int, w0: seq<real>) returns (w: seq<real>)
    requires Shaped(P) && |vals| == |P.cols| && 0 <= i < |P.diag| <= n
    requires RowSorted(P, n, i) && DiagStored(P, i)
    requires forall p :: P.rowPtr[i] <= p < P.diag[i] ==>
      0 <= P.cols[p] < i && DiagStored(P, P.cols[p]) && RowSorted(P, n, P.cols[p])
    requires |w0| == n
    requires forall k :: k in Row(P, i) ==> 0 <= k < n && w0[k] == M(i, k)
    requires F == FactorEntries(P, vals)
    ensures |w| == n && Eliminating(P, F, M, i, w, i)
  {
    var lo, d := P.rowPtr[i], P.diag[i];
    StartEliminating(P, n, F, M, i, w0);
    w := w0;
    var p := lo;
    var row := P.cols[p];
    while row < i
      invariant lo <= p <= d && row == P.cols[p]
      invariant |w| == n && Eliminating(P, F, M, i, w, row)
      decreases d - p
    {
      w := EliminateAt(P, n, vals, F, M, i, w, p);
      p := p + 1;
      row := P.cols[p];
    }
    assert p == d;
  }

  /** Copies the work row into the factor at the positions of row `i` (line 155). */
  method WriteValues(P: Pattern, n: nat, i: int, vals0: seq<real>, w: seq<real>) returns (vals: seq<real>)
    requires Shaped(P) && 0 <= i < |P.diag| && RowSorted(P, n, i) && |vals0| == |P.cols| && |w| == n
    ensures |vals| == |vals0|
    ensures forall q :: 0 <= q < |vals| && !(P.rowPtr[i] <= q < P.rowPtr[i + 1]) ==> vals[q] == vals0[q]
    ensures forall q :: P.rowPtr[i] <= q < P.rowPtr[i + 1] ==> 0 <= P.cols[q] < n && vals[q] == w[P.cols[q]]
  {
    RowRange(P, n, i);
    var lo, hi := P.rowPtr[i], P.rowPtr[i + 1];
    vals := vals0;
    var q := lo;
    while q < hi
      invariant lo <= q <= hi && |vals| == |vals0|
      invariant forall t :: 0 <= t < |vals| && !(lo <= t < q) ==> vals[t] == vals0[t]
      invariant forall t :: lo <= t < q ==> vals[t] == w[P.cols[t]]
    {
      vals := vals[q := w[P.cols[q]]];
      q := q + 1;
    }
  }

  /**
   * Storing the eliminated work row, with the pivot replaced by its
   * reciprocal, gives row `i` Doolittle's equations and leaves the earlier
   * rows alone.
   */
  lemma RowDone(P: Pattern, n: nat, vals: seq<real>, vals': seq<real>, M: Entries, i: int, w: seq<real>, wp: seq<real>)
    requires Shaped(P) && 0 <= i < |P.diag| && RowSorted(P, n, i) && |vals| == |vals'| == |P.cols| && |w| == n
    requires Eliminating(P, FactorEntries(P, vals), M, i, w, i)
    requires i < n && wp == w[i := Quot(1.0, w[i])]
    requires forall q :: 0 <= q < |vals| && !(P.rowPtr[i] <= q < P.rowPtr[i + 1]) ==> vals'[q] == vals[q]
    requires forall q :: P.rowPtr[i] <= q < P.rowPtr[i + 1] ==> 0 <= P.cols[q] < n && vals'[q] == wp[P.cols[q]]
    ensures SameRows(FactorEntries(P, vals), FactorEntries(P, vals'), i)
    ensures RowEliminated(P, FactorEntries(P, vals'), M, i)
  {
    var F, G := FactorEntries(P, vals), FactorEntries(P, vals');
    var R := Row(P, i);
    forall j, k | 0 <= j < i
      ensures F(j, k) == G(j, k)
    {
      assert P.rowPtr[j + 1] <= P.rowPtr[i];
      StoredFrame(P, vals, vals', j);
    }
    forall j | 0 <= j < i
      ensures Held(R, w, j) == G(i, j)
    {
      if j in R {
        var q := RowPosition(P, i, j);
        StoredAt(P, n, vals', i, q);
      } else {
        StoredOff(P, vals', i, j);
      }
    }
    forall k | k in R
      ensures Doolittle(G, M, i, k)
    {
      var q := RowPosition(P, i, k);
      StoredAt(P, n, vals', i, q);
      assert WorkEntry(F, M, i, R, w, i, k);
      DoneEntry(F, G, M, R, w, wp, i, k);
    }
  }

  /** One entry of the stored row satisfies Doolittle's equation. */
  lemma DoneEntry(F: Entries, G: Entries, M: Entries, R: seq<int>, w: seq<real>, wp: seq<real>, i: int, k: int)
    requires 0 <= i < |w| && 0 <= k < |w| && k in R && wp == w[i := Quot(1.0, w[i])]
    requires WorkEntry(F, M, i, R, w, i, k) && G(i, k) == wp[k]
    requires forall j :: 0 <= j < i ==> Held(R, w, j) == G(i, j)
    requires forall j, l :: 0 <= j < i ==> F(j, l) == G(j, l)
    ensures Doolittle(G, M, i, k)
  {
    if k < i {
      AppliedIsElim(F, G, R, w, i, k, k);
    } else {
      AppliedIsElim(F, G, R, w, i, i, k);
    }
  }

  /** Computes factor row `i` (lines 125-156). */
  method FactorRowValues(A: Csr, r: seq<int>, c: seq<int>, ic: seq<int>, P: Pattern, i: int, vals0: seq<real>, w0: seq<real>)
    returns (vals: seq<real>, w: seq<real>)
    requires Refines(P, A, r, c) && ic == Inverse(c, A.n) && 0 <= i < A.n
    requires |vals0| == |P.cols| && |w0| == A.n
    requires Eliminated(P, FactorEntries(P, vals0), PermutedEntries(A, r, c), i)
    ensures |vals| == |P.cols| && |w| == A.n
    ensures Eliminated(P, FactorEntries(P, vals), PermutedEntries(A, r, c), i + 1)
  {
    var n := A.n;
    ghost var M := PermutedEntries(A, r, c);
    assert RowSorted(P, n, i) && RowFilled(P, A, r, ic, i);
    w := ClearRow(P, n, i, w0);
    w := ScatterRow(A, r, c, ic, P, i, w);
    assert HasDiag(P) && DiagStored(P, i);
    LowerRows(P, n, i);
    w := EliminateLower(P, n, vals0, FactorEntries(P, vals0), M, i, w);
    ghost var eliminated := w;
    w := w[i := Quot(1.0, w[i])];
    vals := WriteValues(P, n, i, vals0, w);
    RowDone(P, n, vals0, vals, M, i, eliminated, w);
    EliminatedFrame(P, n, FactorEntries(P, vals0), FactorEntries(P, vals), M, i);
  }

  /**
   * `MatiAIJLUFactorNumeric`: the values of the LU factors of `A(r, c)` on
   * the pattern the symbolic phase produced.  The initial content of the
   * value array, which the C code leaves uninitialised, does not matter.
   */
  method LUFactorNumeric(A: Csr, S: Symbolic, vals0: seq<real>) returns (vals: seq<real>)
    requires Refines(S.pattern, A, S.row, S.col) && |vals0| == |S.pattern.cols|
    ensures |vals| == |S.pattern.cols|
    ensures Eliminated(S.pattern, FactorEntries(S.pattern, vals), PermutedEntries(A, S.row, S.col), A.n)
  {
    var P, n := S.pattern, A.n;
    var ic := Invert(S.col, n);
    var w := Zeros(n);
    vals := vals0;
    var i := 0;
    while i < n
      invariant 0 <= i <= n && |vals| == |P.cols| && |w| == n
      invariant Eliminated(P, FactorEntries(P, vals), PermutedEntries(A, S.row, S.col), i)
    {
      vals, w := FactorRowValues(A, S.row, S.col, ic, P, i, vals, w);
      i := i + 1;
    }
  }
}
