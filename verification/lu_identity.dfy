/**
 * What the numeric factor means: the unit lower triangular L held left of
 * the diagonal, times the upper triangular U held on and right of it (the
 * diagonal stored as the reciprocal of the pivot), is the permuted matrix
 * `A(r, c)`, whenever no pivot is zero.  The algebra is done once for any
 * support that is closed under fill, and then instantiated with the
 * symbolic pattern.
 */
module LuFactors {
  import opened Dense
  import opened AijMatrix
  import opened Permutations
  import opened AijPattern
  import opened AijSymbolic
  import opened AijNumeric

  /** Entry `(i, j)` of the unit lower triangular factor held in `F`. */
  function LowerOf(F: Entries, i: int, j: int): real
  {
    if j < i then F(i, j) else if j == i then 1.0 else 0.0
  }

  /** Entry `(j, k)` of the upper triangular factor held in `F`, whose diagonal holds pivot reciprocals. */
  function UpperOf(F: Entries, j: int, k: int): real
  {
    if k < j then 0.0 else if k == j then Quot(1.0, F(j, j)) else F(j, k)
  }

  /** The term `j` of entry `(i, k)` of `L U`. */
  function ProductTerm(F: Entries, i: int, k: int): int -> real
  {
    j => LowerOf(F, i, j) * UpperOf(F, j, k)
  }

  /** Entry `(i, k)` of the product `L U` of the `n` by `n` factors held in `F`. */
  function ProductEntry(F: Entries, n: int, i: int, k: int): real
  {
    Sum(0, n, ProductTerm(F, i, k))
  }

  /**
   * `F` factors `M` on the support `S` of an `n` by `n` pattern: Doolittle's
   * equations hold on the support, both vanish off it, the diagonal is in it
   * with nonzero stored reciprocals, and it is closed under fill (row `i`
   * holds the U part of every earlier row `j` it holds).
   */
  ghost predicate Factors(S: (int, int) -> bool, F: Entries, M: Entries, n: int)
  {
    && (forall i, k :: 0 <= i < n && 0 <= k < n && S(i, k) ==> Doolittle(F, M, i, k))
    && (forall i, k :: 0 <= i < n && 0 <= k < n && !S(i, k) ==> F(i, k) == 0.0 && M(i, k) == 0.0)
    && (forall i :: 0 <= i < n ==> S(i, i) && F(i, i) != 0.0)
    && (forall i, j, k :: 0 <= j < i < n && j < k < n && S(i, j) && S(j, k) ==> S(i, k))
  }

  /** The terms of `L U` past the diagonal of L vanish, leaving the earlier rows and the U entry of row `i`. */
  lemma ProductHead(F: Entries, n: int, i: int, k: int)
    requires 0 <= i < n
    ensures ProductEntry(F, n, i, k) == Sum(0, i, ProductTerm(F, i, k)) + UpperOf(F, i, k)
  {
    var T := ProductTerm(F, i, k);
    SumSplit(0, i + 1, n, T);
    forall j | i + 1 <= j < n
      ensures T(j) == 0.0
    {
    }
    SumZero(i + 1, n, T);
    assert T(i) == UpperOf(F, i, k);
  }

  /** On and right of the diagonal, the earlier rows contribute the elimination sum. */
  lemma ProductRight(F: Entries, i: int, k: int)
    requires 0 <= i <= k
    ensures Sum(0, i, ProductTerm(F, i, k)) == Elim(F, i, i, k)
  {
    var T, E := ProductTerm(F, i, k), ElimTerm(F, i, k);
    forall j | 0 <= j < i
      ensures T(j) == E(j)
    {
    }
    SumExt(0, i, T, E);
  }

  /** Left of the diagonal, the earlier rows contribute the elimination sum and the L entry over the pivot reciprocal. */
  lemma ProductLeft(F: Entries, i: int, k: int)
    requires 0 <= k < i
    ensures Sum(0, i, ProductTerm(F, i, k)) == Elim(F, i, k, k) + F(i, k) * Quot(1.0, F(k, k))
  {
    var T, E := ProductTerm(F, i, k), ElimTerm(F, i, k);
    SumSplit(0, k + 1, i, T);
    forall j | k + 1 <= j < i
      ensures T(j) == 0.0
    {
    }
    SumZero(k + 1, i, T);
    assert T(k) == F(i, k) * Quot(1.0, F(k, k));
    forall j | 0 <= j < k
      ensures T(j) == E(j)
    {
    }
    SumExt(0, k, T, E);
  }

  /** Elimination subtracts nothing from an entry that no earlier row reaches. */
  lemma ElimNone(F: Entries, i: int, b: int, k: int)
    requires forall j :: 0 <= j < b ==> F(i, j) == 0.0 || F(j, k) == 0.0
    ensures Elim(F, i, b, k) == 0.0
  {
    forall j | 0 <= j < b
      ensures ElimTerm(F, i, k)(j) == 0.0
    {
    }
    SumZero(0, b, ElimTerm(F, i, k));
  }

  /**
   * Off a support closed under fill, both factors and the matrix vanish, and
   * no earlier row held by row `i` holds column `k`.
   */
  lemma OffSupport(S: (int, int) -> bool, F: Entries, M: Entries, n: int, i: int, k: int)
    requires Factors(S, F, M, n) && 0 <= i < n && 0 <= k < n && !S(i, k)
    ensures i != k && F(i, k) == 0.0 && M(i, k) == 0.0
    ensures forall j :: 0 <= j < i && j < k ==> F(i, j) == 0.0 || F(j, k) == 0.0
  {
  }

  /** The reciprocal of a nonzero reciprocal is the original value. */
  lemma QuotInverse(x: real, y: real)
    requires x == Quot(1.0, y) && x != 0.0
    ensures Quot(1.0, x) == y
  {
    assert y != 0.0 && x * y == 1.0;
    var z := Quot(1.0, x);
    assert z * x == 1.0;
    assert (z - y) * x == 0.0;
  }

  /** A value scaled by a nonzero factor and then divided by it is unchanged. */
  lemma QuotCancel(a: real, f: real, q: real)
    requires f != 0.0 && q == Quot(1.0, f)
    ensures (a * f) * q == a
  {
    assert q * f == 1.0;
    assert (a * f) * q == a * (q * f);
  }

  /** On the diagonal, elimination plus the reciprocal of the stored reciprocal is the matrix entry. */
  lemma PivotEntry(e: real, m: real, f: real)
    requires f == Quot(1.0, m - e) && f != 0.0
    ensures e + Quot(1.0, f) == m
  {
    QuotInverse(f, m - e);
  }

  /** A diagonal entry of `L U` is the matrix entry when the stored pivot reciprocal is nonzero. */
  lemma ProductDiagonal(F: Entries, M: Entries, n: int, i: int)
    requires 0 <= i < n && Doolittle(F, M, i, i) && F(i, i) != 0.0
    ensures ProductEntry(F, n, i, i) == M(i, i)
  {
    ProductHead(F, n, i, i);
    ProductRight(F, i, i);
    PivotEntry(Elim(F, i, i, i), M(i, i), F(i, i));
  }

  /** An entry of `L U` left of the diagonal, on the support, is the matrix entry when pivot `k` is nonzero. */
  lemma ProductLower(F: Entries, M: Entries, n: int, i: int, k: int)
    requires 0 <= k < i < n && Doolittle(F, M, i, k) && F(k, k) != 0.0
    ensures ProductEntry(F, n, i, k) == M(i, k)
  {
    ProductHead(F, n, i, k);
    ProductLeft(F, i, k);
    QuotCancel(M(i, k) - Elim(F, i, k, k), F(k, k), Quot(1.0, F(k, k)));
  }

  /** An entry of `L U` right of the diagonal, on the support, is the matrix entry. */
  lemma ProductUpper(F: Entries, M: Entries, n: int, i: int, k: int)
    requires 0 <= i < k < n && Doolittle(F, M, i, k)
    ensures ProductEntry(F, n, i, k) == M(i, k)
  {
    ProductHead(F, n, i, k);
    ProductRight(F, i, k);
  }

  /** Off the support, `L U` and the matrix are both zero. */
  lemma ProductOff(F: Entries, M: Entries, n: int, i: int, k: int)
    requires 0 <= i < n && 0 <= k < n && i != k && F(i, k) == 0.0 && M(i, k) == 0.0
    requires forall j :: 0 <= j < i && j < k ==> F(i, j) == 0.0 || F(j, k) == 0.0
    ensures ProductEntry(F, n, i, k) == M(i, k)
  {
    ProductHead(F, n, i, k);
    if i < k {
      ProductRight(F, i, k);
      ElimNone(F, i, i, k);
    } else {
      ProductLeft(F, i, k);
      ElimNone(F, i, k, k);
    }
  }

  /** `L U = M` entrywise when `F` factors `M` on a support closed under fill. */
  lemma ProductIsMatrix(S: (int, int) -> bool, F: Entries, M: Entries, n: int, i: int, k: int)
    requires Factors(S, F, M, n) && 0 <= i < n && 0 <= k < n
    ensures ProductEntry(F, n, i, k) == M(i, k)
  {
    if !S(i, k) {
      OffSupport(S, F, M, n, i, k);
      ProductOff(F, M, n, i, k);
    } else if k == i {
      ProductDiagonal(F, M, n, i);
    } else if k < i {
      ProductLower(F, M, n, i, k);
    } else {
      ProductUpper(F, M, n, i, k);
    }
  }

  // ----- the symbolic pattern as the support -----

  /** Column `k` is on row `i` of the pattern. */
  predicate InPattern(P: Pattern, i: int, k: int)
  {
    Shaped(P) && 0 <= i < |P.diag| && k in Row(P, i)
  }

  /** The support given by the pattern. */
  function Support(P: Pattern): (int, int) -> bool
  {
    (i, k) => InPattern(P, i, k)
  }

  /** A stored diagonal lies on its row. */
  lemma DiagonalInRow(P: Pattern, i: int)
    requires Shaped(P) && 0 <= i < |P.diag| && DiagStored(P, i)
    ensures i in Row(P, i)
  {
    assert Row(P, i)[P.diag[i] - P.rowPtr[i]] == i;
  }

  /** A column of row `j` right of `j` is in the U part of row `j`. */
  lemma RightIsUpper(P: Pattern, n: nat, j: int, k: int)
    requires Shaped(P) && 0 <= j < |P.diag| && RowSorted(P, n, j)
    requires k in Row(P, j) && j < k
    ensures k in Upper(P, j)
  {
    var q := RowPosition(P, j, k);
    LowerBelow(P, n, j);
    assert Upper(P, j)[q - P.diag[j]] == k;
  }

  /** A column of the permuted matrix off the pattern holds zero. */
  lemma PermutedOff(P: Pattern, A: Csr, r: seq<int>, c: seq<int>, i: int, k: int)
    requires Refines(P, A, r, c) && 0 <= i < A.n && 0 <= k < A.n && k !in Row(P, i)
    ensures Permuted(A, r, c, i, k) == 0.0
  {
    var ic := Inverse(c, A.n);
    assert RowFilled(P, A, r, ic, i);
    var lo, hi := A.rowPtr[r[i]], A.rowPtr[r[i] + 1];
    assert hi <= A.rowPtr[A.m];
    forall p | lo <= p < hi
      ensures A.cols[p] != c[k]
    {
      assert ic[A.cols[p]] in Row(P, i);
      assert ic[c[k]] == k;
    }
    FindLastAbsent(A.cols, A.vals, lo, hi, c[k]);
  }

  /** The permuted matrix read densely is `A(r[i], c[k])`. */
  lemma PermutedIsEntry(A: Csr, r: seq<int>, c: seq<int>, i: int, k: int)
    requires WellFormed(A) && A.m == A.n && IsPermutation(r, A.n) && IsPermutation(c, A.n)
    requires 0 <= i < A.n && 0 <= k < A.n
    ensures Permuted(A, r, c, i, k) == Entry(A, r[i], c[k])
  {
    assert A.rowPtr[r[i] + 1] <= A.rowPtr[A.m];
  }

  /** The numeric factor on its pattern satisfies `Factors` when no pivot reciprocal is zero. */
  lemma PatternFactors(A: Csr, S: Symbolic, vals: seq<real>)
    requires Refines(S.pattern, A, S.row, S.col) && |vals| == |S.pattern.cols|
    requires Eliminated(S.pattern, FactorEntries(S.pattern, vals), PermutedEntries(A, S.row, S.col), A.n)
    requires forall j :: 0 <= j < A.n ==> Stored(S.pattern, vals, j, j) != 0.0
    ensures Factors(Support(S.pattern), FactorEntries(S.pattern, vals), PermutedEntries(A, S.row, S.col), A.n)
  {
    var P, n := S.pattern, A.n;
    var Sp, F, M := Support(P), FactorEntries(P, vals), PermutedEntries(A, S.row, S.col);
    forall i, k | 0 <= i < n && 0 <= k < n && Sp(i, k)
      ensures Doolittle(F, M, i, k)
    {
      assert RowEliminated(P, F, M, i);
    }
    forall i, k | 0 <= i < n && 0 <= k < n && !Sp(i, k)
      ensures F(i, k) == 0.0 && M(i, k) == 0.0
    {
      StoredOff(P, vals, i, k);
      PermutedOff(P, A, S.row, S.col, i, k);
    }
    forall i | 0 <= i < n
      ensures Sp(i, i) && F(i, i) != 0.0
    {
      assert DiagStored(P, i);
      DiagonalInRow(P, i);
    }
    forall i, j, k | 0 <= j < i < n && j < k < n && Sp(i, j) && Sp(j, k)
      ensures Sp(i, k)
    {
      assert RowSorted(P, n, j) && RowFilled(P, A, S.row, Inverse(S.col, n), i);
      RightIsUpper(P, n, j, k);
    }
  }

  /**
   * The numeric factor is an LU factorisation of the permuted matrix: with
   * no zero pivot, `(L U)(i, k) = A(r[i], c[k])` for every entry.
   */
  lemma LuIdentity(A: Csr, S: Symbolic, vals: seq<real>)
    requires Refines(S.pattern, A, S.row, S.col) && |vals| == |S.pattern.cols|
    requires Eliminated(S.pattern, FactorEntries(S.pattern, vals), PermutedEntries(A, S.row, S.col), A.n)
    requires forall j :: 0 <= j < A.n ==> Stored(S.pattern, vals, j, j) != 0.0
    ensures forall i, k :: 0 <= i < A.n && 0 <= k < A.n ==>
      ProductEntry(FactorEntries(S.pattern, vals), A.n, i, k) == Entry(A, S.row[i], S.col[k])
  {
    var F, M := FactorEntries(S.pattern, vals), PermutedEntries(A, S.row, S.col);
    PatternFactors(A, S, vals);
    forall i, k | 0 <= i < A.n && 0 <= k < A.n
      ensures ProductEntry(F, A.n, i, k) == Entry(A, S.row[i], S.col[k])
    {
      ProductIsMatrix(Support(S.pattern), F, M, A.n, i, k);
      PermutedIsEntry(A, S.row, S.col, i, k);
    }
  }
}
