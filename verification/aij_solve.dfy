/**
 * The triangular solves with the numeric LU factor (`MatiAIJSolve`,
 * aijfact.c): a forward substitution with the unit lower triangle on the
 * permuted right-hand side `b[r[i]]`, then a backward substitution with the
 * upper triangle, whose diagonal holds pivot reciprocals, scattered into
 * `x[c[i]]`.  With the LU identity this gives `A x = b`.
 */
module AijSolve {
  import opened Dense
  import opened AijMatrix
  import opened Permutations
  import opened AijPattern
  import opened AijSymbolic
  import opened AijNumeric
  import opened LuFactors

  /** Entry `j` of `y`, and zero outside it. */
  function At(y: seq<real>, j: int): real
  {
    if 0 <= j < |y| then y[j] else 0.0
  }

  /** Term `j` of row `i` of `F` applied to `y`. */
  function RowTerm(F: Entries, i: int, y: seq<real>): int -> real
  {
    j => F(i, j) * At(y, j)
  }

  /** `sum_{a <= p < e} vals[p] y[cols[p]]`: the sparse products the solve loops subtract. */
  function RowDot(cols: seq<int>, vals: seq<real>, a: int, e: int, y: seq<real>): real
    requires 0 <= a <= e <= |cols| && e <= |vals|
    decreases e - a
  {
    if e <= a then 0.0 else RowDot(cols, vals, a, e - 1, y) + vals[e - 1] * At(y, cols[e - 1])
  }

  /** The factor the solve reads: a sorted pattern of `n` rows, each storing its diagonal, with its values. */
  ghost predicate SolvableFactor(P: Pattern, n: nat, vals: seq<real>)
  {
    && Shaped(P) && |P.diag| == n && |vals| == |P.cols| && HasDiag(P)
    && (forall i :: 0 <= i < n ==> RowSorted(P, n, i))
  }

  /** Column `k` is not held by row `i` when no position of the row holds it. */
  lemma NotInRow(P: Pattern, i: int, k: int)
    requires Shaped(P) && 0 <= i < |P.diag|
    requires forall p :: P.rowPtr[i] <= p < P.rowPtr[i + 1] ==> P.cols[p] != k
    ensures k !in Row(P, i)
  {
    assert P.rowPtr[i + 1] <= P.rowPtr[|P.diag|];
    forall q | 0 <= q < |Row(P, i)|
      ensures Row(P, i)[q] != k
    {
      assert Row(P, i)[q] == P.cols[P.rowPtr[i] + q];
    }
  }

  /** Positions `a .. e-1` of row `i` hold its columns in `s .. t-1`; the positions before hold smaller columns and those after larger. */
  ghost predicate Window(P: Pattern, i: int, a: int, e: int, s: int, t: int)
    requires Shaped(P) && 0 <= i < |P.diag|
  {
    && P.rowPtr[i] <= a <= e <= P.rowPtr[i + 1] <= |P.cols|
    && (forall p :: P.rowPtr[i] <= p < a ==> P.cols[p] < s)
    && (forall p :: a <= p < e ==> s <= P.cols[p] < t)
    && (forall p :: e <= p < P.rowPtr[i + 1] ==> t <= P.cols[p])
  }

  /** When position `e-1` holds column `t-1`, the window shrinks by one position and one column. */
  lemma WindowTake(P: Pattern, n: nat, vals: seq<real>, i: int, a: int, e: int, s: int, t: int)
    requires Shaped(P) && 0 <= i < |P.diag| && RowSorted(P, n, i) && |vals| == |P.cols|
    requires Window(P, i, a, e, s, t) && a < e && P.cols[e - 1] == t - 1
    ensures Window(P, i, a, e - 1, s, t - 1)
    ensures FactorEntries(P, vals)(i, t - 1) == vals[e - 1]
  {
    RowOrder(P, n, i);
    StoredAt(P, n, vals, i, e - 1);
  }

  /** When position `e-1` does not hold column `t-1`, no position does, and the window loses that column. */
  lemma WindowSkip(P: Pattern, n: nat, vals: seq<real>, i: int, a: int, e: int, s: int, t: int)
    requires Shaped(P) && 0 <= i < |P.diag| && RowSorted(P, n, i) && |vals| == |P.cols|
    requires Window(P, i, a, e, s, t) && s < t && !(a < e && P.cols[e - 1] == t - 1)
    ensures Window(P, i, a, e, s, t - 1)
    ensures FactorEntries(P, vals)(i, t - 1) == 0.0
  {
    RowOrder(P, n, i);
    assert forall p :: a <= p < e ==> P.cols[p] <= P.cols[e - 1];
    NotInRow(P, i, t - 1);
    StoredOff(P, vals, i, t - 1);
  }

  /** One more column of a row's dense products. */
  lemma SumStep(F: Entries, i: int, y: seq<real>, s: int, t: int, d: real, v: real)
    requires s < t && F(i, t - 1) == v && d == Sum(s, t - 1, RowTerm(F, i, y))
    ensures d + v * At(y, t - 1) == Sum(s, t, RowTerm(F, i, y))
  {
  }

  /**
   * The sparse products over positions `a .. e-1` of row `i` are the dense
   * products over columns `s .. t-1`, when those positions hold exactly the
   * row's columns in that range.
   */
  lemma {:induction false} SparseIsDense(P: Pattern, n: nat, vals: seq<real>, F: Entries, i: int, a: int, e: int, s: int, t: int, y: seq<real>)
    requires Shaped(P) && 0 <= i < |P.diag| && RowSorted(P, n, i) && |vals| == |P.cols| && F == FactorEntries(P, vals)
    requires Window(P, i, a, e, s, t) && s <= t
    ensures RowDot(P.cols, vals, a, e, y) == Sum(s, t, RowTerm(F, i, y))
    decreases t - s
  {
    if s < t {
      if a < e && P.cols[e - 1] == t - 1 {
        WindowTake(P, n, vals, i, a, e, s, t);
        SparseIsDense(P, n, vals, F, i, a, e - 1, s, t - 1, y);
        SumStep(F, i, y, s, t, RowDot(P.cols, vals, a, e - 1, y), vals[e - 1]);
      } else {
        WindowSkip(P, n, vals, i, a, e, s, t);
        SparseIsDense(P, n, vals, F, i, a, e, s, t - 1, y);
        SumStep(F, i, y, s, t, RowDot(P.cols, vals, a, e, y), 0.0);
      }
    }
  }

  /** Left of its stored diagonal, row `i` holds exactly its columns below `i`. */
  lemma ForwardRow(P: Pattern, n: nat, vals: seq<real>, i: int, y: seq<real>)
    requires Shaped(P) && 0 <= i < |P.diag| && RowSorted(P, n, i) && DiagStored(P, i) && |vals| == |P.cols|
    ensures P.diag[i] <= |P.cols|
    ensures RowDot(P.cols, vals, P.rowPtr[i], P.diag[i], y) == Sum(0, i, RowTerm(FactorEntries(P, vals), i, y))
  {
    RowRange(P, n, i);
    LowerBelow(P, n, i);
    UpperAbove(P, n, i);
    SparseIsDense(P, n, vals, FactorEntries(P, vals), i, P.rowPtr[i], P.diag[i], 0, i, y);
  }

  /** Right of its stored diagonal, row `i` holds exactly its columns above `i`. */
  lemma BackwardRow(P: Pattern, n: nat, vals: seq<real>, i: int, z: seq<real>)
    requires Shaped(P) && 0 <= i < |P.diag| && i < n && RowSorted(P, n, i) && DiagStored(P, i) && |vals| == |P.cols|
    ensures RowDot(P.cols, vals, P.diag[i] + 1, P.rowPtr[i + 1], z) == Sum(i + 1, n, RowTerm(FactorEntries(P, vals), i, z))
  {
    UpperColumns(P, n, i);
    LowerBelow(P, n, i);
    SparseIsDense(P, n, vals, FactorEntries(P, vals), i, P.diag[i] + 1, P.rowPtr[i + 1], i + 1, n, z);
  }

  /** A row's products read only the entries of `y` in the columns summed. */
  lemma RowTermFrame(F: Entries, i: int, s: int, t: int, y: seq<real>, y': seq<real>)
    requires forall j :: s <= j < t ==> At(y, j) == At(y', j)
    ensures Sum(s, t, RowTerm(F, i, y)) == Sum(s, t, RowTerm(F, i, y'))
  {
    SumExt(s, t, RowTerm(F, i, y), RowTerm(F, i, y'));
  }

  /** Row `i` of a solvable factor, with the facts both substitutions read. */
  lemma SolveRow(P: Pattern, n: nat, vals: seq<real>, i: int)
    requires SolvableFactor(P, n, vals) && 0 <= i < n
    ensures 0 <= P.rowPtr[i] <= P.diag[i] < P.rowPtr[i + 1] <= |P.cols| == |vals|
    ensures P.cols[P.diag[i]] == i
    ensures forall p :: P.rowPtr[i] <= p < P.diag[i] ==> 0 <= P.cols[p] < i
    ensures forall p :: P.diag[i] < p < P.rowPtr[i + 1] ==> i < P.cols[p] < n
    ensures RowSorted(P, n, i) && DiagStored(P, i)
  {
    assert RowSorted(P, n, i) && DiagStored(P, i);
    assert P.rowPtr[0] <= P.rowPtr[i];
    RowRange(P, n, i);
    LowerBelow(P, n, i);
    UpperColumns(P, n, i);
  }

  /**
   * `sum0` less the products of positions `a .. e-1` with the entries of `y`
   * they name: the inner loops of both substitutions.
   */
  method SubtractRow(cols: seq<int>, vals: seq<real>, a: int, e: int, y: seq<real>, sum0: real) returns (sum: real)
    requires 0 <= a <= e <= |cols| && e <= |vals|
    requires forall p :: a <= p < e ==> 0 <= cols[p] < |y|
    ensures sum == sum0 - RowDot(cols, vals, a, e, y)
  {
    sum := sum0;
    var p := a;
    while p < e
      invariant a <= p <= e
      invariant sum == sum0 - RowDot(cols, vals, a, p, y)
    {
      sum := sum - vals[p] * y[cols[p]];
      p := p + 1;
    }
  }

  /** Entry `|y|` of the forward substitution extends the rows already solved. */
  lemma ForwardStep(P: Pattern, n: nat, vals: seq<real>, r: seq<int>, b: seq<real>, y: seq<real>, sum: real)
    requires SolvableFactor(P, n, vals) && IsPermutation(r, n) && |b| == n && |y| < n
    requires forall k :: 0 <= k < |y| ==> y[k] == b[r[k]] - Sum(0, k, RowTerm(FactorEntries(P, vals), k, y))
    requires P.diag[|y|] <= |P.cols|
    requires sum == b[r[|y|]] - RowDot(P.cols, vals, P.rowPtr[|y|], P.diag[|y|], y)
    ensures forall k :: 0 <= k <= |y| ==> (y + [sum])[k] == b[r[k]] - Sum(0, k, RowTerm(FactorEntries(P, vals), k, y + [sum]))
  {
    var F, i, y' := FactorEntries(P, vals), |y|, y + [sum];
    SolveRow(P, n, vals, i);
    ForwardRow(P, n, vals, i, y);
    forall k | 0 <= k <= i
      ensures y'[k] == b[r[k]] - Sum(0, k, RowTerm(F, k, y'))
    {
      RowTermFrame(F, k, 0, k, y, y');
    }
  }

  /**
   * The forward substitution (aijfact.c, the first loop of `MatiAIJSolve`):
   * `y[i]` is `b[r[i]]` less the products of row `i` left of its diagonal
   * with the entries already found, which solves `L y = b(r)` for the unit
   * lower triangle `L`.  The C code reads `b[r[0]]` unconditionally, so the
   * system has at least one row.
   */
  method ForwardSolve(P: Pattern, n: nat, vals: seq<real>, r: seq<int>, b: seq<real>) returns (y: seq<real>)
    requires SolvableFactor(P, n, vals) && IsPermutation(r, n) && |b| == n && n >= 1
    ensures |y| == n
    ensures forall i :: 0 <= i < n ==> y[i] == b[r[i]] - Sum(0, i, RowTerm(FactorEntries(P, vals), i, y))
  {
    y := [b[r[0]]];
    var i := 1;
    while i < n
      invariant 1 <= i <= n && |y| == i
      invariant forall k :: 0 <= k < i ==> y[k] == b[r[k]] - Sum(0, k, RowTerm(FactorEntries(P, vals), k, y))
    {
      SolveRow(P, n, vals, i);
      var sum := SubtractRow(P.cols, vals, P.rowPtr[i], P.diag[i], y, b[r[i]]);
      ForwardStep(P, n, vals, r, b, y, sum);
      y := y + [sum];
      i := i + 1;
    }
  }

  /** `y` less `s`, scaled by the pivot reciprocal `f`: one step of the back substitution. */
  function BackValue(y: real, s: real, f: real): real
  {
    (y - s) * f
  }

  /** The partial sum scaled by the pivot reciprocal is the back substituted value. */
  lemma BackValueIs(y: real, s: real, f: real, rest: real)
    requires rest == y - s
    ensures rest * f == BackValue(y, s, f)
  {
  }

  /**
   * Entry `k` of `z` is back substituted: `y[k]` less the products of row `k`
   * right of the diagonal with `z`, times the stored pivot reciprocal.
   */
  ghost predicate BackSolved(F: Entries, n: int, y: seq<real>, z: seq<real>, k: int)
    requires 0 <= k < |y| && k < |z|
  {
    z[k] == BackValue(y[k], Sum(k + 1, n, RowTerm(F, k, z)), F(k, k))
  }

  /** A back substituted entry stays so while the entries it reads stay. */
  lemma BackFrame(F: Entries, n: int, y: seq<real>, z: seq<real>, z': seq<real>, k: int)
    requires 0 <= k < |y| && k < |z| && k < |z'| && z'[k] == z[k]
    requires forall j :: k + 1 <= j < n ==> At(z, j) == At(z', j)
    requires BackSolved(F, n, y, z, k)
    ensures BackSolved(F, n, y, z', k)
  {
    RowTermFrame(F, k, k + 1, n, z, z');
  }

  /** Back substituting entry `j` keeps the entries already found, and finds entry `j`. */
  lemma BackwardStep(P: Pattern, n: nat, vals: seq<real>, y: seq<real>, z: seq<real>, z': seq<real>, j: int, sum: real)
    requires SolvableFactor(P, n, vals) && |y| == n && |z| == n && 0 <= j < n && z' == z[j := sum]
    requires forall k :: j < k < n ==> BackSolved(FactorEntries(P, vals), n, y, z, k)
    requires P.diag[j] < P.rowPtr[j + 1] <= |P.cols| == |vals|
    requires sum == BackValue(y[j], RowDot(P.cols, vals, P.diag[j] + 1, P.rowPtr[j + 1], z), vals[P.diag[j]])
    ensures forall k :: j <= k < n ==> BackSolved(FactorEntries(P, vals), n, y, z', k)
  {
    var F := FactorEntries(P, vals);
    SolveRow(P, n, vals, j);
    BackwardRow(P, n, vals, j, z);
    StoredAt(P, n, vals, j, P.diag[j]);
    forall k | j < k < n
      ensures BackSolved(F, n, y, z', k)
    {
      BackFrame(F, n, y, z, z', k);
    }
    RowTermFrame(F, j, j + 1, n, z, z');
    BackEntry(F, n, y, z', j, RowDot(P.cols, vals, P.diag[j] + 1, P.rowPtr[j + 1], z), vals[P.diag[j]]);
  }

  /** The value found for entry `j` makes it back substituted. */
  lemma BackEntry(F: Entries, n: int, y: seq<real>, z: seq<real>, j: int, d: real, f: real)
    requires 0 <= j < |y| && j < |z|
    requires Sum(j + 1, n, RowTerm(F, j, z)) == d && F(j, j) == f && z[j] == BackValue(y[j], d, f)
    ensures BackSolved(F, n, y, z, j)
  {
  }

  /** Scattering entry `j` to `x[c[j]]` keeps the entries scattered before. */
  lemma ScatterStep(c: seq<int>, n: nat, z: seq<real>, x: seq<real>, j: int, v: real)
    requires IsPermutation(c, n) && |z| == n && |x| == n && 0 <= j < n
    requires forall k :: j < k < n ==> x[c[k]] == z[k]
    ensures forall k :: j <= k < n ==> x[c[j] := v][c[k]] == z[j := v][k]
  {
  }

  /** Row `i` of the backward substitution: `y[i]` less the products right of the diagonal, times the stored pivot reciprocal. */
  method BackwardEntry(P: Pattern, n: nat, vals: seq<real>, y: seq<real>, z: seq<real>, i: int) returns (sum: real)
    requires SolvableFactor(P, n, vals) && |y| == n && |z| == n && 0 <= i < n && z[i] == y[i]
    ensures P.diag[i] < P.rowPtr[i + 1] <= |P.cols| == |vals|
    ensures sum == BackValue(y[i], RowDot(P.cols, vals, P.diag[i] + 1, P.rowPtr[i + 1], z), vals[P.diag[i]])
  {
    SolveRow(P, n, vals, i);
    var rest := SubtractRow(P.cols, vals, P.diag[i] + 1, P.rowPtr[i + 1], z, z[i]);
    sum := rest * vals[P.diag[i]];
    BackValueIs(y[i], RowDot(P.cols, vals, P.diag[i] + 1, P.rowPtr[i + 1], z), vals[P.diag[i]], rest);
  }

  /**
   * The backward substitution (aijfact.c, the second loop of
   * `MatiAIJSolve`): from the last row up, `z[i]` is `y[i]` less the
   * products of row `i` right of its diagonal with the entries already found,
   * times the stored pivot reciprocal, and is scattered to `x[c[i]]`.  `z`
   * overwrites `y` in place, as the C code overwrites `tmp`.
   */
  method BackwardSolve(P: Pattern, n: nat, vals: seq<real>, c: seq<int>, y: seq<real>, x0: seq<real>) returns (z: seq<real>, x: seq<real>)
    requires SolvableFactor(P, n, vals) && IsPermutation(c, n) && |y| == n && |x0| == n
    ensures |z| == n && |x| == n
    ensures forall i :: 0 <= i < n ==> BackSolved(FactorEntries(P, vals), n, y, z, i)
    ensures forall i :: 0 <= i < n ==> x[c[i]] == z[i]
  {
    z, x := y, x0;
    var i := n;
    while i > 0
      invariant 0 <= i <= n && |z| == n && |x| == n
      invariant forall k :: 0 <= k < i ==> z[k] == y[k]
      invariant forall k :: i <= k < n ==> BackSolved(FactorEntries(P, vals), n, y, z, k)
      invariant forall k :: i <= k < n ==> x[c[k]] == z[k]
    {
      i := i - 1;
      var sum := BackwardEntry(P, n, vals, y, z, i);
      BackwardStep(P, n, vals, y, z, z[i := sum], i, sum);
      ScatterStep(c, n, z, x, i, sum);
      z := z[i := sum];
      x := x[c[i] := sum];
    }
  }

  /** Term `j` of row `i` of the unit lower triangle applied to `y`. */
  function LowerApply(F: Entries, i: int, y: seq<real>): int -> real
  {
    j => LowerOf(F, i, j) * At(y, j)
  }

  /** Term `k` of row `j` of the upper triangle applied to `z`. */
  function UpperApply(F: Entries, j: int, z: seq<real>): int -> real
  {
    k => UpperOf(F, j, k) * At(z, k)
  }

  /** Term `k` of row `i` of the product `L U` applied to `z`. */
  function ProductApply(F: Entries, n: int, i: int, z: seq<real>): int -> real
  {
    k => ProductEntry(F, n, i, k) * At(z, k)
  }

  /** Term `j` of row `i` of `L` applied to `U z`. */
  function LowerOfUpper(F: Entries, n: int, i: int, z: seq<real>): int -> real
  {
    j => LowerOf(F, i, j) * Sum(0, n, UpperApply(F, j, z))
  }

  /** The terms `L(i, j) U(j, k) z(k)` of row `i` of `L U z`, indexed by `(j, k)`. */
  function Nested(F: Entries, i: int, z: seq<real>): (int, int) -> real
  {
    (j, k) => LowerOf(F, i, j) * (UpperOf(F, j, k) * At(z, k))
  }

  /** Row `i` of `L y`: the products left of the diagonal plus `y[i]`. */
  lemma LowerRowApplied(F: Entries, n: int, i: int, y: seq<real>)
    requires 0 <= i < n && |y| == n
    ensures Sum(0, n, LowerApply(F, i, y)) == Sum(0, i, RowTerm(F, i, y)) + y[i]
  {
    var f := LowerApply(F, i, y);
    SumSplit(0, i, n, f);
    SumSplit(i, i + 1, n, f);
    SumExt(0, i, f, RowTerm(F, i, y));
    SumZero(i + 1, n, f);
  }

  /** Dividing a back substituted value by its pivot reciprocal undoes the scaling. */
  lemma PivotUndone(yi: real, s: real, f: real, zi: real)
    requires f != 0.0 && zi == BackValue(yi, s, f)
    ensures Quot(1.0, f) * zi == yi - s
  {
    QuotCancel(yi - s, f, Quot(1.0, f));
  }

  /** Row `i` of `U z` is `y[i]` when entry `i` of `z` is back substituted with a nonzero pivot. */
  lemma UpperRowApplied(F: Entries, n: int, i: int, y: seq<real>, z: seq<real>)
    requires 0 <= i < n && |y| == n && |z| == n
    requires BackSolved(F, n, y, z, i) && F(i, i) != 0.0
    ensures Sum(0, n, UpperApply(F, i, z)) == y[i]
  {
    var f := UpperApply(F, i, z);
    var s := Sum(i + 1, n, RowTerm(F, i, z));
    UpperApplyParts(F, i, z);
    SumFrom(0, i, n, f);
    SumExt(i + 1, n, f, RowTerm(F, i, z));
    PivotUndone(y[i], s, F(i, i), z[i]);
  }

  /** Row `i` of `U z` term by term: nothing left of the diagonal, the reciprocal pivot on it, `F` right of it. */
  lemma UpperApplyParts(F: Entries, i: int, z: seq<real>)
    requires 0 <= i < |z|
    ensures forall k :: k < i ==> UpperApply(F, i, z)(k) == 0.0
    ensures UpperApply(F, i, z)(i) == Quot(1.0, F(i, i)) * z[i]
    ensures forall k :: i < k ==> UpperApply(F, i, z)(k) == RowTerm(F, i, z)(k)
  {
  }

  /** The reordering of a triple product that moves the vector entry to the front. */
  lemma Reassociate(a: real, b: real, c: real)
    ensures a * (b * c) == c * (a * b)
  {
  }

  /** Entry `k` of `(L U) z` as the column sum of the nested terms. */
  lemma ProductColumn(F: Entries, n: int, i: int, z: seq<real>, k: int)
    ensures ProductApply(F, n, i, z)(k) == ColumnSums(Nested(F, i, z), n)(k)
  {
    var T := Nested(F, i, z);
    var c := At(z, k);
    var s := Sum(0, n, ProductTerm(F, i, k));
    forall j | 0 <= j < n
      ensures Column(T, k)(j) == c * ProductTerm(F, i, k)(j)
    {
      Reassociate(LowerOf(F, i, j), UpperOf(F, j, k), c);
    }
    SumScale(0, n, c, ProductTerm(F, i, k), Column(T, k));
    assert ProductApply(F, n, i, z)(k) == s * c;
    assert ColumnSums(T, n)(k) == c * s;
  }

  /** Term `j` of `L (U z)` as the row sum of the nested terms. */
  lemma ProductRow(F: Entries, n: int, i: int, z: seq<real>, j: int)
    ensures RowSums(Nested(F, i, z), n)(j) == LowerOfUpper(F, n, i, z)(j)
  {
    var T := Nested(F, i, z);
    SumScale(0, n, LowerOf(F, i, j), UpperApply(F, j, z), RowOf(T, j));
  }

  /** Row `i` of `(L U) z` is row `i` of `L (U z)`. */
  lemma ProductApplied(F: Entries, n: int, i: int, z: seq<real>)
    requires 0 <= n
    ensures Sum(0, n, ProductApply(F, n, i, z)) == Sum(0, n, LowerOfUpper(F, n, i, z))
  {
    var T := Nested(F, i, z);
    forall k | 0 <= k < n
      ensures ProductApply(F, n, i, z)(k) == ColumnSums(T, n)(k)
    {
      ProductColumn(F, n, i, z, k);
    }
    SumExt(0, n, ProductApply(F, n, i, z), ColumnSums(T, n));
    SumSwap(n, n, T);
    forall j | 0 <= j < n
      ensures RowSums(T, n)(j) == LowerOfUpper(F, n, i, z)(j)
    {
      ProductRow(F, n, i, z, j);
    }
    SumExt(0, n, RowSums(T, n), LowerOfUpper(F, n, i, z));
  }

  /**
   * The two substitutions solve `L U z = b(r)`: when `y` is forward solved
   * from `b(r)`, `z` is back substituted from `y`, and every pivot
   * reciprocal is nonzero, row `i` of `L U z` is `b[r[i]]`.
   */
  lemma TriangularSolved(F: Entries, n: nat, r: seq<int>, b: seq<real>, y: seq<real>, z: seq<real>)
    requires IsPermutation(r, n) && |b| == n && |y| == n && |z| == n
    requires forall i :: 0 <= i < n ==> y[i] == b[r[i]] - Sum(0, i, RowTerm(F, i, y))
    requires forall i :: 0 <= i < n ==> BackSolved(F, n, y, z, i)
    requires forall j :: 0 <= j < n ==> F(j, j) != 0.0
    ensures forall i :: 0 <= i < n ==> Sum(0, n, ProductApply(F, n, i, z)) == b[r[i]]
  {
    forall i | 0 <= i < n
      ensures Sum(0, n, ProductApply(F, n, i, z)) == b[r[i]]
    {
      ProductApplied(F, n, i, z);
      forall j | 0 <= j < n
        ensures LowerOfUpper(F, n, i, z)(j) == LowerApply(F, i, y)(j)
      {
        UpperRowApplied(F, n, j, y, z);
      }
      SumExt(0, n, LowerOfUpper(F, n, i, z), LowerApply(F, i, y));
      LowerRowApplied(F, n, i, y);
    }
  }

  /** `x` read through `c`: entry `k` is `x[c[k]]`. */
  function Gather(x: seq<real>, c: seq<int>): seq<real>
  {
    seq(|c|, k requires 0 <= k < |c| => At(x, c[k]))
  }

  /** Every pivot reciprocal the factor stores is nonzero, that is every pivot is. */
  ghost predicate NonzeroPivots(P: Pattern, n: int, vals: seq<real>)
  {
    forall j :: 0 <= j < n ==> Stored(P, vals, j, j) != 0.0
  }

  /**
   * `MatiAIJSolve` (aijfact.c): the forward substitution into the work
   * vector, then the backward substitution in place, scattered to `x`
   * through the column permutation.  With nonzero pivots, `x` read through
   * `c` solves `L U z = b(r)`.
   */
  method Solve(P: Pattern, n: nat, vals: seq<real>, r: seq<int>, c: seq<int>, b: seq<real>, x0: seq<real>) returns (x: seq<real>)
    requires SolvableFactor(P, n, vals) && IsPermutation(r, n) && IsPermutation(c, n)
    requires |b| == n && |x0| == n && n >= 1
    ensures |x| == n
    ensures NonzeroPivots(P, n, vals) ==>
      forall i :: 0 <= i < n ==> Sum(0, n, ProductApply(FactorEntries(P, vals), n, i, Gather(x, c))) == b[r[i]]
  {
    var y := ForwardSolve(P, n, vals, r, b);
    var z;
    z, x := BackwardSolve(P, n, vals, c, y, x0);
    assert Gather(x, c) == z;
    if NonzeroPivots(P, n, vals) {
      TriangularSolved(FactorEntries(P, vals), n, r, b, y, z);
    }
  }

  /** A factor refining a matrix is one the solve can read. */
  lemma RefinedSolvable(A: Csr, S: Symbolic, vals: seq<real>)
    requires Refines(S.pattern, A, S.row, S.col) && |vals| == |S.pattern.cols|
    ensures SolvableFactor(S.pattern, A.n, vals)
  {
  }

  /** Term `col` of row `row` of `A x`. */
  function MatrixApply(A: Csr, row: int, x: seq<real>): int -> real
    requires WellFormed(A) && 0 <= row < A.m
  {
    col => Entry(A, row, col) * At(x, col)
  }

  /** The terms of `g` read through `c`: term `k` is `g(c[k])`. */
  function Through(g: int -> real, c: seq<int>): int -> real
  {
    k => if 0 <= k < |c| then g(c[k]) else 0.0
  }

  /** Moving the entry `n-1` to the end and dropping it leaves a permutation of `n-1`. */
  lemma DropLast(c: seq<int>, n: nat, q: int)
    requires IsPermutation(c, n) && 0 <= q < n && c[q] == n - 1
    ensures IsPermutation(c[q := c[n - 1]][..n - 1], n - 1)
  {
    var c' := c[q := c[n - 1]][..n - 1];
    forall k | 0 <= k < n - 1
      ensures 0 <= c'[k] < n - 1
    {
      if k == q {
        assert c[n - 1] != c[q];
      } else {
        assert c[k] != c[q];
      }
    }
  }

  /** A sum is unchanged when its terms are read through a permutation. */
  lemma {:induction false} SumPermuted(n: nat, c: seq<int>, g: int -> real)
    requires IsPermutation(c, n)
    ensures Sum(0, n, Through(g, c)) == Sum(0, n, g)
    decreases n
  {
    if n > 0 {
      var m := n - 1;
      PermutationOnto(c, n, m);
      var q :| 0 <= q < n && c[q] == m;
      var c' := c[q := c[m]][..m];
      DropLast(c, n, q);
      SumPermuted(m, c', g);
      if q < m {
        SumPoint(0, m, q, Through(g, c'), Through(g, c));
      } else {
        SumExt(0, m, Through(g, c'), Through(g, c));
      }
    }
  }

  /** Row `i` of `L U` applied to `x` read through `c` is row `row` of `A x`, when the two rows agree entrywise. */
  lemma RowThrough(A: Csr, F: Entries, n: nat, c: seq<int>, x: seq<real>, i: int, row: int)
    requires WellFormed(A) && A.m == n && IsPermutation(c, n) && |x| == n && 0 <= row < n
    requires forall k :: 0 <= k < n ==> ProductEntry(F, n, i, k) == Entry(A, row, c[k])
    ensures Sum(0, n, ProductApply(F, n, i, Gather(x, c))) == Sum(0, n, MatrixApply(A, row, x))
  {
    forall k | 0 <= k < n
      ensures ProductApply(F, n, i, Gather(x, c))(k) == Through(MatrixApply(A, row, x), c)(k)
    {
    }
    SumExt(0, n, ProductApply(F, n, i, Gather(x, c)), Through(MatrixApply(A, row, x), c));
    SumPermuted(n, c, MatrixApply(A, row, x));
  }

  /**
   * The solve inverts the matrix: when `x` solves `L U z = b(r)` through `c`
   * for the numeric factor of `A(r, c)` with nonzero pivots, row `row` of
   * `A x` is `b[row]` for every row.
   */
  lemma SolveSolves(A: Csr, S: Symbolic, vals: seq<real>, b: seq<real>, x: seq<real>)
    requires Refines(S.pattern, A, S.row, S.col) && |vals| == |S.pattern.cols|
    requires Eliminated(S.pattern, FactorEntries(S.pattern, vals), PermutedEntries(A, S.row, S.col), A.n)
    requires NonzeroPivots(S.pattern, A.n, vals) && |b| == A.n && |x| == A.n
    requires forall i :: 0 <= i < A.n ==>
      Sum(0, A.n, ProductApply(FactorEntries(S.pattern, vals), A.n, i, Gather(x, S.col))) == b[S.row[i]]
    ensures forall row :: 0 <= row < A.n ==> Sum(0, A.n, MatrixApply(A, row, x)) == b[row]
  {
    var n, F, r, c := A.n, FactorEntries(S.pattern, vals), S.row, S.col;
    LuIdentity(A, S, vals);
    var q := Inverse(r, n);
    forall row | 0 <= row < n
      ensures Sum(0, n, MatrixApply(A, row, x)) == b[row]
    {
      RowThrough(A, F, n, c, x, q[row], row);
    }
  }
}
