/**
 * Factorisation and triangular solves of the block-diagonal format
 * (bdfact.c), for point blocks (`nb == 1`).  A matrix in this format stores
 * `nd` diagonals; diagonal `d` has offset `diag[d]` (row minus column) and
 * its values in `dv[d]`.  A lower diagonal (`diag[d] > 0`) is indexed by
 * column, the main and upper diagonals by row.  Diagonal `mainbd` is the
 * main one; the lower ones come before it and the upper ones after it.
 *
 * Scalars are exact reals; the reciprocal of a zero pivot is modelled as 0
 * (the library divides without a check).
 */
module BDiagFactor {
  import opened Dense
  import opened Results

  /** Whether a matrix holds a factorisation. */
  datatype Factored = Unfactored | FactorLU

  /** The errors this file raises (all with PETSc error code 1). */
  datatype BdError =
    | NotSquare                 // "Matrix must be square"
    | PermutationsNotSupported  // "permutations not supported"
    | NotWritten                // LU symbolic factorisation does not exist
    | OnlyIlu0                  // "Only ILU(0) is supported"
    | BadEliminationColumn      // "bad elimination column"
    | NotFactored               // "Not for unfactored matrix"
    | MainDiagOnly              // "Triangular solves only for main diag"
    | MustBeFactored            // "Matrix must be factored to solve"
    | BadSubblockSolve          // "Bad subblock triangular solve"

  /** A sequential block-diagonal matrix with point blocks. */
  datatype BDiag = BDiag(m: nat, n: nat, diag: seq<int>, mainbd: nat, dv: seq<seq<real>>, factor: Factored)

  /**
   * The layout the format keeps: at least the main diagonal, offsets
   * distinct and inside the matrix, lower diagonals before `mainbd` and
   * upper ones after it, every diagonal holding `m` values.
   */
  ghost predicate Layout(a: BDiag)
  {
    && |a.diag| == |a.dv| && a.mainbd < |a.diag|
    && a.diag[a.mainbd] == 0
    && (forall d :: 0 <= d < a.mainbd ==> a.diag[d] > 0)
    && (forall d :: a.mainbd < d < |a.diag| ==> a.diag[d] < 0)
    && (forall d :: 0 <= d < |a.diag| ==> -(a.n as int) < a.diag[d] < a.m)
    && (forall d, e :: 0 <= d < e < |a.diag| ==> a.diag[d] != a.diag[e])
    && Shaped(a, a.dv)
  }

  /** `dv` has the shape of `a`'s storage: `m` values for each stored diagonal. */
  ghost predicate Shaped(a: BDiag, dv: seq<seq<real>>)
  {
    |dv| == |a.diag| && forall d :: 0 <= d < |dv| ==> |dv[d]| == a.m
  }

  /** A square matrix with the layout of the format: what the factorisation works on. */
  ghost predicate Ready(a: BDiag)
  {
    Layout(a) && a.m == a.n
  }

  /** Every offset after diagonal `d` is below the offset of `d`. */
  ghost predicate Below(diag: seq<int>, d: int)
  {
    0 <= d < |diag| && forall e :: d < e < |diag| ==> diag[e] < diag[d]
  }

  /** Offsets in strictly decreasing order, the order in which the format sorts them. */
  ghost predicate Decreasing(diag: seq<int>)
  {
    |diag| <= 1 || (diag[|diag| - 2] > diag[|diag| - 1] && Decreasing(diag[..|diag| - 1]))
  }

  /** In decreasing order, every offset is above the ones after it. */
  lemma {:induction false} DecreasingBelow(diag: seq<int>, d: int)
    requires 0 <= d < |diag|
    ensures Decreasing(diag) ==> Below(diag, d)
    decreases |diag|
  {
    if Decreasing(diag) && d < |diag| - 1 {
      var init := diag[..|diag| - 1];
      DecreasingBelow(init, d);
    }
  }

  // ---------------------------------------------------------------------
  // Guards of the factorisation entry points.
  // ---------------------------------------------------------------------

  /**
   * `MatLUFactorSymbolic_SeqBDiag`: a full LU factorisation is not
   * available in this format, so every call fails; the square and
   * permutation checks only decide which error is raised.
   */
  function LuFactorSymbolic(a: BDiag, hasRow: bool, hasCol: bool): (r: Result<BDiag, BdError>)
    ensures r.Err?
    ensures r.error == NotSquare <==> a.m != a.n
    ensures r.error == PermutationsNotSupported <==> a.m == a.n && (hasRow || hasCol)
    ensures r.error == NotWritten <==> a.m == a.n && !hasRow && !hasCol
  {
    if a.m != a.n then Err(NotSquare)
    else if hasRow || hasCol then Err(PermutationsNotSupported)
    else Err(NotWritten)
  }

  /**
   * `MatILUFactorSymbolic_SeqBDiag`: ILU(0) of a square matrix without
   * permutations creates no fill, so the symbolic factor is a copy of the
   * matrix.
   */
  function IluFactorSymbolic(a: BDiag, hasRow: bool, hasCol: bool, levels: int): (r: Result<BDiag, BdError>)
    ensures r.Ok? <==> a.m == a.n && !hasRow && !hasCol && levels == 0
    ensures r.Ok? ==> r.value == a
    ensures a.m != a.n ==> r == Err(NotSquare)
    ensures a.m == a.n && (hasRow || hasCol) ==> r == Err(PermutationsNotSupported)
    ensures a.m == a.n && !hasRow && !hasCol && levels != 0 ==> r == Err(OnlyIlu0)
  {
    if a.m != a.n then Err(NotSquare)
    else if hasRow || hasCol then Err(PermutationsNotSupported)
    else if levels != 0 then Err(OnlyIlu0)
    else Ok(a)
  }

  // ---------------------------------------------------------------------
  // BlockMatMult_Private: C -= A B on column-major dense blocks.
  // ---------------------------------------------------------------------

  /** The terms `A[k, i] * B[i, j]` of entry `k` of the column of `B` and `C` starting at `jnr`. */
  function ProductTerm(nrow: nat, a: seq<real>, b: seq<real>, k: int, jnr: int): int -> real
  {
    i => if 0 <= i < nrow && 0 <= i * nrow + k < |a| && 0 <= i + jnr < |b| then a[i * nrow + k] * b[i + jnr] else 0.0
  }

  /** The start of column `j` of a column-major matrix with `nrow` rows. */
  function ColumnStart(nrow: nat, j: int): int
  {
    j * nrow
  }

  /** Entry `p` of `c` less the first `i` products of the column starting at `jnr`. */
  function LessProducts(nrow: nat, a: seq<real>, b: seq<real>, c: seq<real>, jnr: int, p: int, i: int): real
    requires 0 <= p < |c|
  {
    c[p] - Sum(0, i, ProductTerm(nrow, a, b, p - jnr, jnr))
  }

  /** Column `jnr .. jnr + nrow` of `c'` is that of `c` minus the product `A B` there. */
  ghost predicate ColumnSubtracted(nrow: nat, a: seq<real>, b: seq<real>, c: seq<real>, c': seq<real>, jnr: int)
  {
    0 <= jnr && jnr + nrow <= |c| == |c'| &&
    forall p :: jnr <= p < jnr + nrow ==> c'[p] == LessProducts(nrow, a, b, c, jnr, p, nrow)
  }

  /** `j * nrow + nrow <= ncol * nrow` for a column `j` before `ncol`. */
  lemma ColumnInside(nrow: nat, ncol: nat, j: nat)
    requires j < ncol
    ensures ColumnStart(nrow, j) + nrow <= ncol * nrow
  {
    assert (ncol - j) * nrow >= nrow by {
      assert ncol - j >= 1;
    }
  }

  /**
   * After `i` passes of the loop over `i`: the column of `cur` at `jnr`
   * holds that of `c` minus the first `i` products, and nothing else moved.
   */
  ghost predicate Partial(nrow: nat, a: seq<real>, b: seq<real>, c: seq<real>, cur: seq<real>, jnr: int, i: int)
  {
    && |cur| == |c| && 0 <= jnr && jnr + nrow <= |c|
    && (forall p :: jnr <= p < jnr + nrow ==> cur[p] == LessProducts(nrow, a, b, c, jnr, p, i))
    && (forall p :: 0 <= p < |c| && !(jnr <= p < jnr + nrow) ==> cur[p] == c[p])
  }

  /** One pass of the loop over `k`: subtract column `i` of `A` times `B[i, j]`. */
  method SubtractTerm(nrow: nat, a: seq<real>, b: seq<real>, c: seq<real>, cur: seq<real>, jnr: nat, i: nat) returns (next: seq<real>)
    requires i < nrow && nrow * nrow <= |a| && jnr + nrow <= |b|
    requires Partial(nrow, a, b, c, cur, jnr, i)
    ensures Partial(nrow, a, b, c, next, jnr, i + 1)
  {
    var apt := i * nrow;
    var bi := b[i + jnr];
    next := cur;
    var k := 0;
    while k < nrow
      invariant 0 <= k <= nrow && |next| == |c|
      invariant forall p :: jnr <= p < jnr + k ==> next[p] == LessProducts(nrow, a, b, c, jnr, p, i + 1)
      invariant forall p :: jnr + k <= p < jnr + nrow ==> next[p] == cur[p]
      invariant forall p :: 0 <= p < |c| && !(jnr <= p < jnr + nrow) ==> next[p] == c[p]
    {
      TermStep(nrow, a, b, c, cur, jnr, i, k, apt, bi);
      next := next[jnr + k := next[jnr + k] - a[apt + k] * bi];
      k := k + 1;
    }
  }

  /** Subtracting term `i` of entry `jnr + k` extends its partial sum by one term. */
  lemma TermStep(nrow: nat, a: seq<real>, b: seq<real>, c: seq<real>, cur: seq<real>, jnr: nat, i: nat, k: nat, apt: int, bi: real)
    requires i < nrow && k < nrow && nrow * nrow <= |a| && jnr + nrow <= |b|
    requires Partial(nrow, a, b, c, cur, jnr, i)
    requires apt == i * nrow && bi == b[i + jnr]
    ensures 0 <= apt + k < |a|
    ensures cur[jnr + k] - a[apt + k] * bi == LessProducts(nrow, a, b, c, jnr, jnr + k, i + 1)
  {
    ColumnInside(nrow, nrow, i);
    var f := ProductTerm(nrow, a, b, jnr + k - jnr, jnr);
    assert cur[jnr + k] == LessProducts(nrow, a, b, c, jnr, jnr + k, i);
    assert f(i) == a[apt + k] * bi;
  }

  /**
   * The loops over `i` and `k` that subtract the product into the column of
   * `C` starting at `jnr`: the body of the general branch.  The `ncol == 1`
   * branch runs the same loops on the first column without the offset.
   */
  method SubtractColumn(nrow: nat, a: seq<real>, b: seq<real>, c: seq<real>, jnr: nat) returns (c': seq<real>)
    requires nrow * nrow <= |a| && jnr + nrow <= |b| && jnr + nrow <= |c|
    ensures ColumnSubtracted(nrow, a, b, c, c', jnr)
    ensures forall p :: 0 <= p < |c| && !(jnr <= p < jnr + nrow) ==> c'[p] == c[p]
  {
    c' := c;
    var i := 0;
    while i < nrow
      invariant 0 <= i <= nrow && Partial(nrow, a, b, c, c', jnr, i)
    {
      c' := SubtractTerm(nrow, a, b, c, c', jnr, i);
      i := i + 1;
    }
  }

  /** Subtracting from a copy that still agrees with `c` on the column is subtracting from `c`. */
  lemma ColumnRebased(nrow: nat, a: seq<real>, b: seq<real>, c: seq<real>, before: seq<real>, after: seq<real>, jnr: int)
    requires ColumnSubtracted(nrow, a, b, before, after, jnr) && |before| == |c|
    requires forall p :: jnr <= p < |c| ==> before[p] == c[p]
    ensures ColumnSubtracted(nrow, a, b, c, after, jnr)
  {
    forall p | jnr <= p < jnr + nrow
      ensures after[p] == LessProducts(nrow, a, b, c, jnr, p, nrow)
    {
      assert after[p] == LessProducts(nrow, a, b, before, jnr, p, nrow);
    }
  }

  /**
   * Subtracting into column `j` keeps the columns before it and leaves
   * everything from column `j + 1` on as in `c`.
   */
  lemma ColumnsKept(nrow: nat, a: seq<real>, b: seq<real>, c: seq<real>, before: seq<real>, after: seq<real>, j: nat)
    requires |before| == |after| == |c|
    requires forall j' :: 0 <= j' < j ==> ColumnSubtracted(nrow, a, b, c, before, ColumnStart(nrow, j'))
    requires forall p :: ColumnStart(nrow, j) <= p < |c| ==> before[p] == c[p]
    requires forall p :: 0 <= p < |before| && !(ColumnStart(nrow, j) <= p < ColumnStart(nrow, j) + nrow) ==> after[p] == before[p]
    ensures forall j' :: 0 <= j' < j ==> ColumnSubtracted(nrow, a, b, c, after, ColumnStart(nrow, j'))
    ensures forall p :: ColumnStart(nrow, j + 1) <= p < |c| ==> after[p] == c[p]
  {
    assert ColumnStart(nrow, j + 1) == ColumnStart(nrow, j) + nrow;
    forall j' | 0 <= j' < j
      ensures ColumnSubtracted(nrow, a, b, c, after, ColumnStart(nrow, j'))
    {
      ColumnInside(nrow, j, j');
      assert ColumnSubtracted(nrow, a, b, c, before, ColumnStart(nrow, j'));
    }
  }

  /**
   * `BlockMatMult_Private`: `C -= A B` for an `nrow x nrow` block `A` and
   * `nrow x ncol` blocks `B`, `C`, all column-major with `nrow` rows.  Both
   * branches meet this one contract, so the `ncol == 1` branch computes what
   * the general branch would.
   */
  method BlockMatMult(nrow: nat, ncol: nat, a: seq<real>, b: seq<real>, c: seq<real>) returns (c': seq<real>)
    requires nrow * nrow <= |a| && ncol * nrow <= |b| && ncol * nrow <= |c|
    ensures |c'| == |c|
    ensures forall j :: 0 <= j < ncol ==> ColumnSubtracted(nrow, a, b, c, c', ColumnStart(nrow, j))
    ensures forall p :: ncol * nrow <= p < |c| ==> c'[p] == c[p]
  {
    if ncol == 1 {
      c' := SubtractColumn(nrow, a, b, c, 0);
    } else {
      c' := c;
      var j := 0;
      while j < ncol
        invariant 0 <= j <= ncol && |c'| == |c|
        invariant forall j' :: 0 <= j' < j ==> ColumnSubtracted(nrow, a, b, c, c', ColumnStart(nrow, j'))
        invariant forall p :: ColumnStart(nrow, j) <= p < |c| ==> c'[p] == c[p]
      {
        ColumnInside(nrow, ncol, j);
        var jnr := j * nrow;
        ghost var before := c';
        c' := SubtractColumn(nrow, a, b, c', jnr);
        ColumnRebased(nrow, a, b, c, before, c', jnr);
        ColumnsKept(nrow, a, b, c, before, c', j);
        j := j + 1;
      }
    }
  }

  // ---------------------------------------------------------------------
  // The diagonal lookup table `dgptr`.
  // ---------------------------------------------------------------------

  /**
   * `dgptr` after the first `k` passes of its set-up loop: slot `off + m`
   * holds `d + 1` for the stored diagonal `d < k` of offset `off`, and 0
   * when no such diagonal has been recorded.
   */
  function DgPtrUpTo(a: BDiag, k: nat): (r: seq<int>)
    requires Ready(a) && k <= |a.diag|
    ensures |r| == a.m + a.n
    ensures forall j :: 0 <= j < |r| ==> 0 <= r[j] <= k
    ensures forall j :: 0 <= j < |r| && r[j] != 0 ==> a.diag[r[j] - 1] + a.m == j
    ensures forall j :: 0 <= j < |r| && r[j] == 0 ==> forall d :: 0 <= d < k ==> a.diag[d] + a.m != j
  {
    if k == 0 then seq(a.m + a.n, _ => 0)
    else DgPtrUpTo(a, k - 1)[a.diag[k - 1] + a.m := k]
  }

  /** Slot `off + m` of `dgptr` names the stored diagonal of offset `off`, and is 0 when there is none. */
  lemma DgPtrFinds(a: BDiag, k: nat, off: int)
    requires Ready(a) && k <= |a.diag| && -(a.n as int) < off < a.m
    ensures var r := DgPtrUpTo(a, k)[off + a.m];
      && (r == 0 <==> forall d :: 0 <= d < k ==> a.diag[d] != off)
      && (forall d :: 0 <= d < k && a.diag[d] == off ==> r == d + 1)
  {
    var r := DgPtrUpTo(a, k)[off + a.m];
    if r != 0 {
      assert a.diag[r - 1] == off;
    }
  }

  /** The finished `dgptr` table, over all stored diagonals. */
  function DgPtr(a: BDiag): (r: seq<int>)
    requires Ready(a)
    ensures |r| == a.m + a.n
  {
    DgPtrUpTo(a, |a.diag|)
  }

  // ---------------------------------------------------------------------
  // MatLUFactorNumeric_SeqBDiag for point blocks: ILU(0) in place.
  // ---------------------------------------------------------------------

  /**
   * One pass of the loop over `d2`: the position of row `elimRow` on
   * diagonal `d2` loses `mult` times the pivot row's entry in its column,
   * when that entry is stored.  An update of a position the pivot row does
   * not store is dropped, so nothing fills in.
   */
  function UpdateOne(a: BDiag, ptr: seq<int>, dv: seq<seq<real>>, k: nat, elimRow: nat, mult: real, d2: nat): (r: Result<seq<seq<real>>, BdError>)
    requires Ready(a) && ptr == DgPtr(a) && Shaped(a, dv)
    requires k < a.m && elimRow < a.m && d2 < |a.diag|
    ensures r.Ok? ==> Shaped(a, r.value)
    ensures r.Err? <==> 0 <= elimRow - a.diag[d2] < k
    ensures r.Err? ==> r.error == BadEliminationColumn
  {
    var elimCol := elimRow - a.diag[d2];
    if 0 <= elimCol < a.n then
      var dgk := k - elimCol;
      if dgk > 0 then Err(BadEliminationColumn)
      else
        var dnum := ptr[dgk + a.m];
        if dnum != 0 then
          var p := if a.diag[d2] > 0 then elimCol else elimRow;
          Ok(dv[d2 := dv[d2][p := dv[d2][p] - mult * dv[dnum - 1][k]]])
        else Ok(dv)
    else Ok(dv)
  }

  /** The loop over the diagonals `d2` after `d`, each updating row `elimRow` by pivot row `k`. */
  function Updates(a: BDiag, ptr: seq<int>, dv: seq<seq<real>>, k: nat, d: nat, elimRow: nat, mult: real, d2: nat): (r: Result<seq<seq<real>>, BdError>)
    requires Ready(a) && ptr == DgPtr(a) && Shaped(a, dv)
    requires k < a.m && d < a.mainbd && elimRow == k + a.diag[d] < a.m && d < d2 <= |a.diag|
    ensures r.Ok? ==> Shaped(a, r.value)
    ensures r.Err? ==> r.error == BadEliminationColumn
    ensures Below(a.diag, d) ==> r.Ok?
    decreases |a.diag| - d2
  {
    if d2 == |a.diag| then Ok(dv)
    else
      match UpdateOne(a, ptr, dv, k, elimRow, mult, d2)
      case Err(e) => Err(e)
      case Ok(dv') => Updates(a, ptr, dv', k, d, elimRow, mult, d2 + 1)
  }

  /** The entry of row `k + diag[d]` in column `k` scaled by the stored reciprocal pivot `k`. */
  function Scaled(a: BDiag, dv: seq<seq<real>>, k: nat, d: nat): (r: seq<seq<real>>)
    requires Layout(a) && Shaped(a, dv) && k < a.m && d < |a.diag|
    ensures Shaped(a, r)
  {
    dv[d := dv[d][k := dv[d][k] * dv[a.mainbd][k]]]
  }

  /** The pivot `k` on the main diagonal replaced by its reciprocal. */
  function Inverted(a: BDiag, dv: seq<seq<real>>, k: nat): (r: seq<seq<real>>)
    requires Layout(a) && Shaped(a, dv) && k < a.m
    ensures Shaped(a, r)
  {
    dv[a.mainbd := dv[a.mainbd][k := Quot(1.0, dv[a.mainbd][k])]]
  }

  /**
   * The loop over the lower diagonals `cnt - 1` down to 0 for pivot `k`:
   * a nonzero entry below the pivot is scaled by the stored reciprocal
   * pivot and becomes the multiplier for its row's updates.
   */
  function Sweep(a: BDiag, ptr: seq<int>, dv: seq<seq<real>>, k: nat, cnt: nat): (r: Result<seq<seq<real>>, BdError>)
    requires Ready(a) && ptr == DgPtr(a) && Shaped(a, dv)
    requires k < a.m && cnt <= a.mainbd
    ensures r.Ok? ==> Shaped(a, r.value)
    ensures r.Err? ==> r.error == BadEliminationColumn
    ensures Decreasing(a.diag) ==> r.Ok?
    decreases cnt
  {
    if cnt == 0 then Ok(dv)
    else
      var d := cnt - 1;
      var elimRow := k + a.diag[d];
      if elimRow < a.m && dv[d][k] != 0.0 then
        var scaled := Scaled(a, dv, k, d);
        DecreasingBelow(a.diag, d);
        match Updates(a, ptr, scaled, k, d, elimRow, scaled[d][k], d + 1)
        case Err(e) => Err(e)
        case Ok(dv') => Sweep(a, ptr, dv', k, cnt - 1)
      else
        Sweep(a, ptr, dv, k, cnt - 1)
  }

  /** One pass of the loop over pivots: invert pivot `k`, then eliminate below it. */
  function PivotStep(a: BDiag, ptr: seq<int>, dv: seq<seq<real>>, k: nat): (r: Result<seq<seq<real>>, BdError>)
    requires Ready(a) && ptr == DgPtr(a) && Shaped(a, dv) && k < a.m
    ensures r.Ok? ==> Shaped(a, r.value)
    ensures r.Err? ==> r.error == BadEliminationColumn
    ensures Decreasing(a.diag) ==> r.Ok?
  {
    Sweep(a, ptr, Inverted(a, dv, k), k, a.mainbd)
  }

  /** The loop over pivots `k .. m - 1`. */
  function Pivots(a: BDiag, ptr: seq<int>, dv: seq<seq<real>>, k: nat): (r: Result<seq<seq<real>>, BdError>)
    requires Ready(a) && ptr == DgPtr(a) && Shaped(a, dv) && k <= a.m
    ensures r.Ok? ==> Shaped(a, r.value)
    ensures r.Err? ==> r.error == BadEliminationColumn
    ensures Decreasing(a.diag) ==> r.Ok?
    decreases a.m - k
  {
    if k == a.m then Ok(dv)
    else
      match PivotStep(a, ptr, dv, k)
      case Err(e) => Err(e)
      case Ok(dv') => Pivots(a, ptr, dv', k + 1)
  }

  /**
   * `MatLUFactorNumeric_SeqBDiag` with `nb == 1`: the factors overwrite the
   * stored diagonals (no fill), the main diagonal ends up holding the
   * reciprocal pivots, and the matrix is marked as factored.  The only error
   * is an elimination column left of the pivot, which offsets in decreasing
   * order rule out.
   */
  function FactorNumeric(a: BDiag): (r: Result<BDiag, BdError>)
    requires Ready(a)
    ensures r.Ok? ==> Ready(r.value) && r.value.factor == FactorLU
    ensures r.Ok? ==> r.value.m == a.m && r.value.n == a.n && r.value.diag == a.diag && r.value.mainbd == a.mainbd
    ensures r.Err? ==> r.error == BadEliminationColumn
    ensures Decreasing(a.diag) ==> r.Ok?
  {
    match Pivots(a, DgPtr(a), a.dv, 0)
    case Err(e) => Err(e)
    case Ok(dv) => Ok(a.(dv := dv, factor := FactorLU))
  }

  /**
   * `MatLUFactor_SeqBDiag`: factors a square matrix in place.  Permutations
   * are only reported, so the result does not depend on them.
   */
  function LuFactor(a: BDiag, hasRow: bool, hasCol: bool): (r: Result<BDiag, BdError>)
    requires Layout(a)
    ensures a.m != a.n ==> r == Err(NotSquare)
    ensures r.Ok? ==> a.m == a.n && r.value.factor == FactorLU && r.value.diag == a.diag
    ensures r.Err? ==> r.error == NotSquare || r.error == BadEliminationColumn
    ensures a.m == a.n && Decreasing(a.diag) ==> r.Ok?
    ensures r == LuFactor(a, false, false)
  {
    if a.m != a.n then Err(NotSquare) else FactorNumeric(a)
  }

  /**
   * `MatILUFactor_SeqBDiag`: the same factorisation; a nonzero level, like
   * a permutation, is only reported.
   */
  function IluFactor(a: BDiag, hasRow: bool, hasCol: bool, level: int): (r: Result<BDiag, BdError>)
    requires Layout(a)
    ensures r == LuFactor(a, hasRow, hasCol)
  {
    if a.m != a.n then Err(NotSquare) else FactorNumeric(a)
  }

  /**
   * The symbolic ILU(0) factor followed by the numeric factor gives what
   * the in-place factorisation gives, whenever the symbolic phase succeeds.
   */
  lemma SymbolicThenNumeric(a: BDiag, level: int)
    requires Layout(a)
    ensures IluFactorSymbolic(a, false, false, level).Ok? ==>
      Ready(IluFactorSymbolic(a, false, false, level).value) &&
      FactorNumeric(IluFactorSymbolic(a, false, false, level).value) == IluFactor(a, false, false, level)
  {
  }

  /** Subtracting a zero multiple leaves the updated row as it was. */
  lemma {:induction false} UpdatesZeroMultiplier(a: BDiag, ptr: seq<int>, dv: seq<seq<real>>, k: nat, d: nat, elimRow: nat, d2: nat)
    requires Ready(a) && ptr == DgPtr(a) && Shaped(a, dv)
    requires k < a.m && d < a.mainbd && elimRow == k + a.diag[d] < a.m && d < d2 <= |a.diag|
    ensures Updates(a, ptr, dv, k, d, elimRow, 0.0, d2).Ok? ==> Updates(a, ptr, dv, k, d, elimRow, 0.0, d2).value == dv
    decreases |a.diag| - d2
  {
    if d2 < |a.diag| {
      UpdateOneZero(a, ptr, dv, k, elimRow, d2);
      UpdatesZeroMultiplier(a, ptr, dv, k, d, elimRow, d2 + 1);
    }
  }

  /** One update with a zero multiplier changes no slot. */
  lemma UpdateOneZero(a: BDiag, ptr: seq<int>, dv: seq<seq<real>>, k: nat, elimRow: nat, d2: nat)
    requires Ready(a) && ptr == DgPtr(a) && Shaped(a, dv)
    requires k < a.m && elimRow < a.m && d2 < |a.diag|
    ensures UpdateOne(a, ptr, dv, k, elimRow, 0.0, d2).Ok? ==> UpdateOne(a, ptr, dv, k, elimRow, 0.0, d2).value == dv
  {
    var elimCol := elimRow - a.diag[d2];
    if 0 <= elimCol < a.n && k - elimCol <= 0 {
      var dnum := ptr[k - elimCol + a.m];
      if dnum != 0 {
        var p := if a.diag[d2] > 0 then elimCol else elimRow;
        var x := dv[d2][p] - 0.0 * dv[dnum - 1][k];
        UpdateSame(dv[d2], p, x);
        UpdateSame(dv, d2, dv[d2][p := x]);
      }
    }
  }

  /** Scaling a zero entry leaves the storage as it was. */
  lemma ScaledZero(a: BDiag, dv: seq<seq<real>>, k: nat, d: nat)
    requires Layout(a) && Shaped(a, dv) && k < a.m && d < |a.diag| && dv[d][k] == 0.0
    ensures Scaled(a, dv, k, d) == dv
  {
    var r := Scaled(a, dv, k, d);
    assert WritesSlot(dv, r, d, k);
    ZeroProduct(dv[d][k], dv[a.mainbd][k]);
    WritesSameValue(dv, r, d, k);
  }

  /** A one-slot write of the value the slot already holds changes nothing. */
  lemma WritesSameValue(dv: seq<seq<real>>, r: seq<seq<real>>, d: int, p: int)
    requires WritesSlot(dv, r, d, p) && 0 <= p < |dv[d]| && r[d][p] == dv[d][p]
    ensures r == dv
  {
    assert r[d] == dv[d];
  }

  /** A zero factor keeps the product at zero. */
  lemma ZeroProduct(x: real, y: real)
    requires x == 0.0
    ensures x * y == x
  {
  }

  /** Writing back the value a slot already holds changes nothing. */
  lemma UpdateSame<T>(s: seq<T>, i: int, x: T)
    requires 0 <= i < |s| && x == s[i]
    ensures s[i := x] == s
  {
    assert forall j :: 0 <= j < |s| ==> s[i := x][j] == s[j];
  }

  /**
   * Skipping a zero entry below the pivot is only a shortcut: running its
   * updates would raise an error or leave every value as it is.
   */
  lemma ZeroEntrySkipped(a: BDiag, ptr: seq<int>, dv: seq<seq<real>>, k: nat, d: nat)
    requires Ready(a) && ptr == DgPtr(a) && Shaped(a, dv)
    requires k < a.m && d < a.mainbd && k + a.diag[d] < a.m && dv[d][k] == 0.0
    ensures var scaled := Scaled(a, dv, k, d);
      var r := Updates(a, ptr, scaled, k, d, k + a.diag[d], scaled[d][k], d + 1);
      r.Ok? ==> r.value == dv
  {
    ScaledZero(a, dv, k, d);
    UpdatesZeroMultiplier(a, ptr, dv, k, d, k + a.diag[d], d + 1);
  }

  // ---------------------------------------------------------------------
  // The dense matrix a diagonal store represents.
  // ---------------------------------------------------------------------

  /** The last of the first `hi` diagonals with offset `off`, or -1. */
  function FindDiag(diag: seq<int>, off: int, hi: nat): (r: int)
    requires hi <= |diag|
    ensures -1 <= r < hi
    ensures r >= 0 ==> diag[r] == off
    ensures r == -1 ==> forall d :: 0 <= d < hi ==> diag[d] != off
  {
    if hi == 0 then -1
    else if diag[hi - 1] == off then hi - 1
    else FindDiag(diag, off, hi - 1)
  }

  /**
   * Entry `(i, j)` of the matrix whose diagonals `a.diag` hold the values
   * `dv`: a lower diagonal is read at the column, the others at the row,
   * and a position on no stored diagonal is 0.
   */
  function View(a: BDiag, dv: seq<seq<real>>, i: int, j: int): real
    requires Layout(a) && Shaped(a, dv)
  {
    if !(0 <= i < a.m && 0 <= j < a.n) then 0.0
    else
      var d := FindDiag(a.diag, i - j, |a.diag|);
      if d < 0 then 0.0
      else if a.diag[d] > 0 then dv[d][j]
      else dv[d][i]
  }

  /** The terms `View(i, j) * y[j]` of row `i` of the product with `y`. */
  function RowTimes(a: BDiag, y: seq<real>, i: int): int -> real
    requires Layout(a)
  {
    j => if 0 <= j < |y| then View(a, a.dv, i, j) * y[j] else 0.0
  }

  /** The main diagonal sits at `mainbd` and is read at the row. */
  lemma ViewDiagonal(a: BDiag, dv: seq<seq<real>>, i: int)
    requires Layout(a) && Shaped(a, dv) && 0 <= i < a.m && i < a.n
    ensures View(a, dv, i, i) == dv[a.mainbd][i]
  {
    var d := FindDiag(a.diag, 0, |a.diag|);
    assert a.diag[a.mainbd] == 0;
    assert d == a.mainbd;
  }

  // ---------------------------------------------------------------------
  // MatSolve_SeqBDiag for point blocks.
  // ---------------------------------------------------------------------

  /** The forward-solve sum for row `i` after the lower diagonals `0 .. cnt - 1`. */
  function LowerAcc(a: BDiag, y: seq<real>, xi: real, i: nat, cnt: nat): real
    requires Layout(a) && i < a.m && i <= |y| && cnt <= a.mainbd
  {
    if cnt == 0 then xi
    else
      var loc := i - a.diag[cnt - 1];
      if loc >= 0 then LowerAcc(a, y, xi, i, cnt - 1) - a.dv[cnt - 1][loc] * y[loc]
      else LowerAcc(a, y, xi, i, cnt - 1)
  }

  /** The first `i` values of the forward solve with the unit lower triangle. */
  function Forward(a: BDiag, x: seq<real>, i: nat): (y: seq<real>)
    requires Layout(a) && |x| == a.m && i <= a.m
    ensures |y| == i
  {
    if i == 0 then []
    else
      var y := Forward(a, x, i - 1);
      y + [LowerAcc(a, y, x[i - 1], i - 1, a.mainbd)]
  }

  /** The backward-solve sum for row `i` after the upper diagonals `mainbd + 1 .. cnt - 1`. */
  function UpperAcc(a: BDiag, y: seq<real>, i: nat, cnt: nat): real
    requires Layout(a) && a.m == a.n && |y| == a.m && i < a.m && a.mainbd < cnt <= |a.diag|
    decreases cnt
  {
    if cnt == a.mainbd + 1 then y[i]
    else
      var col := i - a.diag[cnt - 1];
      if col < a.n then UpperAcc(a, y, i, cnt - 1) - a.dv[cnt - 1][i] * y[col]
      else UpperAcc(a, y, i, cnt - 1)
  }

  /** The backward solve over rows `m - 1` down to `i`; rows before `i` still hold `z`. */
  function Backward(a: BDiag, z: seq<real>, i: nat): (y: seq<real>)
    requires Layout(a) && a.m == a.n && |z| == a.m && i <= a.m
    ensures |y| == a.m
    decreases a.m - i
  {
    if i == a.m then z
    else
      var y := Backward(a, z, i + 1);
      y[i := UpperAcc(a, y, i, |a.diag|) * a.dv[a.mainbd][i]]
  }

  /**
   * `MatSolve_SeqBDiag` with `nb == 1`: refuses a matrix that is not
   * factored, else solves with the unit lower triangle and then with the
   * upper triangle, whose stored diagonal holds the reciprocal pivots.
   */
  function Solve(a: BDiag, x: seq<real>): (r: Result<seq<real>, BdError>)
    requires Layout(a) && |x| == a.m
    requires a.factor == FactorLU ==> a.m == a.n
    ensures r.Err? <==> a.factor != FactorLU
    ensures r.Err? ==> r.error == NotFactored
    ensures r.Ok? ==> |r.value| == a.m
  {
    if a.factor != FactorLU then Err(NotFactored)
    else Ok(Backward(a, Forward(a, x, a.m), 0))
  }

  /** `z` solves `(I + L) z = x` for the strictly lower triangle `L` of the stored matrix. */
  ghost predicate ForwardSolved(a: BDiag, x: seq<real>, z: seq<real>)
    requires Layout(a)
  {
    |x| == |z| == a.m &&
    forall i :: 0 <= i < a.m ==> ForwardRowSolved(a, x, z, i)
  }

  /** Row `i` of `(I + L) z = x`. */
  ghost predicate ForwardRowSolved(a: BDiag, x: seq<real>, z: seq<real>, i: int)
    requires Layout(a) && 0 <= i < a.m && i < |x| && i < |z|
  {
    z[i] == x[i] - Sum(0, i, RowTimes(a, z, i))
  }

  /**
   * `y` solves `U y = z` where `U` is the upper triangle of the stored
   * matrix with its diagonal replaced by the reciprocals of the stored
   * diagonal: each `y[i]` is the stored diagonal times what remains of
   * `z[i]` after the entries right of the diagonal.
   */
  ghost predicate BackwardSolved(a: BDiag, z: seq<real>, y: seq<real>)
    requires Layout(a)
  {
    |z| == |y| == a.m &&
    forall i :: 0 <= i < a.m ==> BackwardRowSolved(a, z, y, i)
  }

  /** Row `i` of `U y = z`. */
  ghost predicate BackwardRowSolved(a: BDiag, z: seq<real>, y: seq<real>, i: int)
    requires Layout(a) && 0 <= i < a.m && i < |z| && i < |y|
  {
    y[i] == Remaining(a, z, y, i) * a.dv[a.mainbd][i]
  }

  /** What is left of `z[i]` once the entries right of the diagonal of row `i` have been applied to `y`. */
  function Remaining(a: BDiag, z: seq<real>, y: seq<real>, i: int): real
    requires Layout(a) && 0 <= i < |z|
  {
    z[i] - Sum(i + 1, a.m, RowTimes(a, y, i))
  }

  /** Diagonal `d` meets row `i` at column `i - diag[d]`. */
  function ColumnOn(a: BDiag, i: int): int -> int
  {
    d => if 0 <= d < |a.diag| then i - a.diag[d] else -1
  }

  /** The terms of the forward-solve sum for row `i`: lower diagonal `d`'s entry in the row times `y` there. */
  function LowerVal(a: BDiag, y: seq<real>, i: int): int -> real
    requires Layout(a)
  {
    d => if 0 <= d < a.mainbd && 0 <= i - a.diag[d] < |y| && i - a.diag[d] < a.m
         then a.dv[d][i - a.diag[d]] * y[i - a.diag[d]] else 0.0
  }

  /** The forward-solve sum is `x[i]` minus the lower-diagonal terms. */
  lemma {:induction false} LowerAccSum(a: BDiag, y: seq<real>, xi: real, i: nat, cnt: nat)
    requires Layout(a) && i < a.m && i <= |y| && cnt <= a.mainbd
    ensures LowerAcc(a, y, xi, i, cnt) == xi - Sum(0, cnt, LowerVal(a, y, i))
    decreases cnt
  {
    if cnt > 0 {
      var d, f := cnt - 1, LowerVal(a, y, i);
      LowerAccSum(a, y, xi, i, d);
      assert a.diag[d] > 0;
      assert Sum(0, cnt, f) == Sum(0, d, f) + f(d);
      if i - a.diag[d] >= 0 {
        assert f(d) == a.dv[d][i - a.diag[d]] * y[i - a.diag[d]];
      } else {
        assert f(d) == 0.0;
      }
    }
  }

  /** Column `j` left of the diagonal of row `i` is met by the lower diagonal stored for it, if any. */
  lemma LowerPick(a: BDiag, y: seq<real>, i: nat, j: nat)
    requires Layout(a) && a.m == a.n && j < i < a.m && i <= |y|
    ensures Picked(0, a.mainbd, ColumnOn(a, i), LowerVal(a, y, i))(j) == RowTimes(a, y, i)(j)
  {
    var col, val := ColumnOn(a, i), LowerVal(a, y, i);
    var e := FindDiag(a.diag, i - j, |a.diag|);
    if e >= 0 {
      assert e < a.mainbd;
      PickAt(0, a.mainbd, col, val, j, e);
    } else {
      PickNone(0, a.mainbd, col, val, j);
    }
  }

  /** The forward-solve sum over lower diagonals is the sum over the columns left of the diagonal. */
  lemma LowerRow(a: BDiag, y: seq<real>, i: nat)
    requires Layout(a) && a.m == a.n && i < a.m && i <= |y|
    ensures Sum(0, a.mainbd, LowerVal(a, y, i)) == Sum(0, i, RowTimes(a, y, i))
  {
    var col, val := ColumnOn(a, i), LowerVal(a, y, i);
    forall d | 0 <= d < a.mainbd
      ensures LowerVal(a, y, i)(d) == Landing(col, val, 0, i)(d)
    {
      assert a.diag[d] > 0;
    }
    SumExt(0, a.mainbd, LowerVal(a, y, i), Landing(col, val, 0, i));
    SumReindex(0, a.mainbd, col, val, 0, i);
    forall j | 0 <= j < i
      ensures Picked(0, a.mainbd, col, val)(j) == RowTimes(a, y, i)(j)
    {
      LowerPick(a, y, i, j);
    }
    SumExt(0, i, Picked(0, a.mainbd, col, val), RowTimes(a, y, i));
  }

  /** Solving one more row leaves the earlier rows of the forward solve alone. */
  lemma {:induction false} ForwardPrefix(a: BDiag, x: seq<real>, i: nat, k: nat)
    requires Layout(a) && |x| == a.m && i <= k <= a.m
    ensures Forward(a, x, k)[..i] == Forward(a, x, i)
    decreases k
  {
    if i < k {
      ForwardPrefix(a, x, i, k - 1);
      assert Forward(a, x, k)[..k - 1] == Forward(a, x, k - 1);
    }
  }

  /** Row sums over `lo .. hi - 1` only see `y` there. */
  lemma RowTimesAgree(a: BDiag, y: seq<real>, z: seq<real>, i: int, lo: nat, hi: nat)
    requires Layout(a) && lo <= hi <= |y| && hi <= |z|
    requires forall j :: lo <= j < hi ==> y[j] == z[j]
    ensures Sum(lo, hi, RowTimes(a, y, i)) == Sum(lo, hi, RowTimes(a, z, i))
  {
    SumExt(lo, hi, RowTimes(a, y, i), RowTimes(a, z, i));
  }

  /** The last row of a forward solve is its forward-solve sum. */
  lemma ForwardLast(a: BDiag, x: seq<real>, i: nat)
    requires Layout(a) && |x| == a.m && i < a.m
    ensures Forward(a, x, i + 1)[i] == LowerAcc(a, Forward(a, x, i), x[i], i, a.mainbd)
  {
  }

  /** Entry `i` of the forward sweep is computed from the entries before it, which later steps keep. */
  lemma ForwardAt(a: BDiag, x: seq<real>, i: nat)
    requires Layout(a) && |x| == a.m && i < a.m
    ensures var z := Forward(a, x, a.m);
      && z[i] == LowerAcc(a, Forward(a, x, i), x[i], i, a.mainbd)
      && forall j :: 0 <= j < i ==> z[j] == Forward(a, x, i)[j]
  {
    var z := Forward(a, x, a.m);
    ForwardPrefix(a, x, i + 1, a.m);
    ForwardPrefix(a, x, i, a.m);
    assert z[i] == z[..i + 1][i];
    ForwardLast(a, x, i);
    assert forall j :: 0 <= j < i ==> z[j] == z[..i][j];
  }

  /** Row `i` of the forward sweep's result satisfies its equation. */
  lemma ForwardRow(a: BDiag, x: seq<real>, i: nat)
    requires Layout(a) && a.m == a.n && |x| == a.m && i < a.m
    ensures ForwardRowSolved(a, x, Forward(a, x, a.m), i)
  {
    var z := Forward(a, x, a.m);
    var y := Forward(a, x, i);
    ForwardAt(a, x, i);
    LowerAccSum(a, y, x[i], i, a.mainbd);
    LowerRow(a, y, i);
    RowTimesAgree(a, y, z, i, 0, i);
  }

  /** The forward sweep solves the unit lower triangular system. */
  lemma ForwardSolves(a: BDiag, x: seq<real>)
    requires Layout(a) && a.m == a.n && |x| == a.m
    ensures ForwardSolved(a, x, Forward(a, x, a.m))
  {
    var z := Forward(a, x, a.m);
    forall i | 0 <= i < a.m
      ensures ForwardRowSolved(a, x, z, i)
    {
      ForwardRow(a, x, i);
    }
  }

  /** The terms of the backward-solve sum for row `i`: upper diagonal `d`'s entry in the row times `y` there. */
  function UpperVal(a: BDiag, y: seq<real>, i: int): int -> real
    requires Layout(a)
  {
    d => if a.mainbd < d < |a.diag| && 0 <= i < a.m && 0 <= i - a.diag[d] < |y| && i - a.diag[d] < a.n
         then a.dv[d][i] * y[i - a.diag[d]] else 0.0
  }

  /** The backward-solve sum is `y[i]` minus the upper-diagonal terms. */
  lemma {:induction false} UpperAccSum(a: BDiag, y: seq<real>, i: nat, cnt: nat)
    requires Layout(a) && a.m == a.n && |y| == a.m && i < a.m && a.mainbd < cnt <= |a.diag|
    ensures UpperAcc(a, y, i, cnt) == y[i] - Sum(a.mainbd + 1, cnt, UpperVal(a, y, i))
    decreases cnt
  {
    if cnt > a.mainbd + 1 {
      UpperAccSum(a, y, i, cnt - 1);
      assert a.diag[cnt - 1] < 0;
    }
  }

  /** Column `j` right of the diagonal of row `i` is met by the upper diagonal stored for it, if any. */
  lemma UpperPick(a: BDiag, y: seq<real>, i: nat, j: nat)
    requires Layout(a) && a.m == a.n && i < j < a.m && |y| == a.m
    ensures Picked(a.mainbd + 1, |a.diag|, ColumnOn(a, i), UpperVal(a, y, i))(j) == RowTimes(a, y, i)(j)
  {
    var col, val := ColumnOn(a, i), UpperVal(a, y, i);
    var e := FindDiag(a.diag, i - j, |a.diag|);
    if e >= 0 {
      assert e > a.mainbd;
      PickAt(a.mainbd + 1, |a.diag|, col, val, j, e);
    } else {
      PickNone(a.mainbd + 1, |a.diag|, col, val, j);
    }
  }

  /** The backward-solve sum over upper diagonals is the sum over the columns right of the diagonal. */
  lemma UpperRow(a: BDiag, y: seq<real>, i: nat)
    requires Layout(a) && a.m == a.n && i < a.m && |y| == a.m
    ensures Sum(a.mainbd + 1, |a.diag|, UpperVal(a, y, i)) == Sum(i + 1, a.m, RowTimes(a, y, i))
  {
    var col, val := ColumnOn(a, i), UpperVal(a, y, i);
    var nd := |a.diag|;
    forall d | a.mainbd + 1 <= d < nd
      ensures UpperVal(a, y, i)(d) == Landing(col, val, i + 1, a.m)(d)
    {
      assert a.diag[d] < 0;
    }
    SumExt(a.mainbd + 1, nd, UpperVal(a, y, i), Landing(col, val, i + 1, a.m));
    SumReindex(a.mainbd + 1, nd, col, val, i + 1, a.m);
    forall j | i + 1 <= j < a.m
      ensures Picked(a.mainbd + 1, nd, col, val)(j) == RowTimes(a, y, i)(j)
    {
      UpperPick(a, y, i, j);
    }
    SumExt(i + 1, a.m, Picked(a.mainbd + 1, nd, col, val), RowTimes(a, y, i));
  }

  /** The backward sweep from row `i` has not reached the rows before `i`, nor changes rows it has finished. */
  lemma {:induction false} BackwardFrame(a: BDiag, z: seq<real>, k: nat, i: nat)
    requires Layout(a) && a.m == a.n && |z| == a.m && k <= i <= a.m
    ensures forall j :: 0 <= j < k ==> Backward(a, z, i)[j] == z[j]
    ensures forall j :: i <= j < a.m ==> Backward(a, z, k)[j] == Backward(a, z, i)[j]
    decreases a.m - k
  {
    if k < a.m {
      BackwardFrame(a, z, k + 1, if i == k then k + 1 else i);
    }
  }

  /** Row `i` of the backward sweep is the backward-solve sum on the rows below it, times the stored diagonal. */
  lemma BackwardLast(a: BDiag, z: seq<real>, i: nat)
    requires Layout(a) && a.m == a.n && |z| == a.m && i < a.m
    ensures Backward(a, z, i)[i] == UpperAcc(a, Backward(a, z, i + 1), i, |a.diag|) * a.dv[a.mainbd][i]
  {
  }

  /** The backward-solve sum of row `i` is what remains of `z[i]` given the finished rows below. */
  lemma BackwardRemaining(a: BDiag, z: seq<real>, i: nat)
    requires Layout(a) && a.m == a.n && |z| == a.m && i < a.m
    ensures UpperAcc(a, Backward(a, z, i + 1), i, |a.diag|) == Remaining(a, z, Backward(a, z, 0), i)
  {
    var y := Backward(a, z, 0);
    var w := Backward(a, z, i + 1);
    UpperAccSum(a, w, i, |a.diag|);
    BackwardFrame(a, z, i + 1, i + 1);
    UpperRow(a, w, i);
    BackwardFrame(a, z, 0, i + 1);
    RowTimesAgree(a, w, y, i, i + 1, a.m);
  }

  /** Row `i` of the backward sweep's result satisfies its equation. */
  lemma BackwardRow(a: BDiag, z: seq<real>, i: nat)
    requires Layout(a) && a.m == a.n && |z| == a.m && i < a.m
    ensures BackwardRowSolved(a, z, Backward(a, z, 0), i)
  {
    BackwardAt(a, z, i);
    BackwardLast(a, z, i);
    BackwardRemaining(a, z, i);
    BackwardRowJoin(a, z, i);
  }

  /** The three facts about row `i` of the backward sweep give its equation. */
  lemma BackwardRowJoin(a: BDiag, z: seq<real>, i: nat)
    requires Layout(a) && a.m == a.n && |z| == a.m && i < a.m
    requires Backward(a, z, 0)[i] == Backward(a, z, i)[i]
    requires Backward(a, z, i)[i] == UpperAcc(a, Backward(a, z, i + 1), i, |a.diag|) * a.dv[a.mainbd][i]
    requires UpperAcc(a, Backward(a, z, i + 1), i, |a.diag|) == Remaining(a, z, Backward(a, z, 0), i)
    ensures BackwardRowSolved(a, z, Backward(a, z, 0), i)
  {
    var y := Backward(a, z, 0);
    var u := UpperAcc(a, Backward(a, z, i + 1), i, |a.diag|);
    ScaledRow(y[i], Backward(a, z, i)[i], u, Remaining(a, z, y, i), a.dv[a.mainbd][i]);
  }

  /** A value equal to `u * piv` with `u == r` is `r * piv`. */
  lemma ScaledRow(yi: real, bi: real, u: real, r: real, piv: real)
    requires yi == bi && bi == u * piv && u == r
    ensures yi == r * piv
  {
  }

  /** Row `i` of the whole sweep is fixed once the sweep has reached it. */
  lemma BackwardAt(a: BDiag, z: seq<real>, i: nat)
    requires Layout(a) && a.m == a.n && |z| == a.m && i < a.m
    ensures Backward(a, z, 0)[i] == Backward(a, z, i)[i]
  {
    BackwardFrame(a, z, 0, i);
  }

  /** Equal values scaled alike stay equal. */
  lemma ScaleBoth(u: real, v: real, d: real)
    requires u == v
    ensures u * d == v * d && d * u == d * v
  {
  }

  /** The backward sweep solves the upper triangular system with reciprocal pivots. */
  lemma BackwardSolves(a: BDiag, z: seq<real>)
    requires Layout(a) && a.m == a.n && |z| == a.m
    ensures BackwardSolved(a, z, Backward(a, z, 0))
  {
    var y := Backward(a, z, 0);
    forall i | 0 <= i < a.m
      ensures BackwardRowSolved(a, z, y, i)
    {
      BackwardRow(a, z, i);
    }
    assert |y| == |z| == a.m;
  }

  /** `y` is what the two triangular solves produce from `x`. */
  ghost predicate Solved(a: BDiag, x: seq<real>, y: seq<real>)
    requires Layout(a)
  {
    exists z :: ForwardSolved(a, x, z) && BackwardSolved(a, z, y)
  }

  /** A factored matrix's solve succeeds and its result solves both triangular systems. */
  lemma SolveSolves(a: BDiag, x: seq<real>)
    requires Layout(a) && a.factor == FactorLU && a.m == a.n && |x| == a.m
    ensures Solve(a, x).Ok? && Solved(a, x, Solve(a, x).value)
  {
    var z := Forward(a, x, a.m);
    ForwardSolves(a, x);
    BackwardSolves(a, z);
  }

  // ---------------------------------------------------------------------
  // Guards of the transpose and add solves.
  // ---------------------------------------------------------------------

  /** The storage holds the main diagonal alone. */
  predicate MainOnly(a: BDiag)
  {
    |a.diag| == 1 && a.diag[0] == 0
  }

  /**
   * The guards of `MatSolveTrans_SeqBDiag`, `MatSolveAdd_SeqBDiag` and
   * `MatSolveTransAdd_SeqBDiag` in front of their per-block LAPACK solves:
   * only the main diagonal may be stored, and the matrix must be factored.
   * The transpose solve checks both; the two add solves check only the
   * first (see `AddGuardAsWritten`), and this is the check they evidently
   * intend.
   */
  function TransAddGuard(a: BDiag): (r: Result<(), BdError>)
    ensures r.Ok? ==> MainOnly(a) && a.factor == FactorLU
    ensures !MainOnly(a) ==> r == Err(MainDiagOnly)
    ensures MainOnly(a) && a.factor != FactorLU ==> r == Err(MustBeFactored)
  {
    if !MainOnly(a) then Err(MainDiagOnly)
    else if a.factor != FactorLU then Err(MustBeFactored)
    else Ok(())
  }

  /** What an add solve does once past its guard: the block solves, or nothing before adding `z`. */
  datatype AddPath = BlockSolves | CopyOnly

  /**
   * The guards of the two add solves as written.  On an unfactored matrix
   * the block solves are skipped and `info` is tested without having been
   * set; `info` is that uninitialised value.  When it happens to be 0 the
   * call returns `x + z` as if it had solved.
   */
  function AddGuardAsWritten(a: BDiag, info: int): (r: Result<AddPath, BdError>)
    ensures r == Ok(CopyOnly) <==> MainOnly(a) && a.factor != FactorLU && info == 0
    ensures r == Ok(BlockSolves) <==> MainOnly(a) && a.factor == FactorLU
  {
    if !MainOnly(a) then Err(MainDiagOnly)
    else if a.factor == FactorLU then Ok(BlockSolves)
    else if info != 0 then Err(BadSubblockSolve)
    else Ok(CopyOnly)
  }

  /** As written, an unfactored matrix passes or fails an add solve on an uninitialised value. */
  lemma AddUnfactoredAsWritten(a: BDiag)
    requires MainOnly(a) && a.factor == Unfactored
    ensures AddGuardAsWritten(a, 0) == Ok(CopyOnly)
    ensures AddGuardAsWritten(a, 1) == Err(BadSubblockSolve)
    ensures TransAddGuard(a) == Err(MustBeFactored)
  {
  }

  /** The corrected guard runs the block solves exactly where the written one does, and nothing else passes. */
  lemma AddGuardCorrected(a: BDiag, info: int)
    ensures TransAddGuard(a).Ok? <==> AddGuardAsWritten(a, info) == Ok(BlockSolves)
    ensures TransAddGuard(a).Err? && AddGuardAsWritten(a, info).Ok? ==> a.factor != FactorLU
  {
  }

  /** With the main diagonal alone, row `i` of the matrix has no entry off the diagonal. */
  lemma MainOnlyRow(a: BDiag, y: seq<real>, i: int, j: int)
    requires Layout(a) && MainOnly(a) && j != i
    ensures RowTimes(a, y, i)(j) == 0.0
  {
    assert FindDiag(a.diag, i - j, |a.diag|) == -1;
  }

  /**
   * On the layouts the transpose and add solves accept, `MatSolve` reduces
   * to scaling each entry by the stored diagonal, which the factorisation
   * has replaced by the reciprocal pivots.
   */
  lemma MainOnlySolve(a: BDiag, x: seq<real>)
    requires Layout(a) && a.m == a.n && |x| == a.m && TransAddGuard(a).Ok?
    ensures Solve(a, x).Ok?
    ensures forall i :: 0 <= i < a.m ==> Solve(a, x).value[i] == x[i] * a.dv[0][i]
  {
    var z := Forward(a, x, a.m);
    var y := Backward(a, z, 0);
    ForwardSolves(a, x);
    BackwardSolves(a, z);
    forall i | 0 <= i < a.m
      ensures y[i] == x[i] * a.dv[0][i]
    {
      MainOnlyEntry(a, x, z, y, i);
    }
  }

  /** Entry `i` of both triangular solves when the main diagonal is stored alone. */
  lemma MainOnlyEntry(a: BDiag, x: seq<real>, z: seq<real>, y: seq<real>, i: int)
    requires Layout(a) && MainOnly(a) && ForwardSolved(a, x, z) && BackwardSolved(a, z, y) && 0 <= i < a.m
    ensures y[i] == x[i] * a.dv[0][i]
  {
    forall j | 0 <= j < i
      ensures RowTimes(a, z, i)(j) == 0.0
    {
      MainOnlyRow(a, z, i, j);
    }
    forall j | i + 1 <= j < a.m
      ensures RowTimes(a, y, i)(j) == 0.0
    {
      MainOnlyRow(a, y, i, j);
    }
    SumZero(0, i, RowTimes(a, z, i));
    SumZero(i + 1, a.m, RowTimes(a, y, i));
    assert ForwardRowSolved(a, x, z, i);
    assert BackwardRowSolved(a, z, y, i);
  }


  // ---------------------------------------------------------------------
  // The numeric factor is ILU(0) on the stored pattern.
  // ---------------------------------------------------------------------

  /** Whether position `(i, j)` of the matrix lies on a stored diagonal. */
  function Stored(a: BDiag, i: int, j: int): bool
  {
    0 <= i < a.m && 0 <= j < a.n && FindDiag(a.diag, i - j, |a.diag|) >= 0
  }

  /** The row of the matrix position that slot `p` of diagonal `d` holds. */
  function SlotRow(a: BDiag, d: int, p: int): int
    requires 0 <= d < |a.diag|
  {
    if a.diag[d] > 0 then p + a.diag[d] else p
  }

  /** The column of the matrix position that slot `p` of diagonal `d` holds. */
  function SlotCol(a: BDiag, d: int, p: int): int
    requires 0 <= d < |a.diag|
  {
    if a.diag[d] > 0 then p else p - a.diag[d]
  }

  /** The diagonal that holds offset `off` is the one `FindDiag` returns. */
  lemma FindDiagUnique(a: BDiag, off: int, d: int)
    requires Layout(a) && 0 <= d < |a.diag| && a.diag[d] == off
    ensures FindDiag(a.diag, off, |a.diag|) == d
  {
  }

  /** `r` is `dv` with at most slot `p` of diagonal `d` rewritten. */
  ghost predicate WritesSlot(dv: seq<seq<real>>, r: seq<seq<real>>, d: int, p: int)
  {
    && |r| == |dv| && 0 <= d < |dv| && |r[d]| == |dv[d]|
    && (forall e :: 0 <= e < |dv| && e != d ==> r[e] == dv[e])
    && (forall q :: 0 <= q < |dv[d]| && q != p ==> r[d][q] == dv[d][q])
  }

  /** Writing one slot changes exactly the matrix position that slot holds. */
  lemma ViewUpdate(a: BDiag, dv: seq<seq<real>>, r: seq<seq<real>>, d: int, p: int, i: int, j: int)
    requires Layout(a) && Shaped(a, dv) && WritesSlot(dv, r, d, p) && 0 <= p < a.m
    ensures Shaped(a, r)
    ensures View(a, r, i, j) ==
      if 0 <= i < a.m && 0 <= j < a.n && i == SlotRow(a, d, p) && j == SlotCol(a, d, p) then r[d][p] else View(a, dv, i, j)
  {
    if 0 <= i < a.m && 0 <= j < a.n {
      var e := FindDiag(a.diag, i - j, |a.diag|);
      if i == SlotRow(a, d, p) && j == SlotCol(a, d, p) {
        FindDiagUnique(a, i - j, d);
      }
    }
  }

  /** `dgptr` names the diagonal `FindDiag` finds, shifted by one. */
  lemma DgPtrIsFind(a: BDiag, off: int)
    requires Ready(a) && -(a.n as int) < off < a.m
    ensures DgPtr(a)[off + a.m] == FindDiag(a.diag, off, |a.diag|) + 1
  {
    DgPtrFinds(a, |a.diag|, off);
    var e := FindDiag(a.diag, off, |a.diag|);
    if e >= 0 {
      assert DgPtr(a)[off + a.m] == e + 1;
    }
  }

  /** The slot of diagonal `d2` that holds row `i` of column `col`. */
  function SlotOf(a: BDiag, d2: nat, i: int, col: int): int
    requires d2 < |a.diag|
  {
    if a.diag[d2] > 0 then col else i
  }

  /**
   * `r` is `dv` with only the slot of row `i` on diagonal `d2` rewritten:
   * it loses `mult` times slot `k` of diagonal `e`.
   */
  ghost predicate SlotLowered(a: BDiag, dv: seq<seq<real>>, r: seq<seq<real>>, k: nat, i: nat, mult: real, d2: nat, e: nat)
    requires Shaped(a, dv) && k < a.m && d2 < |a.diag| && e < |a.diag|
  {
    var p := SlotOf(a, d2, i, i - a.diag[d2]);
    && 0 <= p < a.m
    && WritesSlot(dv, r, d2, p)
    && r[d2][p] == dv[d2][p] - mult * dv[e][k]
  }

  /**
   * One pass of the loop over `d2`, in terms of the storage: when row `k`
   * stores column `col = i - diag[d2]` it rewrites exactly the slot of row
   * `i` on diagonal `d2`, subtracting `mult` times that stored entry;
   * otherwise it changes nothing.
   */
  lemma UpdateOneSlot(a: BDiag, ptr: seq<int>, dv: seq<seq<real>>, k: nat, i: nat, mult: real, d2: nat)
    requires Ready(a) && ptr == DgPtr(a) && Shaped(a, dv)
    requires k < i < a.m && d2 < |a.diag| && UpdateOne(a, ptr, dv, k, i, mult, d2).Ok?
    ensures var r := UpdateOne(a, ptr, dv, k, i, mult, d2).value;
      var col := i - a.diag[d2];
      var e := if 0 <= col < a.n then FindDiag(a.diag, k - col, |a.diag|) else -1;
      if e >= 0 then SlotLowered(a, dv, r, k, i, mult, d2, e) else r == dv
  {
    var col := i - a.diag[d2];
    if 0 <= col < a.n {
      DgPtrIsFind(a, k - col);
    }
  }

  /**
   * Rewriting the slot of row `i` on diagonal `d2` at column `col` with
   * `mult` times row `k`'s entry there changes exactly matrix entry
   * `(i, col)`, and leaves row `k` as it was.
   */
  lemma SlotUpdateView(a: BDiag, dv: seq<seq<real>>, r: seq<seq<real>>, k: nat, i: nat, mult: real, d2: nat, e: nat, i': int, j: int)
    requires Layout(a) && Shaped(a, dv) && k < i < a.m && d2 < |a.diag| && e < |a.diag|
    requires var col := i - a.diag[d2]; k <= col < a.n && a.diag[e] == k - col
    requires SlotLowered(a, dv, r, k, i, mult, d2, e)
    ensures Shaped(a, r)
    ensures View(a, r, i', j) ==
      if i' == i && j == i - a.diag[d2] then View(a, dv, i, j) - mult * View(a, dv, k, j)
      else View(a, dv, i', j)
  {
    var col := i - a.diag[d2];
    var p := SlotOf(a, d2, i, col);
    FindDiagUnique(a, i - col, d2);
    FindDiagUnique(a, k - col, e);
    assert SlotRow(a, d2, p) == i && SlotCol(a, d2, p) == col;
    assert View(a, dv, i, col) == dv[d2][p];
    assert View(a, dv, k, col) == dv[e][k];
    ViewUpdate(a, dv, r, d2, p, i', j);
  }

  /** A position on no stored diagonal is 0. */
  lemma ViewAbsent(a: BDiag, dv: seq<seq<real>>, i: int, j: int)
    requires Layout(a) && Shaped(a, dv) && !Stored(a, i, j)
    ensures View(a, dv, i, j) == 0.0
  {
  }

  /**
   * One pass of the loop over `d2`, when it raises no error: the stored
   * position of row `i` on diagonal `d2` loses `mult` times row `k`'s
   * entry in its column; every other position keeps its value.
   */
  lemma UpdateOneView(a: BDiag, ptr: seq<int>, dv: seq<seq<real>>, k: nat, i: nat, mult: real, d2: nat, i': int, j: int)
    requires Ready(a) && ptr == DgPtr(a) && Shaped(a, dv)
    requires k < i < a.m && d2 < |a.diag| && UpdateOne(a, ptr, dv, k, i, mult, d2).Ok?
    ensures View(a, UpdateOne(a, ptr, dv, k, i, mult, d2).value, i', j) ==
      if i' == i && Stored(a, i, j) && FindDiag(a.diag, i - j, |a.diag|) == d2
      then View(a, dv, i, j) - mult * View(a, dv, k, j)
      else View(a, dv, i', j)
  {
    UpdateOneSlot(a, ptr, dv, k, i, mult, d2);
    var col := i - a.diag[d2];
    if 0 <= col < a.n {
      FindDiagUnique(a, i - col, d2);
      var e := FindDiag(a.diag, k - col, |a.diag|);
      if e >= 0 {
        SlotUpdateView(a, dv, UpdateOne(a, ptr, dv, k, i, mult, d2).value, k, i, mult, d2, e, i', j);
      } else {
        ViewAbsent(a, dv, k, col);
      }
    }
  }
  /** A pass of the loop over `d2` keeps every position but the one it rewrites. */
  lemma UpdateOneKeeps(a: BDiag, ptr: seq<int>, dv: seq<seq<real>>, k: nat, i: nat, mult: real, d2: nat, i': int, j: int)
    requires Ready(a) && ptr == DgPtr(a) && Shaped(a, dv)
    requires k < i < a.m && d2 < |a.diag| && UpdateOne(a, ptr, dv, k, i, mult, d2).Ok?
    requires !(i' == i && Stored(a, i, j) && FindDiag(a.diag, i - j, |a.diag|) == d2)
    ensures View(a, UpdateOne(a, ptr, dv, k, i, mult, d2).value, i', j) == View(a, dv, i', j)
  {
    UpdateOneView(a, ptr, dv, k, i, mult, d2, i', j);
  }

  /** A pass of the loop over `d2` on row `i`, with the pivot row's entry named `pivot`. */
  lemma UpdateOneRow(a: BDiag, ptr: seq<int>, dv: seq<seq<real>>, k: nat, i: nat, mult: real, d2: nat, j: int, pivot: real)
    requires Ready(a) && ptr == DgPtr(a) && Shaped(a, dv)
    requires k < i < a.m && d2 < |a.diag| && UpdateOne(a, ptr, dv, k, i, mult, d2).Ok? && pivot == View(a, dv, k, j)
    ensures View(a, UpdateOne(a, ptr, dv, k, i, mult, d2).value, i, j) ==
      if Stored(a, i, j) && FindDiag(a.diag, i - j, |a.diag|) == d2 then View(a, dv, i, j) - mult * pivot
      else View(a, dv, i, j)
  {
    UpdateOneView(a, ptr, dv, k, i, mult, d2, i, j);
  }




  /**
   * The loop over `d2` on row `i = k + diag[d]`, from `d2` on, runs without
   * error.
   */
  ghost predicate RowPass(a: BDiag, ptr: seq<int>, dv: seq<seq<real>>, k: nat, d: nat, i: nat, mult: real, d2: nat)
  {
    && Ready(a) && ptr == DgPtr(a) && Shaped(a, dv)
    && k < a.m && d < a.mainbd && i == k + a.diag[d] < a.m && d < d2 <= |a.diag|
    && Updates(a, ptr, dv, k, d, i, mult, d2).Ok?
  }

  /** An error-free loop over `d2` is its first pass followed by the rest. */
  lemma UpdatesStep(a: BDiag, ptr: seq<int>, dv: seq<seq<real>>, k: nat, d: nat, i: nat, mult: real, d2: nat)
    requires RowPass(a, ptr, dv, k, d, i, mult, d2) && d2 < |a.diag|
    ensures UpdateOne(a, ptr, dv, k, i, mult, d2).Ok?
    ensures var dv' := UpdateOne(a, ptr, dv, k, i, mult, d2).value;
      && RowPass(a, ptr, dv', k, d, i, mult, d2 + 1)
      && Updates(a, ptr, dv, k, d, i, mult, d2).value == Updates(a, ptr, dv', k, d, i, mult, d2 + 1).value
  {
  }

  /** The loop over `d2` leaves every row but `i` as it was. */
  lemma {:induction false} UpdatesOtherRow(a: BDiag, ptr: seq<int>, dv: seq<seq<real>>, k: nat, d: nat, i: nat, mult: real, d2: nat, i': int, j: int)
    requires RowPass(a, ptr, dv, k, d, i, mult, d2) && i' != i
    ensures View(a, Updates(a, ptr, dv, k, d, i, mult, d2).value, i', j) == View(a, dv, i', j)
    decreases |a.diag| - d2
  {
    if d2 < |a.diag| {
      UpdatesStep(a, ptr, dv, k, d, i, mult, d2);
      var dv' := UpdateOne(a, ptr, dv, k, i, mult, d2).value;
      UpdateOneKeeps(a, ptr, dv, k, i, mult, d2, i', j);
      UpdatesOtherRow(a, ptr, dv', k, d, i, mult, d2 + 1, i', j);
    }
  }

  /**
   * The loop over `d2` subtracts `mult` times the pivot row's entry from
   * each stored position of row `i` whose diagonal comes at or after `d2`,
   * and keeps the other positions of row `i`.
   */
  lemma {:induction false} UpdatesRow(a: BDiag, ptr: seq<int>, dv: seq<seq<real>>, k: nat, d: nat, i: nat, mult: real, d2: nat, j: int, pivot: real)
    requires RowPass(a, ptr, dv, k, d, i, mult, d2) && pivot == View(a, dv, k, j)
    ensures View(a, Updates(a, ptr, dv, k, d, i, mult, d2).value, i, j) ==
      if Stored(a, i, j) && FindDiag(a.diag, i - j, |a.diag|) >= d2 then View(a, dv, i, j) - mult * pivot
      else View(a, dv, i, j)
    decreases |a.diag| - d2
  {
    if d2 < |a.diag| {
      UpdatesStep(a, ptr, dv, k, d, i, mult, d2);
      var dv' := UpdateOne(a, ptr, dv, k, i, mult, d2).value;
      UpdateOneRow(a, ptr, dv, k, i, mult, d2, j, pivot);
      UpdateOneKeeps(a, ptr, dv, k, i, mult, d2, k, j);
      UpdatesRow(a, ptr, dv', k, d, i, mult, d2 + 1, j, pivot);
    }
  }

  /** A position of row `i` on a diagonal at or after `d2` loses `mult` times the pivot row's entry. */
  lemma UpdatesRowHit(a: BDiag, ptr: seq<int>, dv: seq<seq<real>>, k: nat, d: nat, i: nat, mult: real, d2: nat, j: int, pivot: real)
    requires RowPass(a, ptr, dv, k, d, i, mult, d2) && pivot == View(a, dv, k, j)
    requires Stored(a, i, j) && FindDiag(a.diag, i - j, |a.diag|) >= d2
    ensures View(a, Updates(a, ptr, dv, k, d, i, mult, d2).value, i, j) == View(a, dv, i, j) - mult * pivot
  {
    UpdatesRow(a, ptr, dv, k, d, i, mult, d2, j, pivot);
  }

  /** Equal factors give equal products. */
  lemma MulBoth(x: real, x': real, y: real, y': real)
    requires x == x' && y == y'
    ensures x * y == x' * y'
  {
    ScaleBoth(x, x', y);
    ScaleBoth(y, y', x');
  }

  /** Scaling rewrites exactly entry `(k + diag[d], k)` of the matrix. */
  lemma ScaledView(a: BDiag, dv: seq<seq<real>>, k: nat, d: nat, x: int, y: int)
    requires Ready(a) && Shaped(a, dv) && k < a.m && d < a.mainbd && k + a.diag[d] < a.m
    ensures View(a, Scaled(a, dv, k, d), x, y) ==
      if x == k + a.diag[d] && y == k then Scaled(a, dv, k, d)[d][k] else View(a, dv, x, y)
  {
    var r := Scaled(a, dv, k, d);
    assert WritesSlot(dv, r, d, k);
    assert SlotRow(a, d, k) == k + a.diag[d] && SlotCol(a, d, k) == k;
    ViewUpdate(a, dv, r, d, k, x, y);
  }

  /** Scaling keeps every entry but `(k + diag[d], k)`. */
  lemma ScaledKeeps(a: BDiag, dv: seq<seq<real>>, k: nat, d: nat, x: int, y: int)
    requires Ready(a) && Shaped(a, dv) && k < a.m && d < a.mainbd && k + a.diag[d] < a.m
    requires x != k + a.diag[d] || y != k
    ensures View(a, Scaled(a, dv, k, d), x, y) == View(a, dv, x, y)
  {
    ScaledView(a, dv, k, d, x, y);
  }

  /** The scaled entry is the multiplier: the entry below the pivot times the stored reciprocal. */
  lemma ScaledMultiplier(a: BDiag, dv: seq<seq<real>>, k: nat, d: nat, row: int, below: real, piv: real)
    requires Ready(a) && Shaped(a, dv) && k < a.m && d < a.mainbd && row == k + a.diag[d] < a.m
    requires below == View(a, dv, row, k) && piv == View(a, dv, k, k)
    ensures Scaled(a, dv, k, d)[d][k] == below * piv
  {
    FindDiagUnique(a, row - k, d);
    ViewDiagonal(a, dv, k);
    MulBoth(dv[d][k], below, dv[a.mainbd][k], piv);
  }

  /** What the sweep over the first `cnt` lower diagonals for pivot `k` may assume. */
  ghost predicate SweepReady(a: BDiag, ptr: seq<int>, dv: seq<seq<real>>, k: nat, cnt: nat)
  {
    Ready(a) && Decreasing(a.diag) && ptr == DgPtr(a) && Shaped(a, dv) && k < a.m && cnt <= a.mainbd
  }

  /** Row `row` is one the sweep over the first `cnt` lower diagonals eliminates below pivot `k`. */
  ghost predicate Eliminated(a: BDiag, k: int, cnt: int, row: int)
  {
    k < row && Stored(a, row, k) && FindDiag(a.diag, row - k, |a.diag|) < cnt
  }

  /**
   * Entry `(row, j)` after the ILU(0) row operation with multiplier
   * `below * piv` (the entry `(row, k)` below the pivot times the stored
   * reciprocal pivot `(k, k)`) and pivot row entry `pj = (k, j)`: column `k`
   * takes the multiplier, the stored positions right of it lose the
   * multiplier times `pj`, and nothing fills in.
   */
  function Eliminate(a: BDiag, dv: seq<seq<real>>, k: int, row: int, j: int, below: real, piv: real, pj: real): real
    requires Layout(a) && Shaped(a, dv)
  {
    if j == k then below * piv
    else if k < j && Stored(a, row, j) then View(a, dv, row, j) - below * piv * pj
    else View(a, dv, row, j)
  }

  /** The three cases of the row operation, one equation each. */
  lemma EliminateCases(a: BDiag, dv: seq<seq<real>>, k: int, row: int, j: int, below: real, piv: real, pj: real)
    requires Layout(a) && Shaped(a, dv)
    ensures j == k ==> Eliminate(a, dv, k, row, j, below, piv, pj) == below * piv
    ensures j != k && k < j && Stored(a, row, j) ==> Eliminate(a, dv, k, row, j, below, piv, pj) == View(a, dv, row, j) - below * piv * pj
    ensures j != k && !(k < j && Stored(a, row, j)) ==> Eliminate(a, dv, k, row, j, below, piv, pj) == View(a, dv, row, j)
  {
  }

  /** A stored position right of the pivot column loses the multiplier times the pivot row's entry. */
  lemma EliminateRight(a: BDiag, dv: seq<seq<real>>, k: int, row: int, j: int, below: real, piv: real, pj: real)
    requires Layout(a) && Shaped(a, dv) && k < j && Stored(a, row, j)
    ensures Eliminate(a, dv, k, row, j, below, piv, pj) == View(a, dv, row, j) - below * piv * pj
  {
  }

  /** The row operation depends on the storage only through the entry it rewrites. */
  lemma EliminateFrame(a: BDiag, dv: seq<seq<real>>, dv': seq<seq<real>>, k: int, row: int, j: int, below: real, piv: real, pj: real)
    requires Layout(a) && Shaped(a, dv) && Shaped(a, dv') && View(a, dv', row, j) == View(a, dv, row, j)
    ensures Eliminate(a, dv', k, row, j, below, piv, pj) == Eliminate(a, dv, k, row, j, below, piv, pj)
  {
  }

  /** One step of the sweep: row `k + diag[d]` scaled and then updated by the loop over `d2`. */
  function RowStep(a: BDiag, ptr: seq<int>, dv: seq<seq<real>>, k: nat, d: nat): (r: seq<seq<real>>)
    requires Ready(a) && Below(a.diag, d) && ptr == DgPtr(a) && Shaped(a, dv)
    requires k < a.m && d < a.mainbd && k + a.diag[d] < a.m
    ensures Shaped(a, r)
  {
    var sc := Scaled(a, dv, k, d);
    Updates(a, ptr, sc, k, d, k + a.diag[d], sc[d][k], d + 1).value
  }

  /** A sweep step that eliminates a row is that row's step followed by the rest of the sweep. */
  lemma SweepUnfold(a: BDiag, ptr: seq<int>, dv: seq<seq<real>>, k: nat, cnt: nat)
    requires SweepReady(a, ptr, dv, k, cnt) && cnt > 0 && k + a.diag[cnt - 1] < a.m && dv[cnt - 1][k] != 0.0
    ensures Below(a.diag, cnt - 1)
    ensures SweepReady(a, ptr, RowStep(a, ptr, dv, k, cnt - 1), k, cnt - 1)
    ensures Sweep(a, ptr, dv, k, cnt).value == Sweep(a, ptr, RowStep(a, ptr, dv, k, cnt - 1), k, cnt - 1).value
  {
    DecreasingBelow(a.diag, cnt - 1);
  }

  /** A row step is an error-free loop over `d2` on the scaled storage. */
  lemma RowStepPass(a: BDiag, ptr: seq<int>, dv: seq<seq<real>>, k: nat, d: nat, row: int, mult: real)
    requires Ready(a) && Below(a.diag, d) && ptr == DgPtr(a) && Shaped(a, dv)
    requires k < a.m && d < a.mainbd && row == k + a.diag[d] < a.m && mult == Scaled(a, dv, k, d)[d][k]
    ensures var sc := Scaled(a, dv, k, d);
      && RowPass(a, ptr, sc, k, d, row, mult, d + 1)
      && RowStep(a, ptr, dv, k, d) == Updates(a, ptr, sc, k, d, row, mult, d + 1).value
  {
  }

  /** A diagonal that misses the matrix or holds a zero below the pivot is passed over. */
  lemma SweepSkip(a: BDiag, ptr: seq<int>, dv: seq<seq<real>>, k: nat, cnt: nat)
    requires SweepReady(a, ptr, dv, k, cnt) && cnt > 0
    requires !(k + a.diag[cnt - 1] < a.m && dv[cnt - 1][k] != 0.0)
    ensures Sweep(a, ptr, dv, k, cnt) == Sweep(a, ptr, dv, k, cnt - 1)
  {
  }

  /** A row step leaves every row but its own. */
  lemma RowStepKeeps(a: BDiag, ptr: seq<int>, dv: seq<seq<real>>, k: nat, d: nat, x: int, y: int)
    requires Ready(a) && Below(a.diag, d) && ptr == DgPtr(a) && Shaped(a, dv)
    requires k < a.m && d < a.mainbd && k + a.diag[d] < a.m && x != k + a.diag[d]
    ensures View(a, RowStep(a, ptr, dv, k, d), x, y) == View(a, dv, x, y)
  {
    var sc := Scaled(a, dv, k, d);
    RowStepPass(a, ptr, dv, k, d, k + a.diag[d], sc[d][k]);
    ScaledView(a, dv, k, d, x, y);
    UpdatesOtherRow(a, ptr, sc, k, d, k + a.diag[d], sc[d][k], d + 1, x, y);
  }

  /**
   * With offsets in decreasing order, a stored position of row
   * `k + diag[d]` lies on a diagonal after `d` exactly when it is right of
   * column `k`.
   */
  lemma AfterIffRight(a: BDiag, k: nat, d: nat, j: int)
    requires Ready(a) && Decreasing(a.diag) && d < a.mainbd && Stored(a, k + a.diag[d], j)
    ensures FindDiag(a.diag, k + a.diag[d] - j, |a.diag|) > d <==> k < j
    ensures FindDiag(a.diag, k + a.diag[d] - j, |a.diag|) == d <==> j == k
  {
    var e := FindDiag(a.diag, k + a.diag[d] - j, |a.diag|);
    DecreasingBelow(a.diag, e);
    DecreasingBelow(a.diag, d);
    FindDiagUnique(a, a.diag[d], d);
  }

  /** The row step of row `row = k + diag[d]` puts the multiplier in column `k`. */
  lemma RowStepColumn(a: BDiag, ptr: seq<int>, dv: seq<seq<real>>, k: nat, d: nat, row: int, below: real, piv: real)
    requires Ready(a) && Below(a.diag, d) && ptr == DgPtr(a) && Shaped(a, dv)
    requires k < a.m && d < a.mainbd && row == k + a.diag[d] < a.m
    requires below == View(a, dv, row, k) && piv == View(a, dv, k, k)
    ensures View(a, RowStep(a, ptr, dv, k, d), row, k) == below * piv
  {
    var sc := Scaled(a, dv, k, d);
    RowStepPass(a, ptr, dv, k, d, row, sc[d][k]);
    FindDiagUnique(a, row - k, d);
    ScaledView(a, dv, k, d, row, k);
    ScaledMultiplier(a, dv, k, d, row, below, piv);
    UpdatesRow(a, ptr, sc, k, d, row, sc[d][k], d + 1, k, View(a, sc, k, k));
  }

  /** The row step of row `row = k + diag[d]` updates its stored positions right of column `k`. */
  lemma RowStepRight(a: BDiag, ptr: seq<int>, dv: seq<seq<real>>, k: nat, d: nat, row: int, j: int, below: real, piv: real, pj: real)
    requires Ready(a) && Below(a.diag, d) && ptr == DgPtr(a) && Shaped(a, dv)
    requires k < a.m && d < a.mainbd && row == k + a.diag[d] < a.m && k < j
    requires Stored(a, row, j) && FindDiag(a.diag, row - j, |a.diag|) > d
    requires below == View(a, dv, row, k) && piv == View(a, dv, k, k) && pj == View(a, dv, k, j)
    ensures View(a, RowStep(a, ptr, dv, k, d), row, j) == View(a, dv, row, j) - below * piv * pj
  {
    var sc, mult := Scaled(a, dv, k, d), below * piv;
    ScaledMultiplier(a, dv, k, d, row, below, piv);
    RowStepPass(a, ptr, dv, k, d, row, mult);
    ScaledKeeps(a, dv, k, d, k, j);
    ScaledKeeps(a, dv, k, d, row, j);
    UpdatesRowHit(a, ptr, sc, k, d, row, mult, d + 1, j, pj);
    var after := Updates(a, ptr, sc, k, d, row, mult, d + 1).value;
    assert View(a, after, row, j) == View(a, dv, row, j) - mult * pj;
  }

  /** The row step of row `row = k + diag[d]` keeps its positions left of column `k` and those it does not store. */
  lemma RowStepLeft(a: BDiag, ptr: seq<int>, dv: seq<seq<real>>, k: nat, d: nat, row: int, j: int)
    requires Ready(a) && Below(a.diag, d) && ptr == DgPtr(a) && Shaped(a, dv)
    requires k < a.m && d < a.mainbd && row == k + a.diag[d] < a.m && j != k
    requires !(Stored(a, row, j) && FindDiag(a.diag, row - j, |a.diag|) > d)
    ensures View(a, RowStep(a, ptr, dv, k, d), row, j) == View(a, dv, row, j)
  {
    var sc := Scaled(a, dv, k, d);
    RowStepPass(a, ptr, dv, k, d, row, sc[d][k]);
    ScaledView(a, dv, k, d, row, j);
    UpdatesRow(a, ptr, sc, k, d, row, sc[d][k], d + 1, j, View(a, sc, k, j));
  }

  /** The sweep over the first `cnt` lower diagonals leaves every row it does not eliminate. */
  lemma {:induction false} SweepKeeps(a: BDiag, ptr: seq<int>, dv: seq<seq<real>>, k: nat, cnt: nat, row: int, j: int)
    requires SweepReady(a, ptr, dv, k, cnt) && !Eliminated(a, k, cnt, row)
    ensures View(a, Sweep(a, ptr, dv, k, cnt).value, row, j) == View(a, dv, row, j)
    decreases cnt
  {
    if cnt > 0 {
      var d := cnt - 1;
      if k + a.diag[d] < a.m && dv[d][k] != 0.0 {
        SweepUnfold(a, ptr, dv, k, cnt);
        FindDiagUnique(a, a.diag[d], d);
        RowStepKeeps(a, ptr, dv, k, d, row, j);
        SweepKeeps(a, ptr, RowStep(a, ptr, dv, k, d), k, d, row, j);
      } else {
        SweepSkip(a, ptr, dv, k, cnt);
        SweepKeeps(a, ptr, dv, k, d, row, j);
      }
    }
  }

  /** After the step that eliminates row `row = k + diag[d]`, the rest of the sweep leaves that row. */
  lemma SweepAfterOwnStep(a: BDiag, ptr: seq<int>, dv: seq<seq<real>>, k: nat, d: nat, row: int, j: int)
    requires SweepReady(a, ptr, dv, k, d + 1) && row == k + a.diag[d] < a.m && dv[d][k] != 0.0
    ensures Below(a.diag, d)
    ensures View(a, Sweep(a, ptr, dv, k, d + 1).value, row, j) == View(a, RowStep(a, ptr, dv, k, d), row, j)
  {
    SweepUnfold(a, ptr, dv, k, d + 1);
    FindDiagUnique(a, row - k, d);
    SweepKeeps(a, ptr, RowStep(a, ptr, dv, k, d), k, d, row, j);
  }

  /** The sweep step that eliminates row `row = k + diag[d]`, when its entry below the pivot is nonzero. */
  lemma SweepElimHere(a: BDiag, ptr: seq<int>, dv: seq<seq<real>>, k: nat, d: nat, row: int, j: int, below: real, piv: real, pj: real)
    requires SweepReady(a, ptr, dv, k, d + 1) && row == k + a.diag[d] < a.m && dv[d][k] != 0.0
    requires below == View(a, dv, row, k) && piv == View(a, dv, k, k) && pj == View(a, dv, k, j)
    ensures View(a, Sweep(a, ptr, dv, k, d + 1).value, row, j) == Eliminate(a, dv, k, row, j, below, piv, pj)
  {
    SweepAfterOwnStep(a, ptr, dv, k, d, row, j);
    EliminateCases(a, dv, k, row, j, below, piv, pj);
    if Stored(a, row, j) {
      AfterIffRight(a, k, d, j);
    }
    if j == k {
      RowStepColumn(a, ptr, dv, k, d, row, below, piv);
    } else if k < j && Stored(a, row, j) {
      RowStepRight(a, ptr, dv, k, d, row, j, below, piv, pj);
    } else {
      RowStepLeft(a, ptr, dv, k, d, row, j);
    }
  }

  /** The sweep step for row `row = k + diag[d]` skipped because its entry below the pivot is 0. */
  lemma SweepElimZero(a: BDiag, ptr: seq<int>, dv: seq<seq<real>>, k: nat, d: nat, row: int, j: int, below: real, piv: real, pj: real)
    requires SweepReady(a, ptr, dv, k, d + 1) && row == k + a.diag[d] < a.m && dv[d][k] == 0.0
    requires below == View(a, dv, row, k) && piv == View(a, dv, k, k) && pj == View(a, dv, k, j)
    ensures View(a, Sweep(a, ptr, dv, k, d + 1).value, row, j) == Eliminate(a, dv, k, row, j, below, piv, pj)
  {
    SweepSkip(a, ptr, dv, k, d + 1);
    FindDiagUnique(a, row - k, d);
    SweepKeeps(a, ptr, dv, k, d, row, j);
    assert below == 0.0;
    ScaleBoth(below, 0.0, piv);
    ScaleBoth(below * piv, 0.0, pj);
    EliminateCases(a, dv, k, row, j, below, piv, pj);
  }

  /** A sweep step for another row keeps what the eliminated row's operation reads. */
  lemma RowStepFrame(a: BDiag, ptr: seq<int>, dv: seq<seq<real>>, k: nat, d: nat, row: int, j: int, below: real, piv: real, pj: real)
    requires SweepReady(a, ptr, dv, k, d + 1) && k + a.diag[d] < a.m && Eliminated(a, k, d, row)
    requires below == View(a, dv, row, k) && piv == View(a, dv, k, k) && pj == View(a, dv, k, j)
    ensures Below(a.diag, d)
    ensures var dv' := RowStep(a, ptr, dv, k, d);
      && below == View(a, dv', row, k) && piv == View(a, dv', k, k) && pj == View(a, dv', k, j)
      && Eliminate(a, dv', k, row, j, below, piv, pj) == Eliminate(a, dv, k, row, j, below, piv, pj)
  {
    DecreasingBelow(a.diag, d);
    var dv' := RowStep(a, ptr, dv, k, d);
    FindDiagUnique(a, a.diag[d], d);
    RowStepKeeps(a, ptr, dv, k, d, row, k);
    RowStepKeeps(a, ptr, dv, k, d, row, j);
    RowStepKeeps(a, ptr, dv, k, d, k, k);
    RowStepKeeps(a, ptr, dv, k, d, k, j);
    EliminateFrame(a, dv, dv', k, row, j, below, piv, pj);
  }

  /** A sweep step for another row leaves the eliminated row's operation to the rest of the sweep. */
  lemma {:induction false} SweepElimPast(a: BDiag, ptr: seq<int>, dv: seq<seq<real>>, k: nat, d: nat, row: int, j: int, below: real, piv: real, pj: real)
    requires SweepReady(a, ptr, dv, k, d + 1) && Eliminated(a, k, d, row)
    requires k + a.diag[d] < a.m && dv[d][k] != 0.0
    requires below == View(a, dv, row, k) && piv == View(a, dv, k, k) && pj == View(a, dv, k, j)
    ensures View(a, Sweep(a, ptr, dv, k, d + 1).value, row, j) == Eliminate(a, dv, k, row, j, below, piv, pj)
    decreases d + 1, 0
  {
    SweepUnfold(a, ptr, dv, k, d + 1);
    RowStepFrame(a, ptr, dv, k, d, row, j, below, piv, pj);
    SweepElim(a, ptr, RowStep(a, ptr, dv, k, d), k, d, row, j, below, piv, pj);
  }

  /** A skipped sweep step leaves the eliminated row's operation to the rest of the sweep. */
  lemma {:induction false} SweepElimSkipped(a: BDiag, ptr: seq<int>, dv: seq<seq<real>>, k: nat, d: nat, row: int, j: int, below: real, piv: real, pj: real)
    requires SweepReady(a, ptr, dv, k, d + 1) && Eliminated(a, k, d, row)
    requires !(k + a.diag[d] < a.m && dv[d][k] != 0.0)
    requires below == View(a, dv, row, k) && piv == View(a, dv, k, k) && pj == View(a, dv, k, j)
    ensures View(a, Sweep(a, ptr, dv, k, d + 1).value, row, j) == Eliminate(a, dv, k, row, j, below, piv, pj)
    decreases d + 1, 0
  {
    SweepSkip(a, ptr, dv, k, d + 1);
    SweepElim(a, ptr, dv, k, d, row, j, below, piv, pj);
  }


  /**
   * With offsets in decreasing order, the sweep applies the ILU(0) row
   * operation to each row it eliminates, with multiplier `below * piv`:
   * the entry `(row, k)` below the pivot times the stored reciprocal pivot.
   */
  lemma {:induction false} SweepElim(a: BDiag, ptr: seq<int>, dv: seq<seq<real>>, k: nat, cnt: nat, row: int, j: int, below: real, piv: real, pj: real)
    requires SweepReady(a, ptr, dv, k, cnt) && Eliminated(a, k, cnt, row)
    requires below == View(a, dv, row, k) && piv == View(a, dv, k, k) && pj == View(a, dv, k, j)
    ensures View(a, Sweep(a, ptr, dv, k, cnt).value, row, j) == Eliminate(a, dv, k, row, j, below, piv, pj)
    decreases cnt, 1
  {
    var d := cnt - 1;
    if FindDiag(a.diag, row - k, |a.diag|) == d {
      if dv[d][k] != 0.0 {
        SweepElimHere(a, ptr, dv, k, d, row, j, below, piv, pj);
      } else {
        SweepElimZero(a, ptr, dv, k, d, row, j, below, piv, pj);
      }
    } else if k + a.diag[d] < a.m && dv[d][k] != 0.0 {
      SweepElimPast(a, ptr, dv, k, d, row, j, below, piv, pj);
    } else {
      SweepElimSkipped(a, ptr, dv, k, d, row, j, below, piv, pj);
    }
  }

  /**
   * The sweep over the first `cnt` lower diagonals for pivot `k`: each row
   * it reaches gets the ILU(0) row operation and every other row is kept.
   */
  lemma SweepView(a: BDiag, ptr: seq<int>, dv: seq<seq<real>>, k: nat, cnt: nat, row: int, j: int, below: real, piv: real, pj: real)
    requires SweepReady(a, ptr, dv, k, cnt)
    requires below == View(a, dv, row, k) && piv == View(a, dv, k, k) && pj == View(a, dv, k, j)
    ensures View(a, Sweep(a, ptr, dv, k, cnt).value, row, j) ==
      if Eliminated(a, k, cnt, row) then Eliminate(a, dv, k, row, j, below, piv, pj) else View(a, dv, row, j)
  {
    if Eliminated(a, k, cnt, row) {
      SweepElim(a, ptr, dv, k, cnt, row, j, below, piv, pj);
    } else {
      SweepKeeps(a, ptr, dv, k, cnt, row, j);
    }
  }

  // ---------------------------------------------------------------------
  // One pass of the loop over pivots is the ILU(0) step for that pivot.
  // ---------------------------------------------------------------------

  /** `M` is a dense square matrix of `a`'s order. */
  ghost predicate Square(a: BDiag, M: seq<seq<real>>)
  {
    |M| == a.m && forall i :: 0 <= i < |M| ==> |M[i]| == a.m
  }

  /** The dense matrix the storage `dv` represents. */
  function Matrix(a: BDiag, dv: seq<seq<real>>): (M: seq<seq<real>>)
    requires Ready(a) && Shaped(a, dv)
    ensures Square(a, M)
  {
    seq(a.m, i requires 0 <= i < a.m => seq(a.m, j requires 0 <= j < a.m => View(a, dv, i, j)))
  }

  /** Each entry of the dense matrix is the entry the storage represents. */
  lemma MatrixAt(a: BDiag, dv: seq<seq<real>>, i: int, j: int)
    requires Ready(a) && Shaped(a, dv) && 0 <= i < a.m && 0 <= j < a.m
    ensures Matrix(a, dv)[i][j] == View(a, dv, i, j)
  {
  }

  /**
   * Entry `(i, j)` of the dense matrix `M` after the ILU(0) step for pivot
   * `k` on the pattern of `a`: the pivot is replaced by its reciprocal `p`,
   * each entry `(i, k)` of the pattern below it becomes the multiplier
   * `(i, k) * p`, and each entry `(i, j)` of the pattern right of column `k`
   * in such a row loses the multiplier times `(k, j)`.  Entries off the
   * pattern never change, so nothing fills in.
   */
  function IluEntry(a: BDiag, M: seq<seq<real>>, k: int, i: int, j: int): real
    requires Square(a, M) && 0 <= k < a.m && 0 <= i < a.m && 0 <= j < a.m
  {
    var p := Quot(1.0, M[k][k]);
    if i == k && j == k then p
    else if k < i && Stored(a, i, k) && j == k then M[i][k] * p
    else if k < i && Stored(a, i, k) && k < j && Stored(a, i, j) then M[i][j] - M[i][k] * p * M[k][j]
    else M[i][j]
  }

  /** The cases of the ILU(0) step, one equation each, with the entries it reads named. */
  lemma IluEntryCases(a: BDiag, M: seq<seq<real>>, k: int, i: int, j: int, mik: real, p: real, mkj: real)
    requires Square(a, M) && 0 <= k < a.m && 0 <= i < a.m && 0 <= j < a.m
    requires mik == M[i][k] && p == Quot(1.0, M[k][k]) && mkj == M[k][j]
    ensures i == k && j == k ==> IluEntry(a, M, k, i, j) == p
    ensures k < i && Stored(a, i, k) && j == k ==> IluEntry(a, M, k, i, j) == mik * p
    ensures k < i && Stored(a, i, k) && k < j && Stored(a, i, j) ==> IluEntry(a, M, k, i, j) == M[i][j] - mik * p * mkj
    ensures !(i == k && j == k) && !(k < i && Stored(a, i, k) && (j == k || (k < j && Stored(a, i, j)))) ==>
      IluEntry(a, M, k, i, j) == M[i][j]
  {
  }

  /** The ILU(0) step for pivot `k` on the whole dense matrix. */
  function IluStep(a: BDiag, M: seq<seq<real>>, k: int): (r: seq<seq<real>>)
    requires Square(a, M) && 0 <= k < a.m
    ensures Square(a, r)
    ensures forall i, j :: 0 <= i < a.m && 0 <= j < a.m ==> r[i][j] == IluEntry(a, M, k, i, j)
  {
    seq(a.m, i requires 0 <= i < a.m => seq(a.m, j requires 0 <= j < a.m => IluEntry(a, M, k, i, j)))
  }

  /** The ILU(0) steps for pivots `k .. m - 1` in turn: the incomplete factorisation of `M`. */
  function IluFrom(a: BDiag, M: seq<seq<real>>, k: nat): (r: seq<seq<real>>)
    requires Square(a, M) && k <= a.m
    ensures Square(a, r)
    decreases a.m - k
  {
    if k == a.m then M else IluFrom(a, IluStep(a, M, k), k + 1)
  }

  /** Inverting pivot `k` rewrites exactly entry `(k, k)` of the matrix. */
  lemma InvertedView(a: BDiag, dv: seq<seq<real>>, k: nat, x: int, y: int)
    requires Ready(a) && Shaped(a, dv) && k < a.m
    ensures View(a, Inverted(a, dv, k), x, y) ==
      if x == k && y == k then Quot(1.0, View(a, dv, k, k)) else View(a, dv, x, y)
  {
    var r := Inverted(a, dv, k);
    assert WritesSlot(dv, r, a.mainbd, k);
    assert SlotRow(a, a.mainbd, k) == k && SlotCol(a, a.mainbd, k) == k;
    ViewDiagonal(a, dv, k);
    ViewUpdate(a, dv, r, a.mainbd, k, x, y);
  }

  /** Inverting pivot `k` keeps every other entry. */
  lemma InvertedKeeps(a: BDiag, dv: seq<seq<real>>, k: nat, x: int, y: int)
    requires Ready(a) && Shaped(a, dv) && k < a.m && (x != k || y != k)
    ensures View(a, Inverted(a, dv, k), x, y) == View(a, dv, x, y)
  {
    InvertedView(a, dv, k, x, y);
  }

  /** Inverting pivot `k` stores its reciprocal. */
  lemma InvertedPivot(a: BDiag, dv: seq<seq<real>>, k: nat)
    requires Ready(a) && Shaped(a, dv) && k < a.m
    ensures View(a, Inverted(a, dv, k), k, k) == Quot(1.0, View(a, dv, k, k))
  {
    InvertedView(a, dv, k, k, k);
  }

  /** What one pass of the loop over pivots for pivot `k` may assume. */
  ghost predicate StepReady(a: BDiag, ptr: seq<int>, dv: seq<seq<real>>, k: nat)
  {
    Ready(a) && Decreasing(a.diag) && ptr == DgPtr(a) && Shaped(a, dv) && k < a.m
  }

  /** The stored reciprocal pivot is the reciprocal of the dense pivot. */
  lemma PivotReciprocal(a: BDiag, dv: seq<seq<real>>, k: nat)
    requires Ready(a) && Shaped(a, dv) && k < a.m
    ensures View(a, Inverted(a, dv, k), k, k) == Quot(1.0, Matrix(a, dv)[k][k])
  {
    InvertedPivot(a, dv, k);
    MatrixAt(a, dv, k, k);
  }

  /** A pass of the loop over pivots is the sweep over all lower diagonals on the inverted storage. */
  lemma PivotStepSweep(a: BDiag, ptr: seq<int>, dv: seq<seq<real>>, k: nat)
    requires StepReady(a, ptr, dv, k)
    ensures SweepReady(a, ptr, Inverted(a, dv, k), k, a.mainbd)
    ensures PivotStep(a, ptr, dv, k) == Sweep(a, ptr, Inverted(a, dv, k), k, a.mainbd)
  {
  }

  /** Every stored entry below pivot `k` is reached by the sweep over all lower diagonals. */
  lemma BelowEliminated(a: BDiag, k: int, i: int)
    requires Layout(a)
    ensures Eliminated(a, k, a.mainbd, i) <==> k < i && Stored(a, i, k)
  {
    if k < i && Stored(a, i, k) {
      var e := FindDiag(a.diag, i - k, |a.diag|);
      assert a.diag[e] > 0;
      assert e < a.mainbd;
    }
  }

  /** Pivot `k` becomes its reciprocal. */
  lemma PivotStepPivot(a: BDiag, ptr: seq<int>, dv: seq<seq<real>>, k: nat)
    requires StepReady(a, ptr, dv, k)
    ensures View(a, PivotStep(a, ptr, dv, k).value, k, k) == IluEntry(a, Matrix(a, dv), k, k, k)
  {
    var M := Matrix(a, dv);
    PivotStepSweep(a, ptr, dv, k);
    BelowEliminated(a, k, k);
    SweepKeeps(a, ptr, Inverted(a, dv, k), k, a.mainbd, k, k);
    InvertedPivot(a, dv, k);
    MatrixAt(a, dv, k, k);
    IluEntryCases(a, M, k, k, k, M[k][k], Quot(1.0, M[k][k]), M[k][k]);
  }

  /** A row the step does not reach keeps its entries, except the pivot. */
  lemma PivotStepUntouched(a: BDiag, ptr: seq<int>, dv: seq<seq<real>>, k: nat, i: int, j: int)
    requires StepReady(a, ptr, dv, k)
    requires 0 <= i < a.m && 0 <= j < a.m && !(k < i && Stored(a, i, k)) && (i != k || j != k)
    ensures View(a, PivotStep(a, ptr, dv, k).value, i, j) == IluEntry(a, Matrix(a, dv), k, i, j)
  {
    var M := Matrix(a, dv);
    PivotStepSweep(a, ptr, dv, k);
    BelowEliminated(a, k, i);
    SweepKeeps(a, ptr, Inverted(a, dv, k), k, a.mainbd, i, j);
    InvertedKeeps(a, dv, k, i, j);
    MatrixAt(a, dv, i, j);
    IluEntryCases(a, M, k, i, j, M[i][k], Quot(1.0, M[k][k]), M[k][j]);
  }

  /** A row the step reaches gets the row operation of the sweep, on the inverted storage. */
  lemma PivotStepElim(a: BDiag, ptr: seq<int>, dv: seq<seq<real>>, k: nat, i: int, j: int, below: real, piv: real, pj: real)
    requires StepReady(a, ptr, dv, k) && k < i && Stored(a, i, k)
    requires below == View(a, Inverted(a, dv, k), i, k) && piv == View(a, Inverted(a, dv, k), k, k)
    requires pj == View(a, Inverted(a, dv, k), k, j)
    ensures View(a, PivotStep(a, ptr, dv, k).value, i, j) == Eliminate(a, Inverted(a, dv, k), k, i, j, below, piv, pj)
  {
    PivotStepSweep(a, ptr, dv, k);
    BelowEliminated(a, k, i);
    SweepElim(a, ptr, Inverted(a, dv, k), k, a.mainbd, i, j, below, piv, pj);
  }

  /** A stored entry below the pivot becomes the multiplier, on the storage. */
  lemma PivotStepMultiplier(a: BDiag, ptr: seq<int>, dv: seq<seq<real>>, k: nat, i: int, p: real)
    requires StepReady(a, ptr, dv, k)
    requires k < i && Stored(a, i, k) && p == View(a, Inverted(a, dv, k), k, k)
    ensures View(a, PivotStep(a, ptr, dv, k).value, i, k) == View(a, dv, i, k) * p
  {
    var dv1 := Inverted(a, dv, k);
    InvertedKeeps(a, dv, k, i, k);
    PivotStepElim(a, ptr, dv, k, i, k, View(a, dv, i, k), p, View(a, dv1, k, k));
    EliminateCases(a, dv1, k, i, k, View(a, dv, i, k), p, View(a, dv1, k, k));
  }

  /** A stored entry below the pivot becomes the multiplier. */
  lemma PivotStepColumn(a: BDiag, ptr: seq<int>, dv: seq<seq<real>>, k: nat, i: int)
    requires StepReady(a, ptr, dv, k)
    requires k < i < a.m && Stored(a, i, k)
    ensures View(a, PivotStep(a, ptr, dv, k).value, i, k) == IluEntry(a, Matrix(a, dv), k, i, k)
  {
    var M := Matrix(a, dv);
    var p := View(a, Inverted(a, dv, k), k, k);
    MatrixAt(a, dv, i, k);
    PivotReciprocal(a, dv, k);
    PivotStepMultiplier(a, ptr, dv, k, i, p);
    IluEntryCases(a, M, k, i, k, View(a, dv, i, k), p, M[k][k]);
  }

  /** Inverting pivot `k` keeps the entries `(i, k)`, `(k, j)` and `(i, j)` off the pivot. */
  lemma InvertedKeepsRow(a: BDiag, dv: seq<seq<real>>, k: nat, i: int, j: int)
    requires Ready(a) && Shaped(a, dv) && k < a.m && k < i && k < j
    ensures View(a, Inverted(a, dv, k), i, k) == View(a, dv, i, k)
    ensures View(a, Inverted(a, dv, k), k, j) == View(a, dv, k, j)
    ensures View(a, Inverted(a, dv, k), i, j) == View(a, dv, i, j)
  {
    InvertedKeeps(a, dv, k, i, k);
    InvertedKeeps(a, dv, k, k, j);
    InvertedKeeps(a, dv, k, i, j);
  }

  /** `PivotStepElim` right of the pivot column, where the row's stored entry is updated. */
  lemma PivotStepElimRight(a: BDiag, ptr: seq<int>, dv: seq<seq<real>>, k: nat, i: int, j: int, below: real, piv: real, pj: real)
    requires StepReady(a, ptr, dv, k) && k < i && Stored(a, i, k) && k < j && Stored(a, i, j)
    requires below == View(a, Inverted(a, dv, k), i, k) && piv == View(a, Inverted(a, dv, k), k, k)
    requires pj == View(a, Inverted(a, dv, k), k, j)
    ensures View(a, PivotStep(a, ptr, dv, k).value, i, j) == View(a, Inverted(a, dv, k), i, j) - below * piv * pj
  {
    PivotStepElim(a, ptr, dv, k, i, j, below, piv, pj);
    EliminateRight(a, Inverted(a, dv, k), k, i, j, below, piv, pj);
  }

  /** A stored entry right of the pivot column, in a row the step reaches, loses the multiplier times the pivot row's entry. */
  lemma PivotStepRight(a: BDiag, ptr: seq<int>, dv: seq<seq<real>>, k: nat, i: int, j: int)
    requires StepReady(a, ptr, dv, k)
    requires k < i < a.m && Stored(a, i, k) && k < j < a.m && Stored(a, i, j)
    ensures View(a, PivotStep(a, ptr, dv, k).value, i, j) == IluEntry(a, Matrix(a, dv), k, i, j)
  {
    var p := View(a, Inverted(a, dv, k), k, k);
    var below, pj := View(a, dv, i, k), View(a, dv, k, j);
    InvertedKeepsRow(a, dv, k, i, j);
    PivotStepElimRight(a, ptr, dv, k, i, j, below, p, pj);
    IluEntryRight(a, dv, k, i, j, below, p, pj);
  }

  /** The dense ILU(0) entry right of the pivot column, read off the stored diagonals. */
  lemma IluEntryRight(a: BDiag, dv: seq<seq<real>>, k: nat, i: int, j: int, below: real, p: real, pj: real)
    requires Ready(a) && Shaped(a, dv)
    requires k < i < a.m && Stored(a, i, k) && k < j < a.m && Stored(a, i, j)
    requires below == View(a, dv, i, k) && p == View(a, Inverted(a, dv, k), k, k) && pj == View(a, dv, k, j)
    ensures IluEntry(a, Matrix(a, dv), k, i, j) == View(a, dv, i, j) - below * p * pj
  {
    MatrixAt(a, dv, i, k);
    MatrixAt(a, dv, k, j);
    MatrixAt(a, dv, i, j);
    PivotReciprocal(a, dv, k);
    IluEntryCases(a, Matrix(a, dv), k, i, j, below, p, pj);
  }

  /** In a row the step reaches, the entries left of the pivot column and those off the pattern stay. */
  lemma PivotStepLeft(a: BDiag, ptr: seq<int>, dv: seq<seq<real>>, k: nat, i: int, j: int)
    requires StepReady(a, ptr, dv, k)
    requires k < i < a.m && Stored(a, i, k) && 0 <= j < a.m && j != k && !(k < j && Stored(a, i, j))
    ensures View(a, PivotStep(a, ptr, dv, k).value, i, j) == IluEntry(a, Matrix(a, dv), k, i, j)
  {
    var M := Matrix(a, dv);
    var dv1 := Inverted(a, dv, k);
    InvertedKeeps(a, dv, k, i, j);
    MatrixAt(a, dv, i, j);
    PivotStepElim(a, ptr, dv, k, i, j, View(a, dv1, i, k), View(a, dv1, k, k), View(a, dv1, k, j));
    EliminateCases(a, dv1, k, i, j, View(a, dv1, i, k), View(a, dv1, k, k), View(a, dv1, k, j));
    IluEntryCases(a, M, k, i, j, M[i][k], Quot(1.0, M[k][k]), M[k][j]);
  }

  /**
   * With offsets in decreasing order, one pass of the loop over pivots
   * succeeds and performs the ILU(0) step for pivot `k` on the matrix the
   * storage represents.
   */
  lemma PivotStepView(a: BDiag, ptr: seq<int>, dv: seq<seq<real>>, k: nat, i: int, j: int)
    requires StepReady(a, ptr, dv, k)
    requires 0 <= i < a.m && 0 <= j < a.m
    ensures PivotStep(a, ptr, dv, k).Ok?
    ensures View(a, PivotStep(a, ptr, dv, k).value, i, j) == IluEntry(a, Matrix(a, dv), k, i, j)
  {
    if i == k && j == k {
      PivotStepPivot(a, ptr, dv, k);
    } else if k < i && Stored(a, i, k) && j == k {
      PivotStepColumn(a, ptr, dv, k, i);
    } else if k < i && Stored(a, i, k) && k < j && Stored(a, i, j) {
      PivotStepRight(a, ptr, dv, k, i, j);
    } else if k < i && Stored(a, i, k) {
      PivotStepLeft(a, ptr, dv, k, i, j);
    } else {
      PivotStepUntouched(a, ptr, dv, k, i, j);
    }
  }

  /** Dense square matrices with the same entries are equal. */
  lemma SquareEqual(a: BDiag, M: seq<seq<real>>, N: seq<seq<real>>)
    requires Square(a, M) && Square(a, N)
    requires forall i, j :: 0 <= i < a.m && 0 <= j < a.m ==> M[i][j] == N[i][j]
    ensures M == N
  {
    forall i | 0 <= i < a.m
      ensures M[i] == N[i]
    {
      assert forall j :: 0 <= j < a.m ==> M[i][j] == N[i][j];
    }
  }

  /** One pass of the loop over pivots is the dense ILU(0) step for that pivot. */
  lemma PivotStepMatrix(a: BDiag, ptr: seq<int>, dv: seq<seq<real>>, k: nat)
    requires StepReady(a, ptr, dv, k)
    ensures PivotStep(a, ptr, dv, k).Ok?
    ensures Matrix(a, PivotStep(a, ptr, dv, k).value) == IluStep(a, Matrix(a, dv), k)
  {
    var r := PivotStep(a, ptr, dv, k).value;
    forall i, j | 0 <= i < a.m && 0 <= j < a.m
      ensures Matrix(a, r)[i][j] == IluStep(a, Matrix(a, dv), k)[i][j]
    {
      MatrixAt(a, r, i, j);
      PivotStepView(a, ptr, dv, k, i, j);
    }
    SquareEqual(a, Matrix(a, r), IluStep(a, Matrix(a, dv), k));
  }

  /** With offsets in decreasing order, the loop over pivots `k .. m - 1` is the dense ILU(0) from pivot `k`. */
  lemma {:induction false} PivotsIlu(a: BDiag, ptr: seq<int>, dv: seq<seq<real>>, k: nat)
    requires Ready(a) && Decreasing(a.diag) && ptr == DgPtr(a) && Shaped(a, dv) && k <= a.m
    ensures Pivots(a, ptr, dv, k).Ok?
    ensures Matrix(a, Pivots(a, ptr, dv, k).value) == IluFrom(a, Matrix(a, dv), k)
    decreases a.m - k
  {
    if k < a.m {
      PivotStepMatrix(a, ptr, dv, k);
      PivotsIlu(a, ptr, PivotStep(a, ptr, dv, k).value, k + 1);
    }
  }

  /**
   * With offsets in decreasing order, the numeric factorisation succeeds
   * and the matrix it stores is the dense ILU(0) factorisation of the input
   * on the input's own pattern: unit lower multipliers below the diagonal,
   * reciprocal pivots on it, and the upper factor above it.
   */
  lemma FactorNumericIlu(a: BDiag)
    requires Ready(a) && Decreasing(a.diag)
    ensures FactorNumeric(a).Ok?
    ensures Matrix(a, FactorNumeric(a).value.dv) == IluFrom(a, Matrix(a, a.dv), 0)
  {
    PivotsIlu(a, DgPtr(a), a.dv, 0);
  }
}
