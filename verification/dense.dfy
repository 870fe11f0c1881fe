/**
 * Dense vectors over `real`: the arithmetic the vector operations, the
 * triangular solves and the BiCG recurrences are built from.  Scalars are
 * exact reals; rounding is outside the model.
 */
module Dense {

  type Vector = seq<real>

  /** The all-zero vector of length `n`. */
  function Zeros(n: nat): (r: Vector)
    ensures |r| == n
    ensures forall i :: 0 <= i < n ==> r[i] == 0.0
  {
    seq(n, _ => 0.0)
  }

  /**
   * Division that is total: the quotient when the divisor is nonzero and 0
   * otherwise.  The library divides without checking; what IEEE arithmetic
   * yields for a zero divisor (an infinity or NaN) is not modelled.
   */
  function Quot(a: real, b: real): (r: real)
    ensures b == 0.0 ==> r == 0.0
  {
    if b == 0.0 then 0.0 else a / b
  }

  /** Away from a zero divisor, the quotient times the divisor gives back the dividend. */
  lemma QuotTimes(a: real, b: real)
    requires b != 0.0
    ensures Quot(a, b) * b == a
  {
  }

  /** `alpha * x`. */
  function Scale(alpha: real, x: Vector): (r: Vector)
    ensures |r| == |x|
  {
    seq(|x|, i requires 0 <= i < |x| => alpha * x[i])
  }

  /** `alpha * x + y`. */
  function Axpy(alpha: real, x: Vector, y: Vector): (r: Vector)
    requires |x| == |y|
    ensures |r| == |x|
  {
    seq(|x|, i requires 0 <= i < |x| => alpha * x[i] + y[i])
  }

  /** `x + alpha * y`. */
  function Aypx(alpha: real, x: Vector, y: Vector): (r: Vector)
    requires |x| == |y|
    ensures |r| == |x|
  {
    seq(|x|, i requires 0 <= i < |x| => x[i] + alpha * y[i])
  }

  /** `alpha * x + beta * y`. */
  function Axpby(alpha: real, beta: real, x: Vector, y: Vector): (r: Vector)
    requires |x| == |y|
    ensures |r| == |x|
  {
    seq(|x|, i requires 0 <= i < |x| => alpha * x[i] + beta * y[i])
  }

  /** `x - y`. */
  function Sub(x: Vector, y: Vector): (r: Vector)
    requires |x| == |y|
    ensures |r| == |x|
  {
    seq(|x|, i requires 0 <= i < |x| => x[i] - y[i])
  }

  /** Componentwise product. */
  function Times(x: Vector, y: Vector): (r: Vector)
    requires |x| == |y|
    ensures |r| == |x|
  {
    seq(|x|, i requires 0 <= i < |x| => x[i] * y[i])
  }

  /** Componentwise quotient (total, see `Quot`). */
  function Divide(x: Vector, y: Vector): (r: Vector)
    requires |x| == |y|
    ensures |r| == |x|
  {
    seq(|x|, i requires 0 <= i < |x| => Quot(x[i], y[i]))
  }

  /** The dot product `sum_i x[i] * y[i]` (real scalars, so no conjugation). */
  function Dot(x: Vector, y: Vector): real
    requires |x| == |y|
  {
    if |x| == 0 then 0.0 else Dot(x[..|x| - 1], y[..|y| - 1]) + x[|x| - 1] * y[|y| - 1]
  }

  /** `sum_{k=lo}^{hi-1} f(k)`. */
  function Sum(lo: int, hi: int, f: int -> real): real
    decreases hi - lo
  {
    if hi <= lo then 0.0 else Sum(lo, hi - 1, f) + f(hi - 1)
  }

  /** A sum over one index is its term. */
  lemma SumOne(lo: int, f: int -> real)
    ensures Sum(lo, lo + 1, f) == f(lo)
  {
  }

  /** A sum whose terms before `i` vanish starts with term `i`. */
  lemma SumFrom(lo: int, i: int, hi: int, f: int -> real)
    requires lo <= i < hi
    requires forall k :: lo <= k < i ==> f(k) == 0.0
    ensures Sum(lo, hi, f) == f(i) + Sum(i + 1, hi, f)
  {
    SumSplit(lo, i, hi, f);
    SumSplit(i, i + 1, hi, f);
    SumZero(lo, i, f);
    SumOne(i, f);
  }

  /** Sums of pointwise equal terms are equal. */
  lemma {:induction false} SumExt(lo: int, hi: int, f: int -> real, g: int -> real)
    requires forall k :: lo <= k < hi ==> f(k) == g(k)
    ensures Sum(lo, hi, f) == Sum(lo, hi, g)
    decreases hi - lo
  {
    if lo < hi {
      SumExt(lo, hi - 1, f, g);
    }
  }

  /** A sum of zero terms is zero. */
  lemma {:induction false} SumZero(lo: int, hi: int, f: int -> real)
    requires forall k :: lo <= k < hi ==> f(k) == 0.0
    ensures Sum(lo, hi, f) == 0.0
    decreases hi - lo
  {
    if lo < hi {
      SumZero(lo, hi - 1, f);
    }
  }

  /** Splitting a sum at `mid`. */
  lemma {:induction false} SumSplit(lo: int, mid: int, hi: int, f: int -> real)
    requires lo <= mid <= hi
    ensures Sum(lo, hi, f) == Sum(lo, mid, f) + Sum(mid, hi, f)
    decreases hi - mid
  {
    if mid < hi {
      SumSplit(lo, mid, hi - 1, f);
    }
  }

  /** The sum of a termwise sum. */
  lemma {:induction false} SumAdd(lo: int, hi: int, f: int -> real, g: int -> real, h: int -> real)
    requires forall k :: lo <= k < hi ==> h(k) == f(k) + g(k)
    ensures Sum(lo, hi, h) == Sum(lo, hi, f) + Sum(lo, hi, g)
    decreases hi - lo
  {
    if lo < hi {
      SumAdd(lo, hi - 1, f, g, h);
    }
  }

  /** A constant factor comes out of a sum. */
  lemma {:induction false} SumScale(lo: int, hi: int, c: real, f: int -> real, g: int -> real)
    requires forall k :: lo <= k < hi ==> g(k) == c * f(k)
    ensures Sum(lo, hi, g) == c * Sum(lo, hi, f)
    decreases hi - lo
  {
    if lo < hi {
      SumScale(lo, hi - 1, c, f, g);
    }
  }

  /** The dot product is the sum of the componentwise products. */
  lemma {:induction false} DotIsSum(x: Vector, y: Vector)
    requires |x| == |y|
    ensures Dot(x, y) == Sum(0, |x|, k => if 0 <= k < |x| then x[k] * y[k] else 0.0)
  {
    if |x| > 0 {
      var n := |x|;
      DotIsSum(x[..n - 1], y[..n - 1]);
      SumExt(0, n - 1,
        k => if 0 <= k < n - 1 then x[..n - 1][k] * y[..n - 1][k] else 0.0,
        k => if 0 <= k < n then x[k] * y[k] else 0.0);
    }
  }

  /** Sums of terms that agree except at `q` differ by the difference there. */
  lemma SumPoint(lo: int, hi: int, q: int, f: int -> real, g: int -> real)
    requires lo <= q < hi
    requires forall k :: lo <= k < hi && k != q ==> f(k) == g(k)
    ensures Sum(lo, hi, f) == Sum(lo, hi, g) + f(q) - g(q)
  {
    SumSplit(lo, q, hi, f);
    SumSplit(lo, q, hi, g);
    SumSplit(q, q + 1, hi, f);
    SumSplit(q, q + 1, hi, g);
    SumExt(lo, q, f, g);
    SumExt(q + 1, hi, f, g);
  }

  /** Column `k` of a two-index family, as a function of the row. */
  function Column(f: (int, int) -> real, k: int): int -> real
  {
    j => f(j, k)
  }

  /** Row `j` of a two-index family, as a function of the column. */
  function RowOf(f: (int, int) -> real, j: int): int -> real
  {
    k => f(j, k)
  }

  /** The column sums `sum_{j<n} f(j, k)`, as a function of `k`. */
  function ColumnSums(f: (int, int) -> real, n: int): int -> real
  {
    k => Sum(0, n, Column(f, k))
  }

  /** The row sums `sum_{k<m} f(j, k)`, as a function of `j`. */
  function RowSums(f: (int, int) -> real, m: int): int -> real
  {
    j => Sum(0, m, RowOf(f, j))
  }

  /** A finite double sum may be taken in either order. */
  lemma {:induction false} SumSwap(n: int, m: int, f: (int, int) -> real)
    ensures Sum(0, m, ColumnSums(f, n)) == Sum(0, n, RowSums(f, m))
    decreases m
  {
    if m > 0 {
      SumSwap(n, m - 1, f);
      forall j | 0 <= j < n
        ensures RowSums(f, m)(j) == RowSums(f, m - 1)(j) + Column(f, m - 1)(j)
      {
      }
      SumAdd(0, n, RowSums(f, m - 1), Column(f, m - 1), RowSums(f, m));
    } else {
      SumZero(0, n, RowSums(f, m));
    }
  }

  /**
   * `val(d)` for the last `d` in `lo .. hi - 1` that `col` maps to `j`, and
   * 0 when `col` maps none there.
   */
  function Pick(lo: int, hi: int, col: int -> int, val: int -> real, j: int): real
    decreases hi - lo
  {
    if hi <= lo then 0.0
    else if col(hi - 1) == j then val(hi - 1)
    else Pick(lo, hi - 1, col, val, j)
  }

  /** `Pick` as a function of `j`. */
  function Picked(lo: int, hi: int, col: int -> int, val: int -> real): int -> real
  {
    j => Pick(lo, hi, col, val, j)
  }

  /** `val(d)` where `col(d)` falls in `jlo .. jhi - 1`, 0 elsewhere. */
  function Landing(col: int -> int, val: int -> real, jlo: int, jhi: int): int -> real
  {
    d => if jlo <= col(d) < jhi then val(d) else 0.0
  }

  /** No index maps to `j`: nothing is picked. */
  lemma {:induction false} PickNone(lo: int, hi: int, col: int -> int, val: int -> real, j: int)
    requires forall d :: lo <= d < hi ==> col(d) != j
    ensures Pick(lo, hi, col, val, j) == 0.0
    decreases hi - lo
  {
    if lo < hi {
      PickNone(lo, hi - 1, col, val, j);
    }
  }

  /** When `col` is one-to-one, the index mapping to `j` is the one picked. */
  lemma {:induction false} PickAt(lo: int, hi: int, col: int -> int, val: int -> real, j: int, d: int)
    requires forall e, e' :: lo <= e < e' < hi ==> col(e) != col(e')
    requires lo <= d < hi && col(d) == j
    ensures Pick(lo, hi, col, val, j) == val(d)
    decreases hi - lo
  {
    if d < hi - 1 {
      assert col(d) != col(hi - 1);
      PickAt(lo, hi - 1, col, val, j, d);
    }
  }

  /**
   * Reindexing a sum through a one-to-one map: summing `val(d)` over the
   * `d` that `col` sends into `jlo .. jhi - 1` is summing, over that range of
   * `j`, the value picked for `j`.
   */
  lemma {:induction false} SumReindex(lo: int, hi: int, col: int -> int, val: int -> real, jlo: int, jhi: int)
    requires forall e, e' :: lo <= e < e' < hi ==> col(e) != col(e')
    ensures Sum(lo, hi, Landing(col, val, jlo, jhi)) == Sum(jlo, jhi, Picked(lo, hi, col, val))
    decreases hi - lo
  {
    if hi <= lo {
      SumZero(jlo, jhi, Picked(lo, hi, col, val));
    } else {
      SumReindex(lo, hi - 1, col, val, jlo, jhi);
      var q := col(hi - 1);
      if jlo <= q < jhi {
        PickNone(lo, hi - 1, col, val, q);
        SumPoint(jlo, jhi, q, Picked(lo, hi, col, val), Picked(lo, hi - 1, col, val));
      } else {
        SumExt(jlo, jhi, Picked(lo, hi, col, val), Picked(lo, hi - 1, col, val));
      }
    }
  }
}
