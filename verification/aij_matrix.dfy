/**
 * The compressed-row (AIJ) storage the LU routines read and write: row `i`
 * owns positions `rowPtr[i] .. rowPtr[i+1]-1` of the parallel arrays `cols`
 * (column indices) and `vals` (entries).  The library keeps these arrays
 * 1-origin; here every index is 0-origin.
 */
module AijMatrix {

  datatype Csr = Csr(m: nat, n: nat, rowPtr: seq<int>, cols: seq<int>, vals: seq<real>)

  /** Row pointers start at 0, never decrease and end at the number of stored entries; columns are in range. */
  predicate WellFormed(A: Csr) {
    && |A.rowPtr| == A.m + 1
    && A.rowPtr[0] == 0
    && (forall a, b :: 0 <= a <= b <= A.m ==> A.rowPtr[a] <= A.rowPtr[b])
    && A.rowPtr[A.m] == |A.cols| == |A.vals|
    && (forall p :: 0 <= p < |A.cols| ==> 0 <= A.cols[p] < A.n)
  }

  /** No row stores the same column twice. */
  predicate DistinctColumns(A: Csr)
    requires WellFormed(A)
  {
    forall i, p, q :: 0 <= i < A.m && A.rowPtr[i] <= p < q < A.rowPtr[i + 1] ==> A.cols[p] != A.cols[q]
  }

  /**
   * The value stored for column `key` among positions `lo .. hi-1`, the last
   * one if there are several (a later store overwrites an earlier one), and 0
   * when the column is not stored.
   */
  function FindLast(cols: seq<int>, vals: seq<real>, lo: int, hi: int, key: int): real
    requires 0 <= lo && hi <= |cols| && hi <= |vals|
    decreases hi - lo
  {
    if hi <= lo then 0.0
    else if cols[hi - 1] == key then vals[hi - 1]
    else FindLast(cols, vals, lo, hi - 1, key)
  }

  /** The dense entry `A(i, j)`. */
  function Entry(A: Csr, i: int, j: int): real
    requires WellFormed(A)
    requires 0 <= i < A.m
  {
    FindLast(A.cols, A.vals, A.rowPtr[i], A.rowPtr[i + 1], j)
  }

  /** A column that is not stored reads as 0. */
  lemma {:induction false} FindLastAbsent(cols: seq<int>, vals: seq<real>, lo: int, hi: int, key: int)
    requires 0 <= lo && hi <= |cols| && hi <= |vals|
    requires forall p :: lo <= p < hi ==> cols[p] != key
    ensures FindLast(cols, vals, lo, hi, key) == 0.0
    decreases hi - lo
  {
    if lo < hi {
      FindLastAbsent(cols, vals, lo, hi - 1, key);
    }
  }

  /** A nonzero reading comes from a stored position. */
  lemma FindLastPresent(cols: seq<int>, vals: seq<real>, lo: int, hi: int, key: int)
    requires 0 <= lo && hi <= |cols| && hi <= |vals|
    requires FindLast(cols, vals, lo, hi, key) != 0.0
    ensures exists p :: lo <= p < hi && cols[p] == key
  {
    if forall p :: lo <= p < hi ==> cols[p] != key {
      FindLastAbsent(cols, vals, lo, hi, key);
    }
  }

  /** When `key` is stored only at `p`, the reading is the value at `p`. */
  lemma {:induction false} FindLastAt(cols: seq<int>, vals: seq<real>, lo: int, hi: int, key: int, p: int)
    requires 0 <= lo <= p < hi <= |cols| && hi <= |vals|
    requires cols[p] == key
    requires forall q :: p < q < hi ==> cols[q] != key
    ensures FindLast(cols, vals, lo, hi, key) == vals[p]
    decreases hi - lo
  {
    if hi - 1 != p {
      FindLastAt(cols, vals, lo, hi - 1, key, p);
    }
  }

  /** Positions past the last one holding `key` do not change the reading. */
  lemma {:induction false} FindLastPrefix(cols: seq<int>, vals: seq<real>, lo: int, mid: int, hi: int, key: int)
    requires 0 <= lo <= mid <= hi <= |cols| && hi <= |vals|
    requires forall q :: mid <= q < hi ==> cols[q] != key
    ensures FindLast(cols, vals, lo, hi, key) == FindLast(cols, vals, lo, mid, key)
    decreases hi - mid
  {
    if mid < hi {
      FindLastPrefix(cols, vals, lo, mid, hi - 1, key);
    }
  }

  /** Only the positions in range matter. */
  lemma {:induction false} FindLastFrame(cols: seq<int>, vals: seq<real>, cols': seq<int>, vals': seq<real>, lo: int, hi: int, key: int)
    requires 0 <= lo && hi <= |cols| && hi <= |vals| && hi <= |cols'| && hi <= |vals'|
    requires forall q :: lo <= q < hi ==> cols[q] == cols'[q] && vals[q] == vals'[q]
    ensures FindLast(cols, vals, lo, hi, key) == FindLast(cols', vals', lo, hi, key)
    decreases hi - lo
  {
    if lo < hi {
      FindLastFrame(cols, vals, cols', vals', lo, hi - 1, key);
    }
  }

  /** Positions before the first one holding `key` do not change the reading. */
  lemma {:induction false} FindLastSuffix(cols: seq<int>, vals: seq<real>, lo: int, mid: int, hi: int, key: int)
    requires 0 <= lo <= mid <= hi <= |cols| && hi <= |vals|
    requires forall q :: lo <= q < mid ==> cols[q] != key
    ensures FindLast(cols, vals, lo, hi, key) == FindLast(cols, vals, mid, hi, key)
    decreases hi - lo
  {
    if mid < hi && cols[hi - 1] != key {
      FindLastSuffix(cols, vals, lo, mid, hi - 1, key);
    } else if mid == hi {
      FindLastAbsent(cols, vals, lo, hi, key);
    }
  }
}
