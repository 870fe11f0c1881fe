/**
 * The argument checks and documented semantics of the vector interface
 * (vector.c).  The interface validates its arguments and then dispatches to
 * an implementation's kernel; the model performs the checks exactly and
 * computes what each routine's documentation promises on the local part of
 * the vector.
 */
module Vectors {
  import opened Results
  import D = Dense

  /** PETSc error codes raised by the vector interface. */
  datatype VecError =
    | IncompatibleGlobalLengths   // PETSC_ERR_ARG_INCOMP, "Incompatible vector global lengths"
    | IncompatibleLocalLengths    // PETSC_ERR_ARG_INCOMP, "Incompatible vector local lengths"
    | WrongState                  // PETSC_ERR_ARG_WRONGSTATE
    | OutOfRange                  // PETSC_ERR_ARG_OUTOFRANGE
    | SizeMismatch                // error 1 of VecGetArray1d/2d

  /** A local-to-global index mapping: `indices[i]` is the global number of local index `i`. */
  datatype Mapping = Mapping(indices: seq<int>)

  /**
   * A vector: its global length `N`, the locally owned entries (whose count
   * is the local length `n`), the block size (-1 until set) and that of its
   * block stash, the reference count and the two optional mappings.
   */
  datatype Vec = Vec(
    N: nat,
    data: D.Vector,
    bs: int,
    stashBs: int,
    refct: int,
    mapping: Option<Mapping>,
    bmapping: Option<Mapping>)
  {
    function LocalSize(): nat { |data| }
  }

  /** The block-size invariant the interface maintains: unset, or a divisor of both lengths. */
  predicate ValidBlockSize(v: Vec) {
    v.bs == -1 || (v.bs >= 1 && v.N % v.bs == 0 && v.LocalSize() % v.bs == 0)
  }

  /** A vector as it is created: block size unset, one reference, no mappings. */
  function Fresh(N: nat, data: D.Vector): Vec {
    Vec(N, data, -1, -1, 1, None, None)
  }

  // ---------------------------------------------------------------------------
  // Block size

  /**
   * `VecSetBlockSize`: a non-positive request means 1; asking for the current
   * block size again changes nothing; a block size can otherwise be set only
   * once, and only to a divisor of both the global and the local length.
   */
  function SetBlockSize(v: Vec, bs: int): (r: Result<Vec, VecError>)
    ensures var b := if bs <= 0 then 1 else bs;
      && (b == v.bs ==> r == Ok(v))
      && (b != v.bs && v.bs != -1 ==> r == Err(WrongState))
      && (b != v.bs && v.bs == -1 && (v.N % b != 0 || v.LocalSize() % b != 0) ==> r == Err(OutOfRange))
      && (r.Ok? <==> b == v.bs || (v.bs == -1 && v.N % b == 0 && v.LocalSize() % b == 0))
      && (r.Ok? ==> r.value == v.(bs := b, stashBs := if b == v.bs then v.stashBs else b))
  {
    var b := if bs <= 0 then 1 else bs;
    if b == v.bs then Ok(v)
    else if v.bs != -1 then Err(WrongState)
    else if v.N % b != 0 then Err(OutOfRange)
    else if v.LocalSize() % b != 0 then Err(OutOfRange)
    else Ok(v.(bs := b, stashBs := b))
  }

  /** Once a block size is in place it can be re-requested freely but never changed. */
  lemma BlockSizeSetOnce(v: Vec, bs: int, bs': int)
    requires ValidBlockSize(v)
    requires SetBlockSize(v, bs).Ok?
    ensures var w := SetBlockSize(v, bs).value;
      && w.bs >= 1 && w.N % w.bs == 0 && w.LocalSize() % w.bs == 0
      && SetBlockSize(w, bs) == Ok(w)
      && ((if bs' <= 0 then 1 else bs') != w.bs ==> SetBlockSize(w, bs') == Err(WrongState))
  {
  }

  // ---------------------------------------------------------------------------
  // Length checks shared by the two- and three-vector operations

  /** The two checks every two-vector operation makes, global lengths first. */
  function CheckPair(x: Vec, y: Vec): (r: Outcome<VecError>)
    ensures r == Pass <==> x.N == y.N && x.LocalSize() == y.LocalSize()
    ensures x.N != y.N ==> r == Fail(IncompatibleGlobalLengths)
    ensures x.N == y.N && x.LocalSize() != y.LocalSize() ==> r == Fail(IncompatibleLocalLengths)
  {
    if x.N != y.N then Fail(IncompatibleGlobalLengths)
    else if x.LocalSize() != y.LocalSize() then Fail(IncompatibleLocalLengths)
    else Pass
  }

  /** The checks of the three-vector operations: all three lengths must agree. */
  function CheckTriple(x: Vec, y: Vec, w: Vec): (r: Outcome<VecError>)
    ensures r == Pass <==> x.N == y.N == w.N && x.LocalSize() == y.LocalSize() == w.LocalSize()
    ensures (x.N != y.N || x.N != w.N) ==> r == Fail(IncompatibleGlobalLengths)
    ensures x.N == y.N == w.N && (x.LocalSize() != y.LocalSize() || x.LocalSize() != w.LocalSize())
      ==> r == Fail(IncompatibleLocalLengths)
  {
    if x.N != y.N || x.N != w.N then Fail(IncompatibleGlobalLengths)
    else if x.LocalSize() != y.LocalSize() || x.LocalSize() != w.LocalSize() then Fail(IncompatibleLocalLengths)
    else Pass
  }

  // ---------------------------------------------------------------------------
  // Two-vector operations

  /** `VecDot`: the dot product of the local parts. */
  function Dot(x: Vec, y: Vec): (r: Result<real, VecError>)
    ensures r.Ok? <==> CheckPair(x, y) == Pass
    ensures r.Err? ==> r.error == CheckPair(x, y).error
    ensures r.Ok? ==> r.value == D.Sum(0, x.LocalSize(),
      k => if 0 <= k < x.LocalSize() then x.data[k] * y.data[k] else 0.0)
  {
    match CheckPair(x, y)
    case Fail(e) => Err(e)
    case Pass =>
      D.DotIsSum(x.data, y.data);
      Ok(D.Dot(x.data, y.data))
  }

  /** `VecCopy`: `y` receives the entries of `x`. */
  function Copy(x: Vec, y: Vec): (r: Result<Vec, VecError>)
    ensures r.Ok? <==> CheckPair(x, y) == Pass
    ensures r.Err? ==> r.error == CheckPair(x, y).error
    ensures r.Ok? ==> r.value == y.(data := x.data)
  {
    match CheckPair(x, y)
    case Fail(e) => Err(e)
    case Pass => Ok(y.(data := x.data))
  }

  /** `VecAXPY`: `y = alpha x + y`. */
  function Axpy(alpha: real, x: Vec, y: Vec): (r: Result<Vec, VecError>)
    ensures r.Ok? <==> CheckPair(x, y) == Pass
    ensures r.Err? ==> r.error == CheckPair(x, y).error
    ensures r.Ok? ==>
      && r.value.LocalSize() == y.LocalSize()
      && (forall i :: 0 <= i < y.LocalSize() ==> r.value.data[i] == alpha * x.data[i] + y.data[i])
      && r.value == y.(data := r.value.data)
  {
    match CheckPair(x, y)
    case Fail(e) => Err(e)
    case Pass => Ok(y.(data := D.Axpy(alpha, x.data, y.data)))
  }

  /** `VecAXPBY`: `y = alpha x + beta y`. */
  function Axpby(alpha: real, beta: real, x: Vec, y: Vec): (r: Result<Vec, VecError>)
    ensures r.Ok? <==> CheckPair(x, y) == Pass
    ensures r.Err? ==> r.error == CheckPair(x, y).error
    ensures r.Ok? ==>
      && r.value.LocalSize() == y.LocalSize()
      && (forall i :: 0 <= i < y.LocalSize() ==> r.value.data[i] == alpha * x.data[i] + beta * y.data[i])
      && r.value == y.(data := r.value.data)
  {
    match CheckPair(x, y)
    case Fail(e) => Err(e)
    case Pass => Ok(y.(data := D.Axpby(alpha, beta, x.data, y.data)))
  }

  /** `VecAYPX`: `y = x + alpha y`. */
  function Aypx(alpha: real, x: Vec, y: Vec): (r: Result<Vec, VecError>)
    ensures r.Ok? <==> CheckPair(x, y) == Pass
    ensures r.Err? ==> r.error == CheckPair(x, y).error
    ensures r.Ok? ==>
      && r.value.LocalSize() == y.LocalSize()
      && (forall i :: 0 <= i < y.LocalSize() ==> r.value.data[i] == x.data[i] + alpha * y.data[i])
      && r.value == y.(data := r.value.data)
  {
    match CheckPair(x, y)
    case Fail(e) => Err(e)
    case Pass => Ok(y.(data := D.Aypx(alpha, x.data, y.data)))
  }

  /** `VecSwap`: the two vectors exchange their entries. */
  function Swap(x: Vec, y: Vec): (r: Result<(Vec, Vec), VecError>)
    ensures r.Ok? <==> CheckPair(x, y) == Pass
    ensures r.Err? ==> r.error == CheckPair(x, y).error
    ensures r.Ok? ==> r.value == (x.(data := y.data), y.(data := x.data))
  {
    match CheckPair(x, y)
    case Fail(e) => Err(e)
    case Pass => Ok((x.(data := y.data), y.(data := x.data)))
  }

  // ---------------------------------------------------------------------------
  // Three-vector operations

  /** `VecWAXPY`: `w = alpha x + y`. */
  function Waxpy(alpha: real, x: Vec, y: Vec, w: Vec): (r: Result<Vec, VecError>)
    ensures r.Ok? <==> CheckTriple(x, y, w) == Pass
    ensures r.Err? ==> r.error == CheckTriple(x, y, w).error
    ensures r.Ok? ==>
      && r.value.LocalSize() == w.LocalSize()
      && (forall i :: 0 <= i < w.LocalSize() ==> r.value.data[i] == alpha * x.data[i] + y.data[i])
      && r.value == w.(data := r.value.data)
  {
    match CheckTriple(x, y, w)
    case Fail(e) => Err(e)
    case Pass => Ok(w.(data := D.Axpy(alpha, x.data, y.data)))
  }

  /** `VecPointwiseMult`: `w = x * y` componentwise. */
  function PointwiseMult(x: Vec, y: Vec, w: Vec): (r: Result<Vec, VecError>)
    ensures r.Ok? <==> CheckTriple(x, y, w) == Pass
    ensures r.Err? ==> r.error == CheckTriple(x, y, w).error
    ensures r.Ok? ==>
      && r.value.LocalSize() == w.LocalSize()
      && (forall i :: 0 <= i < w.LocalSize() ==> r.value.data[i] == x.data[i] * y.data[i])
      && r.value == w.(data := r.value.data)
  {
    match CheckTriple(x, y, w)
    case Fail(e) => Err(e)
    case Pass => Ok(w.(data := D.Times(x.data, y.data)))
  }

  /** `VecPointwiseDivide`: `w = x / y` componentwise (see `Dense.Quot` for a zero divisor). */
  function PointwiseDivide(x: Vec, y: Vec, w: Vec): (r: Result<Vec, VecError>)
    ensures r.Ok? <==> CheckTriple(x, y, w) == Pass
    ensures r.Err? ==> r.error == CheckTriple(x, y, w).error
    ensures r.Ok? ==>
      && r.value.LocalSize() == w.LocalSize()
      && (forall i :: 0 <= i < w.LocalSize() && y.data[i] != 0.0 ==> r.value.data[i] * y.data[i] == x.data[i])
      && r.value == w.(data := r.value.data)
  {
    match CheckTriple(x, y, w)
    case Fail(e) => Err(e)
    case Pass => Ok(w.(data := D.Divide(x.data, y.data)))
  }

  // ---------------------------------------------------------------------------
  // One-vector operations (no length checks)

  /** `VecScale`: `x[i] = alpha x[i]`. */
  function Scale(alpha: real, x: Vec): (r: Vec)
    ensures r.LocalSize() == x.LocalSize()
    ensures forall i :: 0 <= i < x.LocalSize() ==> r.data[i] == alpha * x.data[i]
    ensures r == x.(data := r.data)
  {
    x.(data := D.Scale(alpha, x.data))
  }

  /** `VecSet`: every entry becomes `alpha`. */
  function Set(alpha: real, x: Vec): (r: Vec)
    ensures r.LocalSize() == x.LocalSize()
    ensures forall i :: 0 <= i < x.LocalSize() ==> r.data[i] == alpha
    ensures r == x.(data := r.data)
  {
    x.(data := seq(|x.data|, _ => alpha))
  }

  // ---------------------------------------------------------------------------
  // Relations between the operations

  /** AXPY with `-alpha` undoes AXPY with `alpha`. */
  lemma AxpyUndo(alpha: real, x: Vec, y: Vec)
    requires Axpy(alpha, x, y).Ok?
    ensures Axpy(-alpha, x, Axpy(alpha, x, y).value) == Ok(y)
  {
    var z := Axpy(alpha, x, y).value;
    assert Axpy(-alpha, x, z).value.data == y.data;
  }

  /** AXPY, AYPX and WAXPY are all instances of AXPBY. */
  lemma SpecialCasesOfAxpby(alpha: real, x: Vec, y: Vec, w: Vec)
    ensures Axpy(alpha, x, y) == Axpby(alpha, 1.0, x, y)
    ensures Aypx(alpha, x, y) == Axpby(1.0, alpha, x, y)
    ensures CheckTriple(x, y, w) == Pass ==>
      Waxpy(alpha, x, y, w).value.data == Axpy(alpha, x, y).value.data
  {
    if CheckPair(x, y) == Pass {
      assert Axpy(alpha, x, y).value.data == Axpby(alpha, 1.0, x, y).value.data;
      assert Aypx(alpha, x, y).value.data == Axpby(1.0, alpha, x, y).value.data;
    }
  }

  /** Swapping twice restores both vectors. */
  lemma SwapTwice(x: Vec, y: Vec)
    requires Swap(x, y).Ok?
    ensures Swap(Swap(x, y).value.0, Swap(x, y).value.1) == Ok((x, y))
  {
  }

  /** Scaling by a nonzero factor and then by its reciprocal restores the vector. */
  lemma ScaleUndo(alpha: real, x: Vec)
    requires alpha != 0.0
    ensures Scale(1.0 / alpha, Scale(alpha, x)) == x
  {
    var y := Scale(1.0 / alpha, Scale(alpha, x));
    forall i | 0 <= i < x.LocalSize()
      ensures y.data[i] == x.data[i]
    {
      calc {
        y.data[i];
        (1.0 / alpha) * (alpha * x.data[i]);
        ((1.0 / alpha) * alpha) * x.data[i];
      }
    }
    assert y.data == x.data;
  }

  /** The dot product does not depend on the order of its arguments. */
  lemma {:induction false} DotSymmetric(x: Vec, y: Vec)
    requires Dot(x, y).Ok?
    ensures Dot(y, x) == Dot(x, y)
  {
    var n := x.LocalSize();
    D.SumExt(0, n, k => if 0 <= k < n then x.data[k] * y.data[k] else 0.0,
                   k => if 0 <= k < n then y.data[k] * x.data[k] else 0.0);
  }

  /** A vector copied into `y` has, against any `z`, the dot product of the original. */
  lemma CopyPreservesDot(x: Vec, y: Vec, z: Vec)
    requires Copy(x, y).Ok? && Dot(x, z).Ok?
    ensures Dot(Copy(x, y).value, z) == Dot(x, z)
  {
  }

  // ---------------------------------------------------------------------------
  // Reference counting

  /** What `VecDestroy` leaves: a vector still referenced elsewhere, or nothing. */
  datatype Destroyed = StillReferenced(v: Vec) | Freed

  /** `VecDestroy`: drops one reference and tears the vector down when none is left. */
  function Destroy(v: Vec): (r: Destroyed)
    ensures r.Freed? <==> v.refct <= 1
    ensures r.StillReferenced? ==> r.v == v.(refct := v.refct - 1)
  {
    if v.refct - 1 > 0 then StillReferenced(v.(refct := v.refct - 1)) else Freed
  }

  /** Calls `VecDestroy` `k` times, stopping if the vector is freed earlier. */
  function DestroyTimes(v: Vec, k: nat): Destroyed
    decreases k
  {
    if k == 0 then StillReferenced(v)
    else match Destroy(v)
      case Freed => Freed
      case StillReferenced(w) => DestroyTimes(w, k - 1)
  }

  /**
   * A vector holding `refct >= 1` references survives `refct - 1` destroys,
   * with one reference left, and is freed by the next one.
   */
  lemma {:induction false} DestroyCountsDown(v: Vec, k: nat)
    requires k < v.refct
    ensures DestroyTimes(v, k) == StillReferenced(v.(refct := v.refct - k))
    ensures k == v.refct - 1 ==> Destroy(v.(refct := 1)) == Freed
    decreases k
  {
    if k > 0 {
      DestroyCountsDown(v.(refct := v.refct - 1), k - 1);
    }
  }

  // ---------------------------------------------------------------------------
  // Local-to-global mappings

  /** `VecSetLocalToGlobalMapping`: allowed only while no mapping is set. */
  function SetLocalToGlobalMapping(x: Vec, m: Mapping): (r: Result<Vec, VecError>)
    ensures r.Ok? <==> x.mapping.None?
    ensures r.Err? ==> r.error == WrongState
    ensures r.Ok? ==> r.value == x.(mapping := Some(m))
  {
    if x.mapping.Some? then Err(WrongState) else Ok(x.(mapping := Some(m)))
  }

  /** `VecSetLocalToGlobalMappingBlocked`: the same rule for the blocked mapping. */
  function SetLocalToGlobalMappingBlocked(x: Vec, m: Mapping): (r: Result<Vec, VecError>)
    ensures r.Ok? <==> x.bmapping.None?
    ensures r.Err? ==> r.error == WrongState
    ensures r.Ok? ==> r.value == x.(bmapping := Some(m))
  {
    if x.bmapping.Some? then Err(WrongState) else Ok(x.(bmapping := Some(m)))
  }

  /** Local indices that the mapping can translate. */
  predicate Translatable(m: Mapping, ix: seq<int>) {
    forall k :: 0 <= k < |ix| ==> 0 <= ix[k] < |m.indices|
  }

  /**
   * `VecSetValuesLocal` up to the kernel call: fails unless a mapping is set,
   * and otherwise hands the kernel the global numbers of the local indices.
   */
  function SetValuesLocal(x: Vec, ix: seq<int>): (r: Result<seq<int>, VecError>)
    requires x.mapping.Some? ==> Translatable(x.mapping.value, ix)
    ensures r.Ok? <==> x.mapping.Some?
    ensures r.Err? ==> r.error == WrongState
    ensures r.Ok? ==>
      && |r.value| == |ix|
      && forall k :: 0 <= k < |ix| ==> r.value[k] == x.mapping.value.indices[ix[k]]
  {
    if x.mapping.None? then Err(WrongState)
    else Ok(seq(|ix|, k requires 0 <= k < |ix| => x.mapping.value.indices[ix[k]]))
  }

  /** `VecSetValuesBlockedLocal` up to the kernel call, with the blocked mapping. */
  function SetValuesBlockedLocal(x: Vec, ix: seq<int>): (r: Result<seq<int>, VecError>)
    requires x.bmapping.Some? ==> Translatable(x.bmapping.value, ix)
    ensures r.Ok? <==> x.bmapping.Some?
    ensures r.Err? ==> r.error == WrongState
    ensures r.Ok? ==>
      && |r.value| == |ix|
      && forall k :: 0 <= k < |ix| ==> r.value[k] == x.bmapping.value.indices[ix[k]]
  {
    if x.bmapping.None? then Err(WrongState)
    else Ok(seq(|ix|, k requires 0 <= k < |ix| => x.bmapping.value.indices[ix[k]]))
  }

  /** A mapping can be set once; afterwards local insertion passes its guard and a second set fails. */
  lemma MappingSetOnce(x: Vec, m: Mapping, m': Mapping, ix: seq<int>)
    requires x.mapping.None?
    requires Translatable(m, ix)
    ensures SetLocalToGlobalMapping(x, m).Ok?
    ensures SetLocalToGlobalMapping(SetLocalToGlobalMapping(x, m).value, m') == Err(WrongState)
    ensures SetValuesLocal(SetLocalToGlobalMapping(x, m).value, ix).Ok?
    ensures SetValuesLocal(x, ix) == Err(WrongState)
  {
  }

  // ---------------------------------------------------------------------------
  // Multi-dimensional views of the local array

  /** The shape a `VecGetArray2d` view was obtained with. */
  datatype View2d = View2d(m: int, n: int, mstart: int, nstart: int)

  /** `VecGetArray2d`: the local size must be exactly `m*n`. */
  function GetArray2d(x: Vec, m: int, n: int, mstart: int, nstart: int): (r: Result<View2d, VecError>)
    ensures r.Ok? <==> m * n == x.LocalSize()
    ensures r.Err? ==> r.error == SizeMismatch
    ensures r.Ok? ==> r.value == View2d(m, n, mstart, nstart)
  {
    if m * n != x.LocalSize() then Err(SizeMismatch) else Ok(View2d(m, n, mstart, nstart))
  }

  /** Row `i`, column `j` of the view: the local offset `a[i][j]` reaches. */
  function Offset2d(a: View2d, i: int, j: int): int {
    (i - a.mstart) * a.n + (j - a.nstart)
  }

  /** Indices inside the declared ranges of the view. */
  predicate InView2d(a: View2d, i: int, j: int) {
    a.mstart <= i < a.mstart + a.m && a.nstart <= j < a.nstart + a.n
  }

  /** Every index of the view lands inside the local array. */
  lemma Offset2dInRange(a: View2d, i: int, j: int)
    requires InView2d(a, i, j)
    ensures 0 <= Offset2d(a, i, j) < a.m * a.n
  {
    var p := i - a.mstart;
    var q := j - a.nstart;
    assert p * a.n + q < (p + 1) * a.n by {
      assert (p + 1) * a.n == p * a.n + a.n;
    }
    assert (p + 1) * a.n <= a.m * a.n by {
      MulMonotone(p + 1, a.m, a.n);
    }
    assert 0 <= p * a.n by {
      MulMonotone(0, p, a.n);
    }
  }

  lemma MulMonotone(a: int, b: int, c: int)
    requires a <= b && c >= 0
    ensures a * c <= b * c
  {
  }

  /** Quotient and remainder by `n` recover `p` and `q` from `p*n + q`. */
  lemma DivModOfOffset(p: int, q: int, n: int)
    requires n > 0 && 0 <= q < n
    ensures (p * n + q) / n == p && (p * n + q) % n == q
  {
    var k := p * n + q;
    var d, r := k / n, k % n;
    assert k == d * n + r;
    if d < p {
      MulMonotone(d + 1, p, n);
    } else if d > p {
      MulMonotone(p + 1, d, n);
    }
  }

  /** Distinct indices of the view reach distinct entries. */
  lemma Offset2dInjective(a: View2d, i: int, j: int, i': int, j': int)
    requires InView2d(a, i, j) && InView2d(a, i', j')
    requires Offset2d(a, i, j) == Offset2d(a, i', j')
    ensures i == i' && j == j'
  {
    DivModOfOffset(i - a.mstart, j - a.nstart, a.n);
    DivModOfOffset(i' - a.mstart, j' - a.nstart, a.n);
  }

  /** Every entry of the local array is reached by some index of the view. */
  lemma Offset2dOnto(a: View2d, k: int)
    requires a.n > 0 && 0 <= k < a.m * a.n
    ensures InView2d(a, a.mstart + k / a.n, a.nstart + k % a.n)
    ensures Offset2d(a, a.mstart + k / a.n, a.nstart + k % a.n) == k
  {
    var p := k / a.n;
    assert k == p * a.n + k % a.n;
    if p >= a.m {
      MulMonotone(a.m, p, a.n);
    }
  }

  /** `VecGetArray1d`: the local size must be exactly `m`. */
  function GetArray1d(x: Vec, m: int, mstart: int): (r: Result<int, VecError>)
    ensures r.Ok? <==> m == x.LocalSize()
    ensures r.Err? ==> r.error == SizeMismatch
    ensures r.Ok? ==> r.value == mstart
  {
    if m != x.LocalSize() then Err(SizeMismatch) else Ok(mstart)
  }

  /** Index `j` of a view shifted by `mstart` reaches local entry `j - mstart`. */
  function Offset1d(mstart: int, j: int): int {
    j - mstart
  }

  /** The index of the 1-d view that reaches local entry `k`. */
  function Index1d(mstart: int, k: int): int {
    k + mstart
  }

  /** The shifted 1-d view covers the local array exactly. */
  lemma Offset1dBijective(x: Vec, m: int, mstart: int)
    requires GetArray1d(x, m, mstart).Ok?
    ensures forall j :: mstart <= j < mstart + m <==> 0 <= Offset1d(mstart, j) < x.LocalSize()
    ensures forall k :: 0 <= k < x.LocalSize() ==> Offset1d(mstart, Index1d(mstart, k)) == k
  {
  }
}
