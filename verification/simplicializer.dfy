/**
 * Index helpers of the sieve mesh code (Simplicializer.cxx):
 * expanding `(prefix, index)` intervals into explicit index lists, and the
 * block partition of the leaves of a sieve among the processes of a
 * communicator used by `ComputeSievePartition` and `ComputePreSievePartition`.
 */
module Simplicializer {
  import PetscMath

  /** An `ALE::Point` read as an interval: `index` consecutive indices starting at `prefix`. */
  datatype Point = Point(prefix: int, index: int)

  /** Number of indices an interval stands for: its `index`, or none when that is not positive. */
  function Count(p: Point): nat {
    if p.index > 0 then p.index else 0
  }

  /** The indices an interval stands for, in increasing order. */
  function Expand(p: Point): (r: seq<int>)
    ensures |r| == Count(p)
  {
    seq(Count(p), t => p.prefix + t)
  }

  /** Total number of indices of a list of intervals. */
  function TotalCount(ps: seq<Point>): nat {
    if |ps| == 0 then 0 else TotalCount(ps[..|ps| - 1]) + Count(ps[|ps| - 1])
  }

  /** The expansions of a list of intervals, one after the other. */
  function ExpandAll(ps: seq<Point>): (r: seq<int>)
  {
    if |ps| == 0 then [] else ExpandAll(ps[..|ps| - 1]) + Expand(ps[|ps| - 1])
  }

  /** The concatenated expansion is exactly as long as the intervals' total count. */
  lemma {:induction false} ExpandAllLength(ps: seq<Point>)
    ensures |ExpandAll(ps)| == TotalCount(ps)
  {
    if |ps| > 0 {
      ExpandAllLength(ps[..|ps| - 1]);
    }
  }

  /** Sum of the raw `index` fields. */
  function IndexSum(ps: seq<Point>): int {
    if |ps| == 0 then 0 else IndexSum(ps[..|ps| - 1]) + ps[|ps| - 1].index
  }

  /** With no negative `index`, the number of indices written is the sum of the `index` fields. */
  lemma {:induction false} TotalIsIndexSum(ps: seq<Point>)
    requires forall k :: 0 <= k < |ps| ==> ps[k].index >= 0
    ensures TotalCount(ps) == IndexSum(ps)
  {
    if |ps| > 0 {
      TotalIsIndexSum(ps[..|ps| - 1]);
    }
  }

  /**
   * `ExpandInterval`: writes `prefix, prefix+1, ...` into `indices` starting at
   * `indx` and returns the advanced cursor.
   */
  method ExpandInterval(p: Point, indices: seq<int>, indx: nat) returns (out: seq<int>, next: nat)
    requires indx + Count(p) <= |indices|
    ensures next == indx + Count(p)
    ensures |out| == |indices|
    ensures out[indx..next] == Expand(p)
    ensures forall k :: 0 <= k < |indices| && !(indx <= k < next) ==> out[k] == indices[k]
  {
    out := indices;
    next := indx;
    var i := 0;
    while i < p.index
      invariant 0 <= i <= Count(p)
      invariant next == indx + i
      invariant |out| == |indices|
      invariant forall k :: indx <= k < next ==> out[k] == p.prefix + (k - indx)
      invariant forall k :: 0 <= k < |indices| && !(indx <= k < next) ==> out[k] == indices[k]
    {
      out := out[next := p.prefix + i];
      next := next + 1;
      i := i + 1;
    }
  }

  /**
   * `ExpandIntervals`: expands every interval in order from position 0 of
   * `indices`; positions past the total are left as they were.
   */
  method ExpandIntervals(ps: seq<Point>, indices: seq<int>) returns (out: seq<int>)
    requires TotalCount(ps) <= |indices|
    ensures |out| == |indices|
    ensures out[..TotalCount(ps)] == ExpandAll(ps)
    ensures forall k :: TotalCount(ps) <= k < |indices| ==> out[k] == indices[k]
  {
    out := indices;
    var k: nat := 0;
    var j := 0;
    while j < |ps|
      invariant 0 <= j <= |ps|
      invariant k == TotalCount(ps[..j])
      invariant TotalCount(ps[..j]) <= TotalCount(ps)
      invariant |out| == |indices|
      invariant out[..k] == ExpandAll(ps[..j])
      invariant forall t :: k <= t < |indices| ==> out[t] == indices[t]
    {
      PrefixCountBound(ps, j + 1);
      assert ps[..j + 1][..j] == ps[..j];
      var before := out;
      out, k := ExpandInterval(ps[j], out, k);
      assert out[..k] == before[..k - Count(ps[j])] + Expand(ps[j]);
      j := j + 1;
    }
    assert ps[..j] == ps;
  }

  /** The count of a prefix of the intervals never exceeds the count of all of them. */
  lemma {:induction false} PrefixCountBound(ps: seq<Point>, j: nat)
    requires j <= |ps|
    ensures TotalCount(ps[..j]) <= TotalCount(ps)
    decreases |ps| - j
  {
    if j < |ps| {
      PrefixCountBound(ps, j + 1);
      assert ps[..j + 1][..j] == ps[..j];
    } else {
      assert ps[..j] == ps;
    }
  }

  /** First leaf of process `p` among `numLeaves` leaves shared by `size` processes. */
  function LeafStart(numLeaves: nat, size: nat, p: nat): int
    requires size > 0
  {
    (numLeaves / size) * p + PetscMath.Min(numLeaves % size, p)
  }

  /** One past the last leaf of process `p`, as the loop bound of the partition loops writes it. */
  function LeafEnd(numLeaves: nat, size: nat, p: nat): int
    requires size > 0
  {
    (numLeaves / size) * (p + 1) + PetscMath.Min(numLeaves % size, p + 1)
  }

  /** Consecutive ranges abut: process `p` ends where process `p+1` starts. */
  lemma RangesAbut(numLeaves: nat, size: nat, p: nat)
    requires size > 0
    ensures LeafEnd(numLeaves, size, p) == LeafStart(numLeaves, size, p + 1)
  {
  }

  /**
   * Each process gets `numLeaves/size` leaves, plus one more for the first
   * `numLeaves % size` processes.
   */
  lemma RangeSize(numLeaves: nat, size: nat, p: nat)
    requires size > 0
    ensures LeafEnd(numLeaves, size, p) - LeafStart(numLeaves, size, p)
      == numLeaves / size + (if p < numLeaves % size then 1 else 0)
  {
    var q := numLeaves / size;
    assert q * (p + 1) == q * p + q;
  }

  /** The ranges of processes `0 .. size-1` start at leaf 0 and end at `numLeaves`. */
  lemma RangesCoverAll(numLeaves: nat, size: nat)
    requires size > 0
    ensures LeafStart(numLeaves, size, 0) == 0
    ensures LeafEnd(numLeaves, size, size - 1) == numLeaves
  {
    var q := numLeaves / size;
    assert q * (size - 1 + 1) == q * size;
  }

  /** Leaf starts never decrease with the process number. */
  lemma {:induction false} LeafStartMonotone(numLeaves: nat, size: nat, p: nat, p': nat)
    requires size > 0
    requires p <= p'
    ensures LeafStart(numLeaves, size, p) <= LeafStart(numLeaves, size, p')
    decreases p' - p
  {
    if p < p' {
      RangeSize(numLeaves, size, p);
      LeafStartMonotone(numLeaves, size, p + 1, p');
    }
  }

  /**
   * The loops run by process 0 of the partition routines: for each process `p`
   * and each leaf `l` of its range, the closure (or cone) of leaf `l` is placed
   * under the partition point of `p`.  The model records, for every leaf,
   * the process it was placed under.
   */
  method PartitionLeaves(numLeaves: nat, size: nat) returns (owner: seq<nat>)
    requires size > 0
    ensures |owner| == numLeaves
    ensures forall l :: 0 <= l < numLeaves ==> owner[l] < size
    ensures forall l :: 0 <= l < numLeaves ==>
      LeafStart(numLeaves, size, owner[l]) <= l < LeafEnd(numLeaves, size, owner[l])
    ensures forall l, l' :: 0 <= l <= l' < numLeaves ==> owner[l] <= owner[l']
  {
    owner := [];
    var p := 0;
    while p < size
      invariant 0 <= p <= size
      invariant |owner| == LeafStart(numLeaves, size, p)
      invariant forall l :: 0 <= l < |owner| ==> owner[l] < p
      invariant forall l :: 0 <= l < |owner| ==>
        LeafStart(numLeaves, size, owner[l]) <= l < LeafEnd(numLeaves, size, owner[l])
      invariant forall l, l' :: 0 <= l <= l' < |owner| ==> owner[l] <= owner[l']
    {
      RangeSize(numLeaves, size, p);
      var out := AssignRange(owner, p, LeafEnd(numLeaves, size, p));
      PartitionStep(numLeaves, size, p, owner, out);
      owner, p := out, p + 1;
    }
    RangesCoverAll(numLeaves, size);
  }

  /** Placing the leaves of process `p` keeps the partition loop's invariant. */
  lemma PartitionStep(numLeaves: nat, size: nat, p: nat, owner: seq<nat>, out: seq<nat>)
    requires size > 0
    requires |owner| == LeafStart(numLeaves, size, p) <= LeafEnd(numLeaves, size, p)
    requires forall l :: 0 <= l < |owner| ==> owner[l] < p
    requires forall l :: 0 <= l < |owner| ==>
      LeafStart(numLeaves, size, owner[l]) <= l < LeafEnd(numLeaves, size, owner[l])
    requires forall l, l' :: 0 <= l <= l' < |owner| ==> owner[l] <= owner[l']
    requires |out| == LeafEnd(numLeaves, size, p) && out[..|owner|] == owner
    requires forall l :: |owner| <= l < |out| ==> out[l] == p
    ensures |out| == LeafStart(numLeaves, size, p + 1)
    ensures forall l :: 0 <= l < |out| ==> out[l] < p + 1
    ensures forall l :: 0 <= l < |out| ==>
      LeafStart(numLeaves, size, out[l]) <= l < LeafEnd(numLeaves, size, out[l])
    ensures forall l, l' :: 0 <= l <= l' < |out| ==> out[l] <= out[l']
  {
    RangesAbut(numLeaves, size, p);
    forall l | 0 <= l < |out|
      ensures out[l] <= p
      ensures LeafStart(numLeaves, size, out[l]) <= l < LeafEnd(numLeaves, size, out[l])
    {
      if l < |owner| {
        assert out[l] == owner[l];
      }
    }
    forall l, l' | 0 <= l <= l' < |out|
      ensures out[l] <= out[l']
    {
      if l' < |owner| {
        assert out[l] == owner[l] && out[l'] == owner[l'];
      } else if l < |owner| {
        assert out[l] == owner[l];
      }
    }
  }

  /** The inner loop of the partition: leaves `|owner| .. end-1` go to process `p`. */
  method AssignRange(owner: seq<nat>, p: nat, end: int) returns (out: seq<nat>)
    requires |owner| <= end
    requires forall l :: 0 <= l < |owner| ==> owner[l] < p
    ensures |out| == end
    ensures out[..|owner|] == owner
    ensures forall l :: |owner| <= l < end ==> out[l] == p
  {
    out := owner;
    while |out| < end
      invariant |owner| <= |out| <= end
      invariant out[..|owner|] == owner
      invariant forall l :: |owner| <= l < |out| ==> out[l] == p
    {
      out := out + [p];
    }
  }
}
