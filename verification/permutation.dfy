/**
 * Index permutations as the factorisation routines receive them (the index
 * sets `isrow`/`iscol`) and their inversion, which the routines obtain from
 * `ISInvertPermutation`.  Indices are 0-origin.
 */
module Permutations {

  /** `p` lists every index `0..n-1` exactly once. */
  predicate IsPermutation(p: seq<int>, n: nat) {
    && |p| == n
    && (forall i :: 0 <= i < n ==> 0 <= p[i] < n)
    && (forall i, j :: 0 <= i < j < n ==> p[i] != p[j])
  }

  /** `q` undoes `p` from both sides. */
  predicate AreInverse(p: seq<int>, q: seq<int>, n: nat)
    requires IsPermutation(p, n) && IsPermutation(q, n)
  {
    && (forall i :: 0 <= i < n ==> q[p[i]] == i)
    && (forall j :: 0 <= j < n ==> p[q[j]] == j)
  }

  /** The indices `0..n-1` as a set. */
  function Range(n: nat): (r: set<int>)
    ensures forall x :: x in r <==> 0 <= x < n
    ensures |r| == n
  {
    if n == 0 then {} else Range(n - 1) + {n - 1}
  }

  /** A subset is no larger than its superset, and a proper subset is smaller. */
  lemma {:induction false} SubsetSize<T>(a: set<T>, b: set<T>)
    requires a <= b
    ensures |a| <= |b|
    ensures a != b ==> |a| < |b|
    decreases |b|
  {
    if a != b {
      var x :| x in b && x !in a;
      SubsetSize(a, b - {x});
    }
  }

  /** The entries of a sequence as a set. */
  function Elements(s: seq<int>): set<int> {
    set k | 0 <= k < |s| :: s[k]
  }

  /** A sequence without repetitions has as many distinct elements as entries. */
  lemma {:induction false} DistinctElements(s: seq<int>)
    requires forall i, j :: 0 <= i < j < |s| ==> s[i] != s[j]
    ensures |Elements(s)| == |s|
  {
    if |s| > 0 {
      var t := s[..|s| - 1];
      DistinctElements(t);
      assert Elements(s) == Elements(t) + {s[|s| - 1]};
      assert s[|s| - 1] !in Elements(t);
    }
  }

  /** Pigeonhole: distinct values taken from `0..n-1` number at most `n`. */
  lemma DistinctBound(s: seq<int>, n: nat)
    requires forall i, j :: 0 <= i < j < |s| ==> s[i] != s[j]
    requires forall i :: 0 <= i < |s| ==> 0 <= s[i] < n
    ensures |s| <= n
  {
    DistinctElements(s);
    SubsetSize(Elements(s), Range(n));
  }

  /** A permutation reaches every index. */
  lemma PermutationOnto(p: seq<int>, n: nat, j: int)
    requires IsPermutation(p, n)
    requires 0 <= j < n
    ensures exists i :: 0 <= i < n && p[i] == j
  {
    DistinctElements(p);
    SubsetSize(Elements(p), Range(n));
    assert j in Elements(p);
  }

  /** The position at which `j` occurs in `p`. */
  function IndexOf(p: seq<int>, j: int): (k: int)
    requires j in p
    ensures 0 <= k < |p| && p[k] == j
  {
    if p[0] == j then 0 else 1 + IndexOf(p[1..], j)
  }

  /** The inverse permutation, as a value: `Inverse(p, n)[p[i]] == i`. */
  function Inverse(p: seq<int>, n: nat): (q: seq<int>)
    requires IsPermutation(p, n)
    ensures IsPermutation(q, n)
    ensures AreInverse(p, q, n)
  {
    var q := seq(n, j requires 0 <= j < n => if j in p then IndexOf(p, j) else 0);
    forall j | 0 <= j < n
      ensures j in p
    {
      PermutationOnto(p, n, j);
    }
    q
  }

  /** A permutation has only one inverse. */
  lemma InverseUnique(p: seq<int>, q: seq<int>, n: nat)
    requires IsPermutation(p, n) && IsPermutation(q, n)
    requires AreInverse(p, q, n)
    ensures q == Inverse(p, n)
  {
    var q' := Inverse(p, n);
    forall j | 0 <= j < n
      ensures q[j] == q'[j]
    {
      assert p[q[j]] == j == p[q'[j]];
    }
  }

  /** `ISInvertPermutation`: `q[p[i]] = i`. */
  method Invert(p: seq<int>, n: nat) returns (q: seq<int>)
    requires IsPermutation(p, n)
    ensures q == Inverse(p, n)
  {
    q := seq(n, _ => 0);
    var i := 0;
    while i < n
      invariant 0 <= i <= n
      invariant |q| == n
      invariant forall k :: 0 <= k < i ==> q[p[k]] == k
    {
      q := q[p[i] := i];
      i := i + 1;
    }
    forall j | 0 <= j < n
      ensures 0 <= q[j] < n && p[q[j]] == j
    {
      PermutationOnto(p, n, j);
    }
    InverseUnique(p, q, n);
  }
}
