/**
 * The sorted singly linked list the AIJ symbolic factorisation threads
 * through its `fill` array (aijfact.c).  `fill` has `n+1` slots; slot `n` is
 * both the head and the tail sentinel, and `fill[c]` is the successor of
 * column `c` while `c` is on the list.  Slots of columns not on the list hold
 * stale values and are never read.
 */
module FillList {

  /** Strictly increasing. */
  predicate Increasing(s: seq<int>) {
    forall a, b :: 0 <= a < b < |s| ==> s[a] < s[b]
  }

  /** The successor of position `t` of `L`: the next element, or the sentinel `n` after the last. */
  function NextOf(L: seq<int>, n: int, t: int): int
    requires -1 <= t < |L|
  {
    if t + 1 < |L| then L[t + 1] else n
  }

  /**
   * `fill` represents the increasing list `L` of columns in `0..n-1`:
   * following `fill` from the head `fill[n]` visits exactly `L` and then `n`.
   */
  ghost predicate ListRep(fill: seq<int>, n: nat, L: seq<int>) {
    && |fill| == n + 1
    && Increasing(L)
    && (forall k :: 0 <= k < |L| ==> 0 <= L[k] < n)
    && fill[n] == NextOf(L, n, -1)
    && (forall k :: 0 <= k < |L| ==> fill[L[k]] == NextOf(L, n, k))
  }

  /** `L` with `x` placed at position `t`. */
  function InsertAt(L: seq<int>, t: int, x: int): (r: seq<int>)
    requires 0 <= t <= |L|
    ensures |r| == |L| + 1
    ensures forall y :: y in r <==> y in L || y == x
    ensures forall k :: 0 <= k < t ==> r[k] == L[k]
    ensures r[t] == x
    ensures forall k :: t < k < |r| ==> r[k] == L[k - 1]
  {
    assert forall y :: y in L <==> y in L[..t] || y in L[t..] by {
      assert L == L[..t] + L[t..];
    }
    L[..t] + [x] + L[t..]
  }

  /** Number of elements of an increasing list that are below `x`. */
  predicate SplitsAt(L: seq<int>, t: int, x: int) {
    && 0 <= t <= |L|
    && (forall k :: 0 <= k < t ==> L[k] < x)
    && (forall k :: t <= k < |L| ==> L[k] >= x)
  }

  /**
   * The walk of lines 42-47 (and 57-62): from the head, advance while the
   * successor is below `idx`.  Returns the last node passed (`m`, possibly the
   * head `n`) and its successor `fm`, the first element not below `idx` or `n`.
   */
  method Locate(fill: seq<int>, n: nat, ghost L: seq<int>, idx: int) returns (m: int, fm: int, ghost t: int)
    requires ListRep(fill, n, L)
    requires 0 <= idx < n
    ensures SplitsAt(L, t, idx)
    ensures m == if t == 0 then n else L[t - 1]
    ensures fm == NextOf(L, n, t - 1)
    ensures fm == idx <==> idx in L
  {
    t := 0;
    fm := n;
    m := fm;
    fm := fill[m];
    while fm < idx
      invariant 0 <= t <= |L|
      invariant forall k :: 0 <= k < t ==> L[k] < idx
      invariant m == if t == 0 then n else L[t - 1]
      invariant fm == NextOf(L, n, t - 1)
      decreases |L| - t
    {
      Successor(fill, n, L, t);
      t := t + 1;
      m := fm;
      fm := fill[m];
    }
    WalkStopped(L, n, t, idx);
  }

  /** The walk stops at the split point; the node it stops at is `idx` exactly when `idx` is on the list. */
  lemma WalkStopped(L: seq<int>, n: nat, t: int, idx: int)
    requires Increasing(L) && (forall k :: 0 <= k < |L| ==> 0 <= L[k] < n)
    requires 0 <= t <= |L| && (forall k :: 0 <= k < t ==> L[k] < idx)
    requires idx < n && idx <= NextOf(L, n, t - 1)
    ensures SplitsAt(L, t, idx)
    ensures NextOf(L, n, t - 1) == idx <==> idx in L
  {
    if t < |L| {
      forall k | t <= k < |L|
        ensures L[k] >= idx
      {
        assert k == t || L[t] < L[k];
      }
    }
    if idx in L {
      var k :| 0 <= k < |L| && L[k] == idx;
      assert k >= t;
    }
  }

  /** The two writes of lines 48-49 (and 64-65) splice `idx` in after `m`. */
  function Splice(fill: seq<int>, n: nat, m: int, fm: int, idx: int): (f: seq<int>)
    requires |fill| == n + 1
    requires 0 <= m <= n && 0 <= idx < n
  {
    fill[m := idx][idx := fm]
  }

  /** Inserting at the split point keeps a list increasing. */
  lemma InsertKeepsIncreasing(L: seq<int>, t: int, idx: int)
    requires Increasing(L) && SplitsAt(L, t, idx) && idx !in L
    ensures Increasing(InsertAt(L, t, idx))
  {
    var L' := InsertAt(L, t, idx);
    forall a, b | 0 <= a < b < |L'|
      ensures L'[a] < L'[b]
    {
      if b == t {
        assert L'[a] == L[a];
      } else if a == t {
        assert L'[b] == L[b - 1];
        assert L[b - 1] != idx;
      } else if a < t && b < t {
      } else if a < t {
        assert L[a] < idx <= L[b - 1];
      } else {
        assert L'[a] == L[a - 1] && L'[b] == L[b - 1];
      }
    }
  }

  /** After the splice, the entry at position `k` of the new list links to its successor. */
  lemma SpliceLink(fill: seq<int>, n: nat, L: seq<int>, idx: int, m: int, fm: int, t: int, k: int)
    requires ListRep(fill, n, L)
    requires 0 <= idx < n && idx !in L
    requires SplitsAt(L, t, idx)
    requires m == if t == 0 then n else L[t - 1]
    requires fm == NextOf(L, n, t - 1)
    requires 0 <= k < |L| + 1
    ensures Splice(fill, n, m, fm, idx)[InsertAt(L, t, idx)[k]] == NextOf(InsertAt(L, t, idx), n, k)
  {
    var L' := InsertAt(L, t, idx);
    var f := Splice(fill, n, m, fm, idx);
    if k < t - 1 {
      assert L'[k] == L[k] && L'[k + 1] == L[k + 1];
      assert L[k] < L[t - 1];
      assert f[L[k]] == fill[L[k]];
    } else if k == t - 1 {
      assert L'[k] == L[k] == m;
      assert f[m] == idx;
    } else if k == t {
      assert f[idx] == fm;
    } else {
      var c := L[k - 1];
      assert L'[k] == c;
      assert c != idx;
      if t > 0 {
        assert L[t - 1] < c;
      }
      assert f[c] == fill[c];
      assert NextOf(L', n, k) == NextOf(L, n, k - 1);
    }
  }

  /** Splicing at the place `Locate` found keeps the representation, with `idx` inserted in order. */
  lemma SpliceInserts(fill: seq<int>, n: nat, L: seq<int>, idx: int, m: int, fm: int, t: int)
    requires ListRep(fill, n, L)
    requires 0 <= idx < n && idx !in L
    requires SplitsAt(L, t, idx)
    requires m == if t == 0 then n else L[t - 1]
    requires fm == NextOf(L, n, t - 1)
    ensures 0 <= m <= n
    ensures ListRep(Splice(fill, n, m, fm, idx), n, InsertAt(L, t, idx))
  {
    var L' := InsertAt(L, t, idx);
    var f := Splice(fill, n, m, fm, idx);
    InsertKeepsIncreasing(L, t, idx);
    forall k | 0 <= k < |L'|
      ensures f[L'[k]] == NextOf(L', n, k)
    {
      SpliceLink(fill, n, L, idx, m, fm, t, k);
    }
    if t == 0 {
      assert f[n] == idx;
    } else {
      assert f[n] == fill[n];
    }
  }

  /** An insertion above position `tr` leaves positions `0..tr` alone. */
  lemma InsertKeepsPrefix(L: seq<int>, t: int, idx: int, tr: int)
    requires SplitsAt(L, t, idx) && idx !in L
    requires 0 <= tr < |L| && L[tr] <= idx
    ensures tr < t
    ensures InsertAt(L, t, idx)[..tr + 1] == L[..tr + 1]
  {
    assert L[tr] != idx;
  }

  /** Following `fill` from an entry of the list reaches the next, larger entry. */
  lemma Successor(fill: seq<int>, n: nat, L: seq<int>, t: int)
    requires ListRep(fill, n, L) && 0 <= t < |L|
    ensures fill[L[t]] == NextOf(L, n, t)
    ensures L[t] < NextOf(L, n, t) <= n
  {
  }
}
