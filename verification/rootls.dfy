/**
 * `rootls` (rootls.c): the rooted level structure of a masked graph, the
 * breadth-first search that the ordering routines start from.  The graph is
 * in compressed adjacency form: the neighbours of node `v` are
 * `adjncy[xadj[v] .. xadj[v + 1]]`.  Only nodes whose mask is nonzero are
 * entered; the root is entered whatever its mask.  The search returns the
 * nodes in `ls`, level after level, with level `k` held in
 * `ls[xls[k] .. xls[k + 1]]`, and sets the mask of every node it entered to 1.
 *
 * The C code is Fortran translated to C and counts nodes and positions from
 * 1; the model counts from 0.
 */
module RootedLevels {

  /** A graph in compressed adjacency form. */
  datatype Graph = Graph(xadj: seq<int>, adjncy: seq<int>)

  /** `g` has `n` nodes, each neighbour list lies inside `adjncy`, and every neighbour is a node. */
  ghost predicate ValidGraph(g: Graph, n: nat)
  {
    && |g.xadj| == n + 1
    && (forall v :: 0 <= v < n ==> 0 <= g.xadj[v] <= g.xadj[v + 1])
    && (forall v :: 0 <= v <= n ==> g.xadj[v] <= |g.adjncy|)
    && (forall j :: 0 <= j < |g.adjncy| ==> 0 <= g.adjncy[j] < n)
  }

  /** `u` appears in the neighbour list of `v`. */
  ghost predicate Adjacent(g: Graph, n: nat, v: int, u: int)
    requires ValidGraph(g, n) && 0 <= v < n
  {
    exists j :: g.xadj[v] <= j < g.xadj[v + 1] && g.adjncy[j] == u
  }

  /** The node at position `p` of `ls` is adjacent to a node at a position in `[lo, hi)`. */
  ghost predicate EnteredFrom(g: Graph, n: nat, ls: seq<int>, lo: int, hi: int, p: int)
    requires ValidGraph(g, n) && Nodes(ls, n)
  {
    0 <= p < |ls| && exists q :: lo <= q < hi && 0 <= q < |ls| && Adjacent(g, n, ls[q], ls[p])
  }

  /** Each node of level `k` of `ls`, bounded by `xls`, is adjacent to a node of level `k - 1`. */
  ghost predicate LevelEntered(g: Graph, n: nat, ls: seq<int>, xls: seq<int>, k: int)
    requires ValidGraph(g, n) && Nodes(ls, n) && 1 <= k < |xls| - 1
  {
    var lo, mid, hi := xls[k - 1], xls[k], xls[k + 1];
    forall p :: mid <= p < hi ==> EnteredFrom(g, n, ls, lo, mid, p)
  }

  /**
   * Every neighbour with a nonzero mask of a node at a position in `[lo, hi)`
   * sits among the first `bound` entries of `ls`.
   */
  ghost predicate NextWithin(g: Graph, n: nat, mask: seq<int>, ls: seq<int>, lo: int, hi: int, bound: int)
    requires ValidGraph(g, n) && Nodes(ls, n) && |mask| == n
  {
    && 0 <= lo <= hi <= bound <= |ls|
    && forall p, j :: lo <= p < hi && g.xadj[ls[p]] <= j < g.xadj[ls[p] + 1] && mask[g.adjncy[j]] != 0 ==>
         g.adjncy[j] in ls[..bound]
  }

  /** With boundaries `b`, every masked neighbour of a level lies in the next level or an earlier one. */
  ghost predicate Breadth(g: Graph, n: nat, mask: seq<int>, ls: seq<int>, b: seq<int>)
    requires ValidGraph(g, n) && Nodes(ls, n) && |mask| == n
  {
    forall k :: 0 <= k < |b| - 2 ==> NextWithin(g, n, mask, ls, b[k], b[k + 1], b[k + 2])
  }

  /** No node occurs twice in `s`. */
  ghost predicate Distinct(s: seq<int>)
  {
    forall p, q :: 0 <= p < q < |s| ==> s[p] != s[q]
  }

  /** Every entry of `s` is a node. */
  ghost predicate Nodes(s: seq<int>, n: nat)
  {
    forall p :: 0 <= p < |s| ==> 0 <= s[p] < n
  }

  /** A sequence of distinct nodes holds at most `n` of them. */
  lemma {:induction false} DistinctBounded(s: seq<int>, n: nat)
    requires Distinct(s) && Nodes(s, n)
    ensures |s| <= n
    decreases n
  {
    if |s| > 0 {
      assert 0 <= s[0] < n;
      if p :| 0 <= p < |s| && s[p] == n - 1 {
        var t := s[..p] + s[p + 1..];
        assert forall q :: 0 <= q < |t| ==> t[q] == (if q < p then s[q] else s[q + 1]);
        DistinctBounded(t, n - 1);
      } else {
        DistinctBounded(s, n - 1);
      }
    }
  }

  /**
   * The state of the search: `ls` starts at the root, holds distinct nodes,
   * every node after the root had a nonzero mask, and the working mask `m`
   * is 0 exactly on the entered nodes and on the nodes masked out.
   */
  ghost predicate Searching(n: nat, root: int, mask: seq<int>, ls: seq<int>, m: seq<int>)
  {
    && |mask| == n && |m| == n
    && |ls| >= 1 && ls[0] == root
    && Distinct(ls) && Nodes(ls, n)
    && (forall p :: 1 <= p < |ls| ==> mask[ls[p]] != 0)
    && (forall v :: 0 <= v < n ==> m[v] == if v in ls then 0 else mask[v])
  }

  /** Every node after the root was entered from an earlier node it is adjacent to. */
  ghost predicate Parents(g: Graph, n: nat, ls: seq<int>, parent: seq<int>)
    requires ValidGraph(g, n) && Nodes(ls, n)
  {
    |parent| == |ls| && forall p :: 1 <= p < |ls| ==> 0 <= parent[p] < p && Adjacent(g, n, ls[parent[p]], ls[p])
  }

  /** Every neighbour of the node at position `p` has working mask 0. */
  ghost predicate Scanned(g: Graph, n: nat, ls: seq<int>, m: seq<int>, p: int)
    requires ValidGraph(g, n) && Nodes(ls, n) && 0 <= p < |ls| && |m| == n
  {
    forall j :: g.xadj[ls[p]] <= j < g.xadj[ls[p] + 1] ==> m[g.adjncy[j]] == 0
  }

  /** The search only appends to `ls` and only clears masks. */
  ghost predicate Grows(ls: seq<int>, m: seq<int>, parent: seq<int>, ls': seq<int>, m': seq<int>, parent': seq<int>)
  {
    && |ls| <= |ls'| && ls'[..|ls|] == ls
    && |parent| <= |parent'| && parent'[..|parent|] == parent
    && |m| == |m'| && forall v :: 0 <= v < |m| && m[v] == 0 ==> m'[v] == 0
  }

  /** Entering an unmasked neighbour of an entered node keeps the search state. */
  lemma Enter(g: Graph, n: nat, root: int, mask: seq<int>, ls: seq<int>, m: seq<int>, parent: seq<int>, i: int, j: int)
    requires ValidGraph(g, n) && Searching(n, root, mask, ls, m) && Parents(g, n, ls, parent)
    requires 0 <= i < |ls| && g.xadj[ls[i]] <= j < g.xadj[ls[i] + 1] && m[g.adjncy[j]] != 0
    ensures var u := g.adjncy[j];
      Searching(n, root, mask, ls + [u], m[u := 0]) && Parents(g, n, ls + [u], parent + [i])
  {
    var u := g.adjncy[j];
    assert Adjacent(g, n, ls[i], u);
    assert u !in ls;
    var ls' := ls + [u];
    assert forall p :: 0 <= p < |ls| ==> ls'[p] == ls[p];
  }

  /** Scanning more of the graph keeps a scanned node scanned. */
  lemma StillScanned(g: Graph, n: nat, ls: seq<int>, m: seq<int>, parent: seq<int>, ls': seq<int>, m': seq<int>, parent': seq<int>, p: int)
    requires ValidGraph(g, n) && Nodes(ls, n) && Nodes(ls', n) && |m| == n
    requires Grows(ls, m, parent, ls', m', parent') && 0 <= p < |ls|
    requires Scanned(g, n, ls, m, p)
    ensures Scanned(g, n, ls', m', p)
  {
    assert ls'[p] == ls[p];
  }

  /**
   * The inner loop over the neighbours of the node at position `i`: every
   * neighbour whose working mask is nonzero is appended to `ls`, recorded as
   * entered from `i`, and masked.
   */
  method ScanNode(g: Graph, n: nat, root: int, mask: seq<int>, ls: seq<int>, m: seq<int>, ghost parent: seq<int>, i: int)
    returns (ls': seq<int>, m': seq<int>, ghost parent': seq<int>)
    requires ValidGraph(g, n) && Searching(n, root, mask, ls, m) && Parents(g, n, ls, parent)
    requires 0 <= i < |ls|
    ensures Searching(n, root, mask, ls', m') && Parents(g, n, ls', parent')
    ensures Grows(ls, m, parent, ls', m', parent')
    ensures forall p :: |ls| <= p < |ls'| ==> parent'[p] == i
    ensures Scanned(g, n, ls', m', i)
  {
    ls', m', parent' := ls, m, parent;
    var node := ls[i];
    var j := g.xadj[node];
    while j < g.xadj[node + 1]
      invariant g.xadj[node] <= j <= g.xadj[node + 1]
      invariant Searching(n, root, mask, ls', m') && Parents(g, n, ls', parent')
      invariant Grows(ls, m, parent, ls', m', parent')
      invariant forall p :: |ls| <= p < |ls'| ==> parent'[p] == i
      invariant forall k :: g.xadj[node] <= k < j ==> m'[g.adjncy[k]] == 0
    {
      var nbr := g.adjncy[j];
      if m'[nbr] != 0 {
        Enter(g, n, root, mask, ls', m', parent', i, j);
        ls', m', parent' := ls' + [nbr], m'[nbr := 0], parent' + [i];
      }
      j := j + 1;
    }
  }

  /**
   * One level: the nodes at positions `[lbegin, lvlend)` are scanned in
   * order; what they enter forms the next level.
   */
  method ScanLevel(g: Graph, n: nat, root: int, mask: seq<int>, ls: seq<int>, m: seq<int>, ghost parent: seq<int>, lbegin: int)
    returns (ls': seq<int>, m': seq<int>, ghost parent': seq<int>)
    requires ValidGraph(g, n) && Searching(n, root, mask, ls, m) && Parents(g, n, ls, parent)
    requires 0 <= lbegin <= |ls|
    requires forall p :: 0 <= p < lbegin ==> Scanned(g, n, ls, m, p)
    ensures Searching(n, root, mask, ls', m') && Parents(g, n, ls', parent')
    ensures Grows(ls, m, parent, ls', m', parent')
    ensures forall p :: 0 <= p < |ls| ==> Scanned(g, n, ls', m', p)
    ensures forall p :: |ls| <= p < |ls'| ==> lbegin <= parent'[p] < |ls|
  {
    ls', m', parent' := ls, m, parent;
    var lvlend := |ls|;
    var i := lbegin;
    while i < lvlend
      invariant lbegin <= i <= lvlend
      invariant Searching(n, root, mask, ls', m') && Parents(g, n, ls', parent')
      invariant Grows(ls, m, parent, ls', m', parent')
      invariant forall p :: 0 <= p < i ==> Scanned(g, n, ls', m', p)
      invariant forall p :: lvlend <= p < |ls'| ==> lbegin <= parent'[p] < lvlend
    {
      ghost var ls0, m0, parent0 := ls', m', parent';
      ls', m', parent' := ScanNode(g, n, root, mask, ls', m', parent', i);
      forall p | 0 <= p < i
        ensures Scanned(g, n, ls', m', p)
      {
        StillScanned(g, n, ls0, m0, parent0, ls', m', parent', p);
      }
      forall p | lvlend <= p < |ls'|
        ensures lbegin <= parent'[p] < lvlend
      {
        if p < |ls0| {
          assert parent'[p] == parent0[p];
        }
      }
      i := i + 1;
    }
  }

  /** The nodes at positions `[b[k], b[k + 1])` were entered from positions `[b[k - 1], b[k])`. */
  ghost predicate LevelParents(parent: seq<int>, b: seq<int>, k: int)
    requires 1 <= k < |b| - 1
  {
    forall p :: b[k] <= p < b[k + 1] ==> ParentOn(parent, b, k, p)
  }

  /** The node at position `p` was entered from a position in `[b[k - 1], b[k])`. */
  ghost predicate ParentOn(parent: seq<int>, b: seq<int>, k: int, p: int)
    requires 1 <= k < |b|
  {
    0 <= p < |parent| && b[k - 1] <= parent[p] < b[k]
  }

  /** Every level after the first was entered from the one before. */
  ghost predicate Layered(parent: seq<int>, b: seq<int>)
  {
    forall k :: 1 <= k < |b| - 1 ==> LevelParents(parent, b, k)
  }

  /** Closing the level under construction keeps the levels layered. */
  lemma LayeredGrow(parent: seq<int>, parent': seq<int>, b: seq<int>)
    requires |b| >= 1 && b[|b| - 1] <= |parent| <= |parent'| && parent'[..|parent|] == parent
    requires forall k :: 0 <= k < |b| ==> 0 <= b[k] <= |parent|
    requires Layered(parent, b)
    requires |b| >= 2 ==> forall p :: b[|b| - 1] <= p < |parent| ==> b[|b| - 2] <= parent[p] < b[|b| - 1]
    ensures Layered(parent', b + [|parent|])
  {
    var b' := b + [|parent|];
    forall k | 1 <= k < |b'| - 1
      ensures LevelParents(parent', b', k)
    {
      forall p | b'[k] <= p < b'[k + 1]
        ensures ParentOn(parent', b', k, p)
      {
        if k < |b| - 1 {
          assert LevelParents(parent, b, k);
          assert ParentOn(parent, b, k, p);
        }
        assert 0 <= p < |parent|;
        assert parent'[p] == parent[p];
      }
    }
  }

  /**
   * The state of the level loop: levels `xls` are closed up to position
   * `lvlend`, every node before `lvlend` is scanned, the closed levels are
   * layered and breadth first, and the nodes after `lvlend` were entered from
   * the last closed level.
   */
  ghost predicate Levels(g: Graph, n: nat, root: int, mask: seq<int>, ls: seq<int>, m: seq<int>, parent: seq<int>, xls: seq<int>, lvlend: int)
  {
    && ValidGraph(g, n)
    && Searching(n, root, mask, ls, m) && Parents(g, n, ls, parent)
    && 0 <= lvlend <= |ls|
    && (|xls| == 0 <==> lvlend == 0)
    && (|xls| > 0 ==> xls[0] == 0)
    && (lvlend == 0 ==> |ls| == 1)
    && (|xls| == 1 ==> lvlend == 1)
    && (|xls| > 1 ==> xls[1] == 1)
    && (forall k :: 0 <= k < |xls| ==> 0 <= xls[k] < lvlend)
    && (forall k :: 0 <= k < |xls| ==> (xls + [lvlend])[k] < (xls + [lvlend])[k + 1])
    && (forall p :: 0 <= p < lvlend ==> Scanned(g, n, ls, m, p))
    && Layered(parent, xls + [lvlend])
    && Breadth(g, n, mask, ls, xls + [lvlend, |ls|])
    && (|xls| > 0 ==> forall p :: lvlend <= p < |ls| ==> xls[|xls| - 1] <= parent[p] < lvlend)
  }

  /**
   * One pass of the level loop: the nodes entered since the last level close
   * the next level, and scanning them enters the level after it.
   */
  method NextLevel(g: Graph, n: nat, root: int, mask: seq<int>, xls: seq<int>, lvlend: int, ls: seq<int>, m: seq<int>, ghost parent: seq<int>)
    returns (xls': seq<int>, lvlend': int, ls': seq<int>, m': seq<int>, ghost parent': seq<int>)
    requires Levels(g, n, root, mask, ls, m, parent, xls, lvlend) && lvlend < |ls|
    ensures Levels(g, n, root, mask, ls', m', parent', xls', lvlend')
    ensures xls' == xls + [lvlend] && lvlend' == |ls| && |ls| <= |ls'| && ls'[..|ls|] == ls
    ensures lvlend < lvlend' <= n
  {
    DistinctBounded(ls, n);
    ghost var b := xls + [lvlend];
    ghost var bb := b + [|ls|];
    assert bb == xls + [lvlend, |ls|];
    xls', lvlend' := xls + [lvlend], |ls|;
    ls', m', parent' := ScanLevel(g, n, root, mask, ls, m, parent, lvlend);
    LayeredGrow(parent, parent', b);
    assert xls' + [lvlend'] == b + [|parent|];
    ScannedWithin(g, n, root, mask, ls', m', lvlend, lvlend');
    BreadthGrow(g, n, mask, ls, ls', bb);
    assert xls' + [lvlend', |ls'|] == bb + [|ls'|];
  }

  /**
   * `rootls`.  Returns the number of levels, the level boundaries `xls`
   * (one more than the number of levels), the entered nodes `ls` and the
   * mask with every entered node set to 1.
   */
  method RootLs(g: Graph, n: nat, root: int, mask: seq<int>)
    returns (nlvl: int, xls: seq<int>, ls: seq<int>, mask': seq<int>)
    requires ValidGraph(g, n) && |mask| == n && 0 <= root < n
    // The levels partition `ls`, each nonempty, the root alone in the first.
    ensures nlvl >= 1 && |xls| == nlvl + 1
    ensures xls[0] == 0 && xls[1] == 1 && xls[nlvl] == |ls|
    ensures forall k :: 0 <= k < nlvl ==> xls[k] < xls[k + 1]
    ensures |ls| >= 1 && ls[0] == root && Distinct(ls) && Nodes(ls, n)
    // Only nodes with a nonzero mask are entered after the root.
    ensures forall p :: 1 <= p < |ls| ==> mask[ls[p]] != 0
    // Each node of level `k >= 1` is adjacent to a node of level `k - 1`.
    ensures forall k :: 1 <= k < nlvl ==> LevelEntered(g, n, ls, xls, k)
    // Breadth first: every neighbour with a nonzero mask of a node of level
    // `k` lies on level `k + 1` or an earlier one.
    ensures forall k :: 0 <= k < nlvl - 1 ==> NextWithin(g, n, mask, ls, xls[k], xls[k + 1], xls[k + 2])
    // Every neighbour with a nonzero mask of an entered node is entered.
    ensures forall p, j :: 0 <= p < |ls| && g.xadj[ls[p]] <= j < g.xadj[ls[p] + 1] && mask[g.adjncy[j]] != 0 ==>
      g.adjncy[j] in ls
    // The entered nodes have mask 1 and all other masks are unchanged.
    ensures |mask'| == n && forall v :: 0 <= v < n ==> mask'[v] == if v in ls then 1 else mask[v]
  {
    var m := mask[root := 0];
    ls := [root];
    ghost var parent := [0];
    xls := [];
    var lvlend := 0;
    while lvlend < |ls|
      invariant Levels(g, n, root, mask, ls, m, parent, xls, lvlend)
      invariant lvlend <= n
      decreases n - lvlend
    {
      xls, lvlend, ls, m, parent := NextLevel(g, n, root, mask, xls, lvlend, ls, m, parent);
    }
    ghost var bFinal := xls + [lvlend, |ls|];
    xls := xls + [lvlend];
    nlvl := |xls| - 1;
    assert xls + [|ls|] == bFinal;
    BreadthLevels(g, n, mask, ls, xls);
    LevelsAdjacent(g, n, ls, parent, xls);
    Closed(g, n, root, mask, ls, m);
    mask' := Restore(n, root, mask, ls, m);
  }

  /** The parent bound on each level gives each node of a level a neighbour in the one before. */
  lemma LevelsAdjacent(g: Graph, n: nat, ls: seq<int>, parent: seq<int>, xls: seq<int>)
    requires ValidGraph(g, n) && Nodes(ls, n) && Parents(g, n, ls, parent)
    requires forall k :: 0 <= k < |xls| ==> 0 <= xls[k]
    requires Layered(parent, xls)
    ensures forall k :: 1 <= k < |xls| - 1 ==> LevelEntered(g, n, ls, xls, k)
  {
    forall k | 1 <= k < |xls| - 1
      ensures LevelEntered(g, n, ls, xls, k)
    {
      assert LevelParents(parent, xls, k);
      var lo, mid, hi := xls[k - 1], xls[k], xls[k + 1];
      forall p | mid <= p < hi
        ensures EnteredFrom(g, n, ls, lo, mid, p)
      {
        ParentEnters(g, n, ls, parent, xls, k, p);
      }
    }
  }

  /** A node of level `k` is entered from its parent, which lies on level `k - 1`. */
  lemma ParentEnters(g: Graph, n: nat, ls: seq<int>, parent: seq<int>, xls: seq<int>, k: int, p: int)
    requires ValidGraph(g, n) && Nodes(ls, n) && Parents(g, n, ls, parent)
    requires 1 <= k < |xls| - 1 && 0 <= xls[k - 1] && LevelParents(parent, xls, k)
    requires xls[k] <= p < xls[k + 1]
    ensures EnteredFrom(g, n, ls, xls[k - 1], xls[k], p)
  {
    assert ParentOn(parent, xls, k, p);
    var q := parent[p];
    assert 1 <= p < |ls|;
    assert Adjacent(g, n, ls[q], ls[p]);
  }

  /** The triangle on nodes 0, 1 and 2. */
  function Triangle(): Graph {
    Graph([0, 2, 4, 6], [1, 2, 0, 2, 0, 1])
  }

  /**
   * Levels are breadth first: on the triangle rooted at 0 with every mask set,
   * putting node 2 on a level of its own after node 1 breaks `NextWithin`
   * for the root's level, since 2 is a masked neighbour of the root.
   */
  lemma TriangleLevels()
    ensures ValidGraph(Triangle(), 3)
    ensures !NextWithin(Triangle(), 3, [1, 1, 1], [0, 1, 2], 0, 1, 2)
    ensures NextWithin(Triangle(), 3, [1, 1, 1], [0, 1, 2], 0, 1, 3)
  {
    var g, ls := Triangle(), [0, 1, 2];
    assert ValidGraph(g, 3);
    assert ls[..2] == [0, 1] && g.adjncy[1] == 2;
    assert g.xadj[ls[0]] <= 1 < g.xadj[ls[0] + 1] && [1, 1, 1][g.adjncy[1]] != 0;
    assert g.adjncy[1] !in ls[..2];
    assert ls[..3] == ls;
  }

  /** Once the nodes before `hi` are scanned, the masked neighbours of positions `[lo, hi)` are entered. */
  lemma ScannedWithin(g: Graph, n: nat, root: int, mask: seq<int>, ls: seq<int>, m: seq<int>, lo: int, hi: int)
    requires ValidGraph(g, n) && Searching(n, root, mask, ls, m)
    requires 0 <= lo <= hi <= |ls|
    requires forall p :: 0 <= p < hi ==> Scanned(g, n, ls, m, p)
    ensures NextWithin(g, n, mask, ls, lo, hi, |ls|)
  {
    assert ls[..|ls|] == ls;
    forall p, j | lo <= p < hi && g.xadj[ls[p]] <= j < g.xadj[ls[p] + 1] && mask[g.adjncy[j]] != 0
      ensures g.adjncy[j] in ls[..|ls|]
    {
      assert Scanned(g, n, ls, m, p);
    }
  }

  /** Appending to `ls` keeps the closed levels breadth first; the level just scanned joins them. */
  lemma BreadthGrow(g: Graph, n: nat, mask: seq<int>, ls: seq<int>, ls': seq<int>, b: seq<int>)
    requires ValidGraph(g, n) && |mask| == n && Nodes(ls, n) && Nodes(ls', n)
    requires |ls| <= |ls'| && ls'[..|ls|] == ls
    requires |b| >= 2 && b[|b| - 1] == |ls|
    requires Breadth(g, n, mask, ls, b)
    requires NextWithin(g, n, mask, ls', b[|b| - 2], b[|b| - 1], |ls'|)
    ensures Breadth(g, n, mask, ls', b + [|ls'|])
  {
    var b' := b + [|ls'|];
    forall k | 0 <= k < |b'| - 2
      ensures NextWithin(g, n, mask, ls', b'[k], b'[k + 1], b'[k + 2])
    {
      if k < |b| - 2 {
        assert NextWithin(g, n, mask, ls, b[k], b[k + 1], b[k + 2]);
        var bound := b[k + 2];
        assert ls'[..bound] == ls[..bound];
        forall p | b[k] <= p < b[k + 1]
          ensures ls'[p] == ls[p]
        {
        }
      }
    }
  }

  /** Breadth over the boundaries closed by `|ls|` states it for each pair of consecutive levels of `xls`. */
  lemma BreadthLevels(g: Graph, n: nat, mask: seq<int>, ls: seq<int>, xls: seq<int>)
    requires ValidGraph(g, n) && |mask| == n && Nodes(ls, n)
    requires Breadth(g, n, mask, ls, xls + [|ls|])
    ensures forall k :: 0 <= k < |xls| - 2 ==> NextWithin(g, n, mask, ls, xls[k], xls[k + 1], xls[k + 2])
  {
    var b := xls + [|ls|];
    forall k | 0 <= k < |xls| - 2
      ensures NextWithin(g, n, mask, ls, xls[k], xls[k + 1], xls[k + 2])
    {
      assert b[k] == xls[k] && b[k + 1] == xls[k + 1] && b[k + 2] == xls[k + 2];
    }
  }

  /** Once every entered node is scanned, every unmasked neighbour of an entered node is entered. */
  lemma Closed(g: Graph, n: nat, root: int, mask: seq<int>, ls: seq<int>, m: seq<int>)
    requires ValidGraph(g, n) && Searching(n, root, mask, ls, m)
    requires forall p :: 0 <= p < |ls| ==> Scanned(g, n, ls, m, p)
    ensures forall p, j :: 0 <= p < |ls| && g.xadj[ls[p]] <= j < g.xadj[ls[p] + 1] && mask[g.adjncy[j]] != 0 ==>
      g.adjncy[j] in ls
  {
    forall p, j | 0 <= p < |ls| && g.xadj[ls[p]] <= j < g.xadj[ls[p] + 1] && mask[g.adjncy[j]] != 0
      ensures g.adjncy[j] in ls
    {
      assert Scanned(g, n, ls, m, p);
    }
  }

  /** The final loop: the mask of every entered node becomes 1. */
  method Restore(n: nat, root: int, mask: seq<int>, ls: seq<int>, m: seq<int>) returns (mask': seq<int>)
    requires Searching(n, root, mask, ls, m)
    ensures |mask'| == n && forall v :: 0 <= v < n ==> mask'[v] == if v in ls then 1 else mask[v]
  {
    mask' := m;
    var i := 0;
    while i < |ls|
      invariant 0 <= i <= |ls| && |mask'| == n
      invariant forall v :: 0 <= v < n ==> mask'[v] == if v in ls[..i] then 1 else m[v]
    {
      mask' := mask'[ls[i] := 1];
      assert ls[..i + 1] == ls[..i] + [ls[i]];
      i := i + 1;
    }
    assert ls[..|ls|] == ls;
  }

  /** `path` walks from the root along edges, every node after the root having a nonzero mask. */
  ghost predicate MaskedPath(g: Graph, n: nat, mask: seq<int>, root: int, path: seq<int>)
    requires ValidGraph(g, n) && |mask| == n
    decreases |path|
  {
    && |path| >= 1 && 0 <= path[|path| - 1] < n
    && if |path| == 1 then path[0] == root
       else
         var v, u := path[|path| - 2], path[|path| - 1];
         && MaskedPath(g, n, mask, root, path[..|path| - 1])
         && 0 <= v < n && Adjacent(g, n, v, u) && mask[u] != 0
  }

  /**
   * Completeness: a set of entered nodes that holds the root and every
   * unmasked neighbour of its nodes holds every node a masked path reaches.
   */
  lemma {:induction false} Reached(g: Graph, n: nat, mask: seq<int>, root: int, ls: seq<int>, path: seq<int>)
    requires ValidGraph(g, n) && |mask| == n && Nodes(ls, n) && |ls| >= 1 && ls[0] == root
    requires forall p, j :: 0 <= p < |ls| && g.xadj[ls[p]] <= j < g.xadj[ls[p] + 1] && mask[g.adjncy[j]] != 0 ==>
      g.adjncy[j] in ls
    requires MaskedPath(g, n, mask, root, path)
    ensures path[|path| - 1] in ls
    decreases |path|
  {
    if |path| > 1 {
      var prefix := path[..|path| - 1];
      Reached(g, n, mask, root, ls, prefix);
      var v, u := path[|path| - 2], path[|path| - 1];
      assert prefix[|prefix| - 1] == v;
      var j :| g.xadj[v] <= j < g.xadj[v + 1] && g.adjncy[j] == u;
      var p :| 0 <= p < |ls| && ls[p] == v;
    }
  }
}
