/**
 * Walks through the grid.  A walk from a node is the sequence of edges it takes;
 * the nodes it visits are the origin followed by the target of each edge.
 */
module Walks {
  import opened Graph

  /** The i-th node visited by the walk w that leaves from `from`. */
  function NodeAt(from: Handle, w: seq<Neighbor>, i: nat): Handle
    requires i <= |w|
  {
    if i == 0 then from else w[i - 1].node
  }

  /** The node the walk ends at. */
  function End(from: Handle, w: seq<Neighbor>): Handle
  {
    NodeAt(from, w, |w|)
  }

  /** The total cost of a walk. */
  function Cost(w: seq<Neighbor>): real
  {
    if w == [] then 0.0 else Cost(w[..|w| - 1]) + w[|w| - 1].cost
  }

  /** Every step of w leaves from the node it is at along an edge of the adjacency map. */
  ghost predicate IsWalk(adj: Adjacency, from: Handle, w: seq<Neighbor>)
  {
    forall i {:trigger NodeAt(from, w, i)} :: 0 <= i < |w| ==> EdgeFrom(adj, NodeAt(from, w, i), w[i])
  }

  /** No node is visited twice. */
  ghost predicate Simple(from: Handle, w: seq<Neighbor>)
  {
    forall i, j :: 0 <= i < j <= |w| ==> NodeAt(from, w, i) != NodeAt(from, w, j)
  }

  /** Some walk leads from `from` to `to`. */
  ghost predicate Reachable(adj: Adjacency, from: Handle, to: Handle)
  {
    exists w :: IsWalk(adj, from, w) && End(from, w) == to
  }

  /** The cost of every walk from `from` to `to` is at least d. */
  ghost predicate LowerBound(adj: Adjacency, from: Handle, to: Handle, d: real)
  {
    forall w :: IsWalk(adj, from, w) && End(from, w) == to ==> d <= Cost(w)
  }

  ghost predicate NonNegCosts(w: seq<Neighbor>)
  {
    forall i :: 0 <= i < |w| ==> w[i].cost >= 0.0
  }

  lemma WalkCostsNonNeg(grid: Grid, from: Handle, w: seq<Neighbor>)
    requires WellFormed(grid) && IsWalk(grid.nodeNeighbors, from, w)
    ensures NonNegCosts(w)
  {
    forall i | 0 <= i < |w| ensures w[i].cost >= 0.0 {
      EdgeOfWellFormed(grid, NodeAt(from, w, i), w[i]);
    }
  }

  lemma {:induction false} CostAppend(a: seq<Neighbor>, b: seq<Neighbor>)
    ensures Cost(a + b) == Cost(a) + Cost(b)
    decreases |b|
  {
    if b == [] {
      assert a + b == a;
    } else {
      var b' := b[..|b| - 1];
      assert (a + b)[..|a + b| - 1] == a + b';
      CostAppend(a, b');
    }
  }

  /** Cutting a walk in two splits its cost. */
  lemma CostSplit(w: seq<Neighbor>, j: nat)
    requires j <= |w|
    ensures Cost(w[..j]) + Cost(w[j..]) == Cost(w)
  {
    var a, b := w[..j], w[j..];
    assert a + b == w;
    CostAppend(a, b);
  }

  lemma CostSnoc(w: seq<Neighbor>, e: Neighbor)
    ensures Cost(w + [e]) == Cost(w) + e.cost
  {
    assert (w + [e])[..|w|] == w;
  }

  lemma {:induction false} CostNonNeg(w: seq<Neighbor>)
    requires NonNegCosts(w)
    ensures Cost(w) >= 0.0
    decreases |w|
  {
    if w != [] {
      CostNonNeg(w[..|w| - 1]);
    }
  }

  /** With non-negative costs, a prefix never costs more than the whole walk. */
  lemma {:induction false} PrefixCostLe(w: seq<Neighbor>, i: nat)
    requires NonNegCosts(w) && i <= |w|
    ensures Cost(w[..i]) <= Cost(w)
    decreases |w| - i
  {
    if i < |w| {
      PrefixCostLe(w, i + 1);
      assert w[..i + 1][..i] == w[..i];
    } else {
      assert w[..i] == w;
    }
  }

  lemma NodeAtSnoc(from: Handle, w: seq<Neighbor>, e: Neighbor, i: nat)
    requires i <= |w|
    ensures NodeAt(from, w + [e], i) == NodeAt(from, w, i)
  {
  }

  lemma NodeAtPrefix(from: Handle, w: seq<Neighbor>, k: nat, i: nat)
    requires i <= k <= |w|
    ensures NodeAt(from, w[..k], i) == NodeAt(from, w, i)
  {
  }

  /** A walk extended by an edge leaving its end is a walk. */
  lemma WalkSnoc(adj: Adjacency, from: Handle, w: seq<Neighbor>, e: Neighbor)
    requires IsWalk(adj, from, w) && EdgeFrom(adj, End(from, w), e)
    ensures IsWalk(adj, from, w + [e]) && End(from, w + [e]) == e.node
  {
    forall i | 0 <= i < |w| + 1 ensures EdgeFrom(adj, NodeAt(from, w + [e], i), (w + [e])[i]) {
      NodeAtSnoc(from, w, e, i);
    }
  }

  /** A node appended to a simple walk that did not visit it keeps the walk simple. */
  lemma SimpleSnoc(from: Handle, w: seq<Neighbor>, e: Neighbor)
    requires Simple(from, w)
    requires forall i :: 0 <= i <= |w| ==> NodeAt(from, w, i) != e.node
    ensures Simple(from, w + [e])
  {
    forall i, j | 0 <= i < j <= |w| + 1
      ensures NodeAt(from, w + [e], i) != NodeAt(from, w + [e], j)
    {
      NodeAtSnoc(from, w, e, i);
      if j <= |w| {
        NodeAtSnoc(from, w, e, j);
      }
    }
  }

  lemma WalkPrefix(adj: Adjacency, from: Handle, w: seq<Neighbor>, k: nat)
    requires IsWalk(adj, from, w) && k <= |w|
    ensures IsWalk(adj, from, w[..k]) && End(from, w[..k]) == NodeAt(from, w, k)
  {
    forall i | 0 <= i < k ensures EdgeFrom(adj, NodeAt(from, w[..k], i), w[..k][i]) {
      NodeAtPrefix(from, w, k, i);
    }
  }
}
