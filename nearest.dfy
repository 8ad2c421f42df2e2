/**
 * Nearest-node snapping: the start and goal query points are each resolved to the grid
 * node closest to them by squared distance, in one pass over the grid's nodes.
 */
module Nearest {
  import opened Graph

  /** Only a node strictly closer than this squared distance replaces the sentinel. */
  const Threshold: real := 9999.0

  /** No node of `nodes` is strictly closer to p than the threshold. */
  ghost predicate NoneNear(nodes: seq<AStarNode>, p: Point)
  {
    forall j :: 0 <= j < |nodes| ==> SqDist(p, nodes[j]) >= Threshold
  }

  /**
   * Node i is the first node of least squared distance to p, and it beats the threshold:
   * every earlier node is strictly farther and no later node is closer.
   */
  ghost predicate FirstNearest(nodes: seq<AStarNode>, p: Point, i: nat)
  {
    && i < |nodes|
    && SqDist(p, nodes[i]) < Threshold
    && (forall j :: 0 <= j < i ==> SqDist(p, nodes[j]) > SqDist(p, nodes[i]))
    && (forall j :: i < j < |nodes| ==> SqDist(p, nodes[j]) >= SqDist(p, nodes[i]))
  }

  /** What snapping p against `nodes` yields, with `sentinel` for "no node near enough". */
  ghost predicate Snapped(nodes: seq<AStarNode>, p: Point, sentinel: Handle, h: Handle)
  {
    if NoneNear(nodes, p) then h == sentinel
    else h.GridNode? && FirstNearest(nodes, p, h.index)
  }

  /** The best squared distance seen so far, or the threshold while nothing beat it. */
  function Best(grid: Grid, p: Point, h: Handle): real
    requires ValidHandle(grid, h)
  {
    if h.GridNode? then SqDist(p, grid.nodes[h.index]) else Threshold
  }

  /**
   * One pass over the grid's nodes in enumeration order, comparing strictly against the
   * best distance so far, independently for the start point s and the goal point g.
   */
  method FindNearestNodes(grid: Grid, s: Point, g: Point) returns (startNode: Handle, goalNode: Handle)
    ensures Snapped(grid.nodes, s, StartSentinel, startNode)
    ensures Snapped(grid.nodes, g, GoalSentinel, goalNode)
    ensures ValidHandle(grid, startNode) && ValidHandle(grid, goalNode)
  {
    var nearestS, nearestG := Threshold, Threshold;
    startNode, goalNode := StartSentinel, GoalSentinel;
    var i := 0;
    while i < |grid.nodes|
      invariant 0 <= i <= |grid.nodes|
      invariant ValidHandle(grid, startNode) && ValidHandle(grid, goalNode)
      invariant nearestS == Best(grid, s, startNode) && nearestG == Best(grid, g, goalNode)
      invariant Snapped(grid.nodes[..i], s, StartSentinel, startNode)
      invariant Snapped(grid.nodes[..i], g, GoalSentinel, goalNode)
    {
      var an := grid.nodes[i];
      var sMag := SqDist(s, an);
      var gMag := SqDist(g, an);
      var next := i + 1;
      SnapStep(grid, s, StartSentinel, startNode, i, next);
      SnapStep(grid, g, GoalSentinel, goalNode, i, next);
      if sMag < nearestS {
        startNode := GridNode(i);
        nearestS := sMag;
      }
      if gMag < nearestG {
        goalNode := GridNode(i);
        nearestG := gMag;
      }
      i := next;
    }
    assert grid.nodes[..i] == grid.nodes;
  }

  /** Looking at one more node keeps the best candidate, or replaces it by that node if it is strictly closer. */
  lemma SnapStep(grid: Grid, p: Point, sentinel: Handle, h: Handle, i: nat, i': nat)
    requires i < |grid.nodes| && i' == i + 1 && !sentinel.GridNode? && ValidHandle(grid, h)
    requires Snapped(grid.nodes[..i], p, sentinel, h)
    ensures Snapped(grid.nodes[..i'], p, sentinel, if SqDist(p, grid.nodes[i]) < Best(grid, p, h) then GridNode(i) else h)
  {
    var pre, post := grid.nodes[..i], grid.nodes[..i'];
    assert post == pre + [grid.nodes[i]];
    assert forall j :: 0 <= j < i ==> post[j] == pre[j];
  }

  /** Snapping is a function of the grid and the point: running it twice gives the same node. */
  lemma SnappedUnique(nodes: seq<AStarNode>, p: Point, sentinel: Handle, a: Handle, b: Handle)
    requires Snapped(nodes, p, sentinel, a) && Snapped(nodes, p, sentinel, b)
    ensures a == b
  {
  }

  /** On an empty grid both query points resolve to their sentinels. */
  lemma EmptyGridSnapsToSentinels(grid: Grid, s: Point, g: Point, a: Handle, b: Handle)
    requires grid.nodes == []
    requires Snapped(grid.nodes, s, StartSentinel, a) && Snapped(grid.nodes, g, GoalSentinel, b)
    ensures a == StartSentinel && b == GoalSentinel && a != b
  {
  }
}
