/**
 * The navigation grid the search reads: nodes with planar coordinates and a level,
 * and a directed adjacency list whose edges carry a traversal cost.  Nodes are
 * referred to by handles; equality of handles stands for object identity, under the
 * model's assumption that `AStarNode` does not override equality.
 */
module Graph {

  /** A grid node: planar coordinates plus the level that tells apart stacked nodes. */
  datatype AStarNode = AStarNode(x: real, y: real, level: int)

  /** A query point or a waypoint of the result. */
  datatype Point = Point(x: real, y: real)

  /**
   * A node identity.  Grid nodes are identified by their position in the grid's
   * enumeration order; the two sentinels are the two distinct placeholder nodes that
   * nearest-node snapping creates before it looks at the grid.
   */
  datatype Handle = GridNode(index: nat) | StartSentinel | GoalSentinel

  /** An outgoing edge: the neighbour reached and the cost of getting there. */
  datatype Neighbor = Neighbor(node: Handle, cost: real)

  type Adjacency = map<Handle, seq<Neighbor>>

  datatype Grid = Grid(nodes: seq<AStarNode>, nodeNeighbors: Adjacency)

  /** The coordinates and level the sentinels are created with. */
  const SentinelNode := AStarNode(0.0, 0.0, 1)

  predicate ValidHandle(grid: Grid, h: Handle)
  {
    h.GridNode? ==> h.index < |grid.nodes|
  }

  predicate IsGridNode(grid: Grid, h: Handle)
  {
    h.GridNode? && h.index < |grid.nodes|
  }

  /**
   * The grid as the search expects it: adjacency lists belong to grid nodes and lead to
   * grid nodes, and no edge has a negative cost.
   */
  predicate WellFormed(grid: Grid)
  {
    forall u :: u in grid.nodeNeighbors ==>
      IsGridNode(grid, u) &&
      forall j :: 0 <= j < |grid.nodeNeighbors[u]| ==>
        IsGridNode(grid, grid.nodeNeighbors[u][j].node) && grid.nodeNeighbors[u][j].cost >= 0.0
  }

  /** The node a handle stands for. */
  function NodeOf(grid: Grid, h: Handle): AStarNode
    requires ValidHandle(grid, h)
  {
    match h
    case GridNode(i) => grid.nodes[i]
    case StartSentinel => SentinelNode
    case GoalSentinel => SentinelNode
  }

  /** The planar position of a node, as the path getter reports it. */
  function Coords(grid: Grid, h: Handle): Point
    requires ValidHandle(grid, h)
  {
    Point(NodeOf(grid, h).x, NodeOf(grid, h).y)
  }

  /** Squared Euclidean distance between a query point and a node. */
  function SqDist(p: Point, n: AStarNode): real
  {
    (p.x - n.x) * (p.x - n.x) + (p.y - n.y) * (p.y - n.y)
  }

  predicate EdgeFrom(adj: Adjacency, u: Handle, e: Neighbor)
  {
    u in adj && e in adj[u]
  }

  lemma EdgeOfWellFormed(grid: Grid, u: Handle, e: Neighbor)
    requires WellFormed(grid) && EdgeFrom(grid.nodeNeighbors, u, e)
    ensures IsGridNode(grid, u) && IsGridNode(grid, e.node) && e.cost >= 0.0
  {
    var j :| 0 <= j < |grid.nodeNeighbors[u]| && grid.nodeNeighbors[u][j] == e;
  }
}
