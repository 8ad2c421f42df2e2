/**
 * What the expansion loop of the A* search keeps true of its two maps, `cameFrom` and
 * `costSoFar`, and of its frontier, and the consequences: every recorded cost is the cost
 * of a real walk, every predecessor is joined to its successor by an edge, the loop
 * terminates, a goal taken off the frontier has an optimal cost, and an exhausted
 * frontier means the goal is unreachable.
 *
 * Besides the two maps the proofs keep ghost bookkeeping: for every recorded node a
 * simple walk whose cost is the recorded cost (`paths`), and the time of its last
 * update (`stamp`, below `clock`).
 */
module Labels {
  import opened Graph
  import opened Walks
  import opened Finite
  import opened Frontier

  /** The condition under which a neighbour's record is rewritten. */
  predicate Improves(g: map<Handle, real>, n: Handle, newCost: real)
  {
    n !in g || newCost < g[n]
  }

  /** a comes strictly before b in the order (recorded cost, time of last update). */
  ghost predicate Lower(g: map<Handle, real>, stamp: map<Handle, nat>, a: Handle, b: Handle)
  {
    a in g && b in g && a in stamp && b in stamp &&
    (g[a] < g[b] || (g[a] == g[b] && stamp[a] < stamp[b]))
  }

  /** Following `cameFrom` from any node other than the start goes strictly down in `Lower`. */
  ghost predicate ChainOrdered(start: Handle, cf: map<Handle, Handle>, g: map<Handle, real>, stamp: map<Handle, nat>)
  {
    && cf.Keys == g.Keys && stamp.Keys == g.Keys
    && start in cf && cf[start] == start
    && (forall n {:trigger cf[n]} :: n in cf && n != start ==> cf[n] in cf && Lower(g, stamp, cf[n], n))
  }

  /**
   * w is a simple walk from the start to n costing exactly g[n], and no node on it has a
   * recorded cost above the cost of the prefix that reaches it.
   */
  ghost predicate PathInv(adj: Adjacency, start: Handle, g: map<Handle, real>, n: Handle, w: seq<Neighbor>)
  {
    && IsWalk(adj, start, w) && Simple(start, w) && End(start, w) == n
    && n in g && Cost(w) == g[n]
    && (forall i {:trigger NodeAt(start, w, i)} :: 0 <= i <= |w| ==> NodeAt(start, w, i) in g && g[NodeAt(start, w, i)] <= Cost(w[..i]))
  }

  /**
   * The predecessor of n is the node its walk passes just before n, and n's recorded cost
   * is at least the predecessor's plus the cost of that last edge.
   */
  ghost predicate PredInv(start: Handle, cf: map<Handle, Handle>, g: map<Handle, real>,
                          paths: map<Handle, seq<Neighbor>>, n: Handle)
  {
    && n in cf && n in g && n in paths && cf[n] in g
    && |paths[n]| > 0
    && cf[n] == NodeAt(start, paths[n], |paths[n]| - 1)
    && g[n] >= g[cf[n]] + paths[n][|paths[n]| - 1].cost
  }

  /** The invariant of the two maps throughout the search. */
  ghost predicate LabelsInv(grid: Grid, start: Handle, cf: map<Handle, Handle>, g: map<Handle, real>,
                            paths: map<Handle, seq<Neighbor>>, stamp: map<Handle, nat>, clock: nat)
  {
    && ChainOrdered(start, cf, g, stamp)
    && paths.Keys == g.Keys
    && ValidHandle(grid, start) && g[start] == 0.0 && paths[start] == []
    && (forall n :: n in g ==> ValidHandle(grid, n) && g[n] >= 0.0 && stamp[n] < clock)
    && (forall n {:trigger PathInv(grid.nodeNeighbors, start, g, n, paths[n])} :: n in g ==> PathInv(grid.nodeNeighbors, start, g, n, paths[n]))
    && (forall n {:trigger PredInv(start, cf, g, paths, n)} :: n in g && n != start ==> PredInv(start, cf, g, paths, n))
  }

  /** The state right after seeding: only the start is recorded, as its own predecessor, at cost 0. */
  lemma SeedEstablishes(grid: Grid, start: Handle)
    requires ValidHandle(grid, start)
    ensures LabelsInv(grid, start, map[start := start], map[start := 0.0], map[start := []], map[start := 0], 1)
  {
    var w: seq<Neighbor> := [];
    assert w[..0] == w;
    assert PathInv(grid.nodeNeighbors, start, map[start := 0.0], start, w);
  }

  // ---------------------------------------------------------------------------
  // Relaxing one edge
  // ---------------------------------------------------------------------------

  /** The walk recorded for the neighbour when an edge out of `cur` improves it. */
  lemma RelaxedPath(grid: Grid, start: Handle, cf: map<Handle, Handle>, g: map<Handle, real>,
                    paths: map<Handle, seq<Neighbor>>, stamp: map<Handle, nat>, clock: nat,
                    cur: Handle, e: Neighbor)
    requires WellFormed(grid) && LabelsInv(grid, start, cf, g, paths, stamp, clock)
    requires cur in g && EdgeFrom(grid.nodeNeighbors, cur, e) && Improves(g, e.node, g[cur] + e.cost)
    ensures e.node != start && e.node != cur && IsGridNode(grid, e.node)
    ensures forall i :: 0 <= i <= |paths[cur]| ==> NodeAt(start, paths[cur], i) != e.node
    ensures PathInv(grid.nodeNeighbors, start, g[e.node := g[cur] + e.cost], e.node, paths[cur] + [e])
  {
    var adj := grid.nodeNeighbors;
    var nb, nc := e.node, g[cur] + e.cost;
    var w := paths[cur];
    var w' := w + [e];
    var g' := g[nb := nc];
    EdgeOfWellFormed(grid, cur, e);
    assert PathInv(adj, start, g, cur, w);
    WalkCostsNonNeg(grid, start, w);
    forall i | 0 <= i <= |w| ensures NodeAt(start, w, i) != nb {
      if NodeAt(start, w, i) == nb {
        PrefixCostLe(w, i);
      }
    }
    WalkSnoc(adj, start, w, e);
    SimpleSnoc(start, w, e);
    CostSnoc(w, e);
    forall i | 0 <= i <= |w'| ensures NodeAt(start, w', i) in g' && g'[NodeAt(start, w', i)] <= Cost(w'[..i]) {
      if i <= |w| {
        NodeAtSnoc(start, w, e, i);
        assert w'[..i] == w[..i];
      } else {
        assert w'[..i] == w';
      }
    }
  }

  /** The other recorded nodes keep their walks, which stay valid because costs only went down. */
  lemma RelaxOtherPaths(adj: Adjacency, start: Handle, g: map<Handle, real>, paths: map<Handle, seq<Neighbor>>,
                        nb: Handle, nc: real)
    requires paths.Keys == g.Keys
    requires forall n {:trigger PathInv(adj, start, g, n, paths[n])} :: n in g ==> PathInv(adj, start, g, n, paths[n])
    requires Improves(g, nb, nc)
    ensures forall n {:trigger PathInv(adj, start, g[nb := nc], n, paths[n])} :: n in g && n != nb ==> PathInv(adj, start, g[nb := nc], n, paths[n])
  {
    var g' := g[nb := nc];
    forall n | n in g && n != nb ensures PathInv(adj, start, g', n, paths[n]) {
      var w := paths[n];
      assert PathInv(adj, start, g, n, w);
      forall i | 0 <= i <= |w| ensures NodeAt(start, w, i) in g' && g'[NodeAt(start, w, i)] <= Cost(w[..i]) {
      }
    }
  }

  /** The predecessors of the other nodes stay valid, and the order along `cameFrom` is kept. */
  lemma RelaxOtherPreds(start: Handle, cf: map<Handle, Handle>, g: map<Handle, real>,
                        paths: map<Handle, seq<Neighbor>>, stamp: map<Handle, nat>, clock: nat,
                        nb: Handle, nc: real)
    requires ChainOrdered(start, cf, g, stamp) && paths.Keys == g.Keys
    requires forall n {:trigger PredInv(start, cf, g, paths, n)} :: n in g && n != start ==> PredInv(start, cf, g, paths, n)
    requires forall n :: n in stamp ==> stamp[n] < clock
    requires Improves(g, nb, nc) && nb != start
    ensures forall n :: n in g && n != start && n != nb ==> PredInv(start, cf, g[nb := nc], paths, n)
    ensures forall n :: n in cf && n != start && n != nb ==> Lower(g[nb := nc], stamp[nb := clock], cf[n], n)
  {
    var g', stamp' := g[nb := nc], stamp[nb := clock];
    forall n | n in g && n != start && n != nb ensures PredInv(start, cf, g', paths, n) {
      assert PredInv(start, cf, g, paths, n);
    }
    forall n | n in cf && n != start && n != nb ensures Lower(g', stamp', cf[n], n) {
      assert Lower(g, stamp, cf[n], n);
    }
  }

  lemma AssembleLabels(grid: Grid, start: Handle, cf: map<Handle, Handle>, g: map<Handle, real>,
                       paths: map<Handle, seq<Neighbor>>, stamp: map<Handle, nat>, clock: nat)
    requires ChainOrdered(start, cf, g, stamp)
    requires paths.Keys == g.Keys
    requires ValidHandle(grid, start) && g[start] == 0.0 && paths[start] == []
    requires forall n :: n in g ==> ValidHandle(grid, n) && g[n] >= 0.0 && stamp[n] < clock
    requires forall n {:trigger PathInv(grid.nodeNeighbors, start, g, n, paths[n])} :: n in g ==> PathInv(grid.nodeNeighbors, start, g, n, paths[n])
    requires forall n {:trigger PredInv(start, cf, g, paths, n)} :: n in g && n != start ==> PredInv(start, cf, g, paths, n)
    ensures LabelsInv(grid, start, cf, g, paths, stamp, clock)
  {
  }

  /** Relaxing an improving edge keeps the invariant of the maps. */
  lemma RelaxLabels(grid: Grid, start: Handle, cf: map<Handle, Handle>, g: map<Handle, real>,
                    paths: map<Handle, seq<Neighbor>>, stamp: map<Handle, nat>, clock: nat,
                    cur: Handle, e: Neighbor, clock': nat)
    requires WellFormed(grid) && LabelsInv(grid, start, cf, g, paths, stamp, clock)
    requires cur in g && EdgeFrom(grid.nodeNeighbors, cur, e) && Improves(g, e.node, g[cur] + e.cost)
    requires clock' == clock + 1
    ensures e.node != start && e.node != cur
    ensures LabelsInv(grid, start, cf[e.node := cur], g[e.node := g[cur] + e.cost],
                      paths[e.node := paths[cur] + [e]], stamp[e.node := clock], clock')
  {
    RelaxedPath(grid, start, cf, g, paths, stamp, clock, cur, e);
    RelaxAllPaths(grid.nodeNeighbors, start, g, paths, e.node, g[cur] + e.cost, paths[cur] + [e]);
    assert PathInv(grid.nodeNeighbors, start, g, cur, paths[cur]);
    NodeAtSnoc(start, paths[cur], e, |paths[cur]|);
    RelaxAllPreds(start, cf, g, paths, stamp, clock, cur, e);
    RelaxOrdered(start, cf, g, paths, stamp, clock, cur, e);
    RelaxBounds(grid, start, g, stamp, clock, cur, e);
    AssembleLabels(grid, start, cf[e.node := cur], g[e.node := g[cur] + e.cost],
                   paths[e.node := paths[cur] + [e]], stamp[e.node := clock], clock');
  }

  /** After an improving relaxation every recorded node, old or new, keeps a valid walk. */
  lemma RelaxAllPaths(adj: Adjacency, start: Handle, g: map<Handle, real>, paths: map<Handle, seq<Neighbor>>,
                      nb: Handle, nc: real, w: seq<Neighbor>)
    requires paths.Keys == g.Keys
    requires forall n {:trigger PathInv(adj, start, g, n, paths[n])} :: n in g ==> PathInv(adj, start, g, n, paths[n])
    requires Improves(g, nb, nc) && PathInv(adj, start, g[nb := nc], nb, w)
    ensures forall n {:trigger PathInv(adj, start, g[nb := nc], n, paths[nb := w][n])} :: n in g[nb := nc] ==> PathInv(adj, start, g[nb := nc], n, paths[nb := w][n])
  {
    var g', paths' := g[nb := nc], paths[nb := w];
    RelaxOtherPaths(adj, start, g, paths, nb, nc);
    forall n | n in g' ensures PathInv(adj, start, g', n, paths'[n]) {
      if n != nb {
        assert paths'[n] == paths[n];
      }
    }
  }

  /** After an improving relaxation every recorded node other than the start keeps a valid predecessor. */
  lemma RelaxAllPreds(start: Handle, cf: map<Handle, Handle>, g: map<Handle, real>,
                      paths: map<Handle, seq<Neighbor>>, stamp: map<Handle, nat>, clock: nat,
                      cur: Handle, e: Neighbor)
    requires ChainOrdered(start, cf, g, stamp) && paths.Keys == g.Keys
    requires forall n {:trigger PredInv(start, cf, g, paths, n)} :: n in g && n != start ==> PredInv(start, cf, g, paths, n)
    requires forall n :: n in stamp ==> stamp[n] < clock
    requires cur in g && cur in paths && e.node != start && e.node != cur && Improves(g, e.node, g[cur] + e.cost)
    requires NodeAt(start, paths[cur] + [e], |paths[cur]|) == cur
    ensures var cf', g', paths' := cf[e.node := cur], g[e.node := g[cur] + e.cost], paths[e.node := paths[cur] + [e]];
      forall n {:trigger PredInv(start, cf', g', paths', n)} :: n in g' && n != start ==> PredInv(start, cf', g', paths', n)
  {
    var cf', g', paths' := cf[e.node := cur], g[e.node := g[cur] + e.cost], paths[e.node := paths[cur] + [e]];
    RelaxOtherPreds(start, cf, g, paths, stamp, clock, e.node, g[cur] + e.cost);
    forall n | n in g' && n != start ensures PredInv(start, cf', g', paths', n) {
      if n != e.node {
        assert cf'[n] == cf[n] && paths'[n] == paths[n];
        assert PredInv(start, cf, g', paths, n);
      } else {
        var w := paths[cur] + [e];
        assert paths'[n] == w && cf'[n] == cur && g'[cur] == g[cur];
        assert w[|w| - 1] == e;
      }
    }
  }

  /** Following `cameFrom` still goes down after an improving relaxation: the new predecessor ranks below the neighbour. */
  lemma RelaxOrdered(start: Handle, cf: map<Handle, Handle>, g: map<Handle, real>,
                     paths: map<Handle, seq<Neighbor>>, stamp: map<Handle, nat>, clock: nat,
                     cur: Handle, e: Neighbor)
    requires ChainOrdered(start, cf, g, stamp) && paths.Keys == g.Keys
    requires forall n {:trigger PredInv(start, cf, g, paths, n)} :: n in g && n != start ==> PredInv(start, cf, g, paths, n)
    requires forall n :: n in stamp ==> stamp[n] < clock
    requires cur in g && e.node != start && e.node != cur && Improves(g, e.node, g[cur] + e.cost) && e.cost >= 0.0
    ensures ChainOrdered(start, cf[e.node := cur], g[e.node := g[cur] + e.cost], stamp[e.node := clock])
  {
    var cf', g', stamp' := cf[e.node := cur], g[e.node := g[cur] + e.cost], stamp[e.node := clock];
    RelaxOtherPreds(start, cf, g, paths, stamp, clock, e.node, g[cur] + e.cost);
    forall n | n in cf' && n != start ensures cf'[n] in cf' && Lower(g', stamp', cf'[n], n) {
      if n != e.node {
        assert cf'[n] == cf[n];
      }
    }
  }

  /** The neighbour's new record is a grid node with a non-negative cost and the latest time. */
  lemma RelaxBounds(grid: Grid, start: Handle, g: map<Handle, real>, stamp: map<Handle, nat>, clock: nat,
                    cur: Handle, e: Neighbor)
    requires WellFormed(grid) && cur in g && EdgeFrom(grid.nodeNeighbors, cur, e) && stamp.Keys == g.Keys
    requires forall n :: n in g ==> ValidHandle(grid, n) && g[n] >= 0.0 && stamp[n] < clock
    ensures var g', stamp' := g[e.node := g[cur] + e.cost], stamp[e.node := clock];
      forall n :: n in g' ==> ValidHandle(grid, n) && g'[n] >= 0.0 && stamp'[n] < clock + 1
  {
    EdgeOfWellFormed(grid, cur, e);
  }

  // ---------------------------------------------------------------------------
  // Termination
  // ---------------------------------------------------------------------------

  /** A walk leads to a node that is unrecorded or recorded at a higher cost than the walk's. */
  ghost predicate Unsettled(g: map<Handle, real>, start: Handle, w: seq<Neighbor>)
  {
    End(start, w) !in g || Cost(w) < g[End(start, w)]
  }

  /**
   * The simple walks from the start that could still improve a record.  Every rewrite of a
   * record removes at least the walk just recorded, and nothing is ever added.
   */
  ghost function Remaining(adj: Adjacency, start: Handle, g: map<Handle, real>): set<seq<Neighbor>>
  {
    set w | w in Candidates(adj, start) && IsWalk(adj, start, w) && Simple(start, w) && Unsettled(g, start, w)
  }

  /** How many simple walks are still unsettled; every improving relaxation lowers it. */
  ghost function Unexplored(adj: Adjacency, start: Handle, g: map<Handle, real>): nat
  {
    |Remaining(adj, start, g)|
  }

  lemma RelaxShrinks(grid: Grid, start: Handle, cf: map<Handle, Handle>, g: map<Handle, real>,
                     paths: map<Handle, seq<Neighbor>>, stamp: map<Handle, nat>, clock: nat,
                     cur: Handle, e: Neighbor)
    requires WellFormed(grid) && LabelsInv(grid, start, cf, g, paths, stamp, clock)
    requires cur in g && EdgeFrom(grid.nodeNeighbors, cur, e) && Improves(g, e.node, g[cur] + e.cost)
    ensures Unexplored(grid.nodeNeighbors, start, g[e.node := g[cur] + e.cost]) < Unexplored(grid.nodeNeighbors, start, g)
  {
    var adj := grid.nodeNeighbors;
    var g' := g[e.node := g[cur] + e.cost];
    var w := paths[cur] + [e];
    RelaxedPath(grid, start, cf, g, paths, stamp, clock, cur, e);
    SimpleWalkIsCandidate(adj, start, w);
    assert w in Remaining(adj, start, g);
    assert w !in Remaining(adj, start, g');
    forall v | v in Remaining(adj, start, g') ensures v in Remaining(adj, start, g) {
    }
    ProperSubsetCard(Remaining(adj, start, g'), Remaining(adj, start, g));
  }

  // ---------------------------------------------------------------------------
  // The frontier and the closed nodes
  // ---------------------------------------------------------------------------

  /** The priority a node is queued with: 0 for the seed, cost plus heuristic otherwise. */
  ghost function Key(g: map<Handle, real>, start: Handle, goal: Handle, h: (Handle, Handle) -> real, v: Handle): real
    requires v in g
  {
    if v == start then 0.0 else g[v] + h(v, goal)
  }

  /**
   * Every queued node is recorded and queued no lower than its key; every open node (one
   * whose current record has not been expanded) is queued exactly at its key.
   */
  ghost predicate FrontierInv(frontier: seq<Entry>, g: map<Handle, real>, open: set<Handle>,
                              start: Handle, goal: Handle, h: (Handle, Handle) -> real)
  {
    && (forall k :: 0 <= k < |frontier| ==>
          frontier[k].node in g && frontier[k].priority >= Key(g, start, goal, h, frontier[k].node))
    && (forall v :: v in open ==> v in g && Entry(v, Key(g, start, goal, h, v)) in frontier)
  }

  /** Every edge out of v leads to a recorded node no dearer than through v. */
  ghost predicate Relaxed(adj: Adjacency, g: map<Handle, real>, v: Handle)
    requires v in adj && v in g
  {
    forall e :: e in adj[v] ==> e.node in g && g[e.node] <= g[v] + e.cost
  }

  /** Every recorded node that is not open has been expanded at its current cost. */
  ghost predicate ClosedInv(adj: Adjacency, g: map<Handle, real>, open: set<Handle>)
  {
    forall v :: v in g && v !in open ==> v in adj && Relaxed(adj, g, v)
  }

  /** The goal is never expanded: once recorded, it is open. */
  ghost predicate GoalOpen(g: map<Handle, real>, open: set<Handle>, goal: Handle)
  {
    goal in g ==> goal in open
  }

  /** The state right after seeding the frontier with the start at priority 0. */
  lemma SeedFrontier(start: Handle, goal: Handle, h: (Handle, Handle) -> real, adj: Adjacency)
    ensures FrontierInv([Entry(start, 0.0)], map[start := 0.0], {start}, start, goal, h)
    ensures ClosedInv(adj, map[start := 0.0], {start})
  {
  }

  /** Dequeueing entry k: the other open nodes are still queued at their keys. */
  lemma PopKeeps(frontier: seq<Entry>, k: nat, g: map<Handle, real>, open: set<Handle>,
                 start: Handle, goal: Handle, h: (Handle, Handle) -> real)
    requires k < |frontier| && FrontierInv(frontier, g, open, start, goal, h)
    ensures FrontierInv(RemoveAt(frontier, k), g, open - {frontier[k].node}, start, goal, h)
  {
    var r := RemoveAt(frontier, k);
    forall v | v in open - {frontier[k].node} ensures Entry(v, Key(g, start, goal, h, v)) in r {
      RemoveAtKeeps(frontier, k, Entry(v, Key(g, start, goal, h, v)));
    }
  }

  /** Relaxing an improving edge and queueing its neighbour at cost plus heuristic keeps the frontier invariant. */
  lemma RelaxFrontier(frontier: seq<Entry>, g: map<Handle, real>, open: set<Handle>,
                      start: Handle, goal: Handle, h: (Handle, Handle) -> real, cur: Handle, e: Neighbor)
    requires FrontierInv(frontier, g, open, start, goal, h)
    requires cur in g && e.node != start && Improves(g, e.node, g[cur] + e.cost)
    ensures FrontierInv(frontier + [Entry(e.node, g[cur] + e.cost + h(e.node, goal))],
                        g[e.node := g[cur] + e.cost], open + {e.node}, start, goal, h)
  {
    var n := e.node;
    var g' := g[n := g[cur] + e.cost];
    var f' := frontier + [Entry(n, g[cur] + e.cost + h(n, goal))];
    forall v | v in open + {n} ensures v in g' && Entry(v, Key(g', start, goal, h, v)) in f' {
      if v != n {
        assert Entry(v, Key(g, start, goal, h, v)) in frontier;
      } else {
        assert f'[|frontier|] == Entry(n, Key(g', start, goal, h, n));
      }
    }
    forall k | 0 <= k < |f'| ensures f'[k].node in g' && f'[k].priority >= Key(g', start, goal, h, f'[k].node) {
      if k < |frontier| {
        assert f'[k] == frontier[k];
      }
    }
  }

  /** Relaxing an improving edge opens its neighbour and leaves the other closed nodes relaxed. */
  lemma RelaxClosed(adj: Adjacency, g: map<Handle, real>, open: set<Handle>, cur: Handle, e: Neighbor)
    requires ClosedInv(adj, g, open) && cur in g && Improves(g, e.node, g[cur] + e.cost)
    ensures ClosedInv(adj, g[e.node := g[cur] + e.cost], open + {e.node})
  {
    var g' := g[e.node := g[cur] + e.cost];
    forall v | v in g' && v !in open + {e.node} ensures v in adj && Relaxed(adj, g', v) {
      assert Relaxed(adj, g, v);
    }
  }

  // ---------------------------------------------------------------------------
  // Optimality and completeness
  // ---------------------------------------------------------------------------

  /** The heuristic never drops by more than the cost of an edge. */
  ghost predicate Consistent(adj: Adjacency, h: (Handle, Handle) -> real, goal: Handle)
  {
    forall u, e :: EdgeFrom(adj, u, e) ==> h(u, goal) <= e.cost + h(e.node, goal)
  }

  ghost predicate NonNegHeuristic(h: (Handle, Handle) -> real, goal: Handle)
  {
    forall v :: h(v, goal) >= 0.0
  }

  /** Along a walk, a consistent heuristic underestimates the rest of the walk plus its value at the end. */
  lemma {:induction false} HeuristicAlongWalk(adj: Adjacency, h: (Handle, Handle) -> real, goal: Handle,
                                              start: Handle, w: seq<Neighbor>, j: nat)
    requires Consistent(adj, h, goal) && IsWalk(adj, start, w) && j <= |w|
    ensures h(NodeAt(start, w, j), goal) <= Cost(w[j..]) + h(End(start, w), goal)
    decreases |w| - j
  {
    if j < |w| {
      HeuristicAlongWalk(adj, h, goal, start, w, j + 1);
      assert w[j..] == [w[j]] + w[j + 1..];
      CostAppend([w[j]], w[j + 1..]);
      assert [w[j]][..0] == [];
      assert EdgeFrom(adj, NodeAt(start, w, j), w[j]);
    } else {
      assert w[j..] == [];
    }
  }

  /**
   * Walking along any walk to the goal from a node whose record is no dearer than the walk so far,
   * one meets an open node whose record is no dearer than the walk up to it.
   */
  lemma {:induction false} WalkMeetsOpen(adj: Adjacency, start: Handle, goal: Handle, g: map<Handle, real>,
                                         open: set<Handle>, w: seq<Neighbor>, i: nat) returns (j: nat)
    requires ClosedInv(adj, g, open) && GoalOpen(g, open, goal)
    requires IsWalk(adj, start, w) && End(start, w) == goal
    requires i <= |w| && NodeAt(start, w, i) in g && g[NodeAt(start, w, i)] <= Cost(w[..i])
    ensures i <= j <= |w| && NodeAt(start, w, j) in open && NodeAt(start, w, j) in g
    ensures g[NodeAt(start, w, j)] <= Cost(w[..j])
    decreases |w| - i
  {
    var x := NodeAt(start, w, i);
    if x in open || i == |w| {
      j := i;
    } else {
      assert EdgeFrom(adj, x, w[i]);
      assert Relaxed(adj, g, x);
      CostSnoc(w[..i], w[i]);
      assert w[..i + 1] == w[..i] + [w[i]];
      j := WalkMeetsOpen(adj, start, goal, g, open, w, i + 1);
    }
  }

  /** One walk to the goal costs no less than the goal's record when the goal is the least entry. */
  lemma GoalBelowWalk(grid: Grid, start: Handle, goal: Handle, h: (Handle, Handle) -> real,
                      g: map<Handle, real>, frontier: seq<Entry>, open: set<Handle>, k: nat, w: seq<Neighbor>)
    requires WellFormed(grid) && start in g && g[start] == 0.0
    requires FrontierInv(frontier, g, open, start, goal, h)
    requires ClosedInv(grid.nodeNeighbors, g, open) && GoalOpen(g, open, goal)
    requires k < |frontier| && IsMinAt(frontier, k) && frontier[k].node == goal
    requires Consistent(grid.nodeNeighbors, h, goal) && NonNegHeuristic(h, goal)
    requires IsWalk(grid.nodeNeighbors, start, w) && End(start, w) == goal
    ensures goal in g && g[goal] <= Cost(w)
  {
    WalkCostsNonNeg(grid, start, w);
    CostNonNeg(w);
    if goal != start {
      assert w[..0] == [];
      var j := WalkMeetsOpen(grid.nodeNeighbors, start, goal, g, open, w, 0);
      var v := NodeAt(start, w, j);
      var i :| 0 <= i < |frontier| && frontier[i] == Entry(v, Key(g, start, goal, h, v));
      assert g[goal] + h(goal, goal) <= frontier[k].priority <= frontier[i].priority;
      if v != start {
        HeuristicAlongWalk(grid.nodeNeighbors, h, goal, start, w, j);
        CostSplit(w, j);
        assert frontier[i].priority == g[v] + h(v, goal) <= Cost(w[..j]) + (Cost(w[j..]) + h(goal, goal));
      }
    }
  }

  /**
   * A* optimality: when the goal is dequeued as a least-priority entry, under a consistent,
   * non-negative heuristic its recorded cost is the least cost of any walk to it.
   */
  lemma GoalOptimal(grid: Grid, start: Handle, goal: Handle, h: (Handle, Handle) -> real,
                    g: map<Handle, real>, frontier: seq<Entry>, open: set<Handle>, k: nat)
    requires WellFormed(grid) && start in g && g[start] == 0.0
    requires FrontierInv(frontier, g, open, start, goal, h)
    requires ClosedInv(grid.nodeNeighbors, g, open) && GoalOpen(g, open, goal)
    requires k < |frontier| && IsMinAt(frontier, k) && frontier[k].node == goal
    requires Consistent(grid.nodeNeighbors, h, goal) && NonNegHeuristic(h, goal)
    ensures goal in g && LowerBound(grid.nodeNeighbors, start, goal, g[goal])
  {
    forall w | IsWalk(grid.nodeNeighbors, start, w) && End(start, w) == goal ensures g[goal] <= Cost(w) {
      GoalBelowWalk(grid, start, goal, h, g, frontier, open, k, w);
    }
  }

  /** With no open node left, every walk from the start ends at a recorded node. */
  lemma {:induction false} ClosedReach(adj: Adjacency, start: Handle, g: map<Handle, real>, w: seq<Neighbor>)
    requires ClosedInv(adj, g, {}) && start in g && IsWalk(adj, start, w)
    ensures End(start, w) in g
    decreases |w|
  {
    if w != [] {
      var w' := w[..|w| - 1];
      WalkPrefix(adj, start, w, |w| - 1);
      ClosedReach(adj, start, g, w');
      var x := End(start, w');
      assert EdgeFrom(adj, x, w[|w| - 1]);
      assert Relaxed(adj, g, x);
    }
  }

  /** An exhausted frontier means the goal is unrecorded and unreachable. */
  lemma ExhaustedUnreachable(adj: Adjacency, start: Handle, goal: Handle, g: map<Handle, real>)
    requires ClosedInv(adj, g, {}) && GoalOpen(g, {}, goal) && start in g
    ensures goal !in g && !Reachable(adj, start, goal)
  {
    forall w | IsWalk(adj, start, w) ensures End(start, w) != goal {
      ClosedReach(adj, start, g, w);
    }
  }

  // ---------------------------------------------------------------------------
  // The predecessor chain
  // ---------------------------------------------------------------------------

  /** The recorded nodes below n in the order (cost, time of last update). */
  ghost function Below(g: map<Handle, real>, stamp: map<Handle, nat>, n: Handle): set<Handle>
  {
    set m | m in g && Lower(g, stamp, m, n)
  }

  /** The number of recorded nodes below n; it strictly falls along `cameFrom`. */
  ghost function Rank(g: map<Handle, real>, stamp: map<Handle, nat>, n: Handle): nat
  {
    |Below(g, stamp, n)|
  }

  lemma ChainDescends(start: Handle, cf: map<Handle, Handle>, g: map<Handle, real>, stamp: map<Handle, nat>, n: Handle)
    requires ChainOrdered(start, cf, g, stamp) && n in cf && n != start
    ensures Rank(g, stamp, cf[n]) < Rank(g, stamp, n)
  {
    assert cf[n] in Below(g, stamp, n);
    ProperSubsetCard(Below(g, stamp, cf[n]), Below(g, stamp, n));
  }

  /** The nodes met following `cameFrom` from n back to the start: [n, cameFrom[n], ..., start]. */
  ghost function Chain(start: Handle, cf: map<Handle, Handle>, g: map<Handle, real>, stamp: map<Handle, nat>, n: Handle): seq<Handle>
    requires ChainOrdered(start, cf, g, stamp) && n in cf
    decreases Rank(g, stamp, n)
  {
    if n == start then [start]
    else
      ChainDescends(start, cf, g, stamp, n);
      [n] + Chain(start, cf, g, stamp, cf[n])
  }

  /** One step back along `cameFrom` keeps a partial chain a prefix of the whole chain. */
  lemma ChainStep(start: Handle, cf: map<Handle, Handle>, g: map<Handle, real>, stamp: map<Handle, nat>,
                  n: Handle, p: seq<Handle>, m: Handle)
    requires ChainOrdered(start, cf, g, stamp) && n in cf && m in cf && m != start
    requires |p| >= 1 && p[|p| - 1] == m
    requires Chain(start, cf, g, stamp, n) == p[..|p| - 1] + Chain(start, cf, g, stamp, m)
    ensures Chain(start, cf, g, stamp, n) == p + Chain(start, cf, g, stamp, cf[m])
  {
    ChainDescends(start, cf, g, stamp, m);
    var rest := Chain(start, cf, g, stamp, cf[m]);
    assert Chain(start, cf, g, stamp, m) == [m] + rest;
    ShiftLast(p, rest);
  }

  lemma ShiftLast<T>(p: seq<T>, rest: seq<T>)
    requires |p| >= 1
    ensures p[..|p| - 1] + ([p[|p| - 1]] + rest) == p + rest
  {
    assert p == p[..|p| - 1] + [p[|p| - 1]];
  }

  /** The chain starts at n, ends at the start, and visits recorded nodes only. */
  lemma {:induction false} ChainShape(start: Handle, cf: map<Handle, Handle>, g: map<Handle, real>, stamp: map<Handle, nat>, n: Handle)
    requires ChainOrdered(start, cf, g, stamp) && n in cf
    ensures var p := Chain(start, cf, g, stamp, n);
      && |p| >= 1 && p[0] == n && p[|p| - 1] == start
      && (forall i :: 0 <= i < |p| ==> p[i] in cf)
    decreases Rank(g, stamp, n)
  {
    if n != start {
      ChainDescends(start, cf, g, stamp, n);
      ChainShape(start, cf, g, stamp, cf[n]);
    }
  }

  /** Each node of the chain after the first is the predecessor of the one before, which is not the start. */
  lemma {:induction false} ChainLinks(start: Handle, cf: map<Handle, Handle>, g: map<Handle, real>, stamp: map<Handle, nat>, n: Handle)
    requires ChainOrdered(start, cf, g, stamp) && n in cf
    ensures var p := Chain(start, cf, g, stamp, n);
      forall i {:trigger p[i]} :: 0 <= i < |p| - 1 ==> p[i] != start && p[i] in cf && p[i + 1] == cf[p[i]]
    decreases Rank(g, stamp, n)
  {
    var p := Chain(start, cf, g, stamp, n);
    if n != start {
      ChainDescends(start, cf, g, stamp, n);
      ChainLinks(start, cf, g, stamp, cf[n]);
      ChainShape(start, cf, g, stamp, cf[n]);
      var p0 := Chain(start, cf, g, stamp, cf[n]);
      assert p == [n] + p0;
      forall i | 0 <= i < |p| - 1 ensures p[i] != start && p[i] in cf && p[i + 1] == cf[p[i]] {
        if i == 0 {
          assert p[i] == n && p[i + 1] == p0[0];
        } else {
          var i0 := i - 1;
          assert p0[i0] != start && p0[i0] in cf && p0[i0 + 1] == cf[p0[i0]];
          assert p[i] == p0[i0] && p[i + 1] == p0[i0 + 1];
        }
      }
    } else {
      assert p == [start];
    }
  }

  /** The chain holds just the start when n is the start, and just n and the start when the start is n's predecessor. */
  lemma ChainShort(start: Handle, cf: map<Handle, Handle>, g: map<Handle, real>, stamp: map<Handle, nat>, n: Handle)
    requires ChainOrdered(start, cf, g, stamp) && n in cf
    ensures |Chain(start, cf, g, stamp, n)| <= 2 <==> n == start || cf[n] == start
  {
    if n != start {
      ChainDescends(start, cf, g, stamp, n);
      assert Chain(start, cf, g, stamp, n) == [n] + Chain(start, cf, g, stamp, cf[n]);
      if cf[n] != start {
        ChainDescends(start, cf, g, stamp, cf[n]);
        assert Chain(start, cf, g, stamp, cf[n]) == [cf[n]] + Chain(start, cf, g, stamp, cf[cf[n]]);
      }
    }
  }

  /** The walk from the start to n that the chain describes, one recorded last edge per node. */
  ghost function ChainWalk(grid: Grid, start: Handle, cf: map<Handle, Handle>, g: map<Handle, real>,
                           paths: map<Handle, seq<Neighbor>>, stamp: map<Handle, nat>, clock: nat, n: Handle): seq<Neighbor>
    requires LabelsInv(grid, start, cf, g, paths, stamp, clock) && n in cf
    decreases Rank(g, stamp, n)
  {
    if n == start then []
    else
      assert PredInv(start, cf, g, paths, n);
      ChainDescends(start, cf, g, stamp, n);
      ChainWalk(grid, start, cf, g, paths, stamp, clock, cf[n]) + [paths[n][|paths[n]| - 1]]
  }

  /** The last edge of n's recorded walk leaves n's predecessor and reaches n. */
  lemma LastEdge(grid: Grid, start: Handle, cf: map<Handle, Handle>, g: map<Handle, real>,
                 paths: map<Handle, seq<Neighbor>>, stamp: map<Handle, nat>, clock: nat, n: Handle)
    requires LabelsInv(grid, start, cf, g, paths, stamp, clock) && n in cf && n != start
    ensures |paths[n]| > 0
    ensures var e := paths[n][|paths[n]| - 1];
      EdgeFrom(grid.nodeNeighbors, cf[n], e) && e.node == n && g[n] >= g[cf[n]] + e.cost
  {
    assert PredInv(start, cf, g, paths, n);
    var P := paths[n];
    assert PathInv(grid.nodeNeighbors, start, g, n, P);
    assert EdgeFrom(grid.nodeNeighbors, NodeAt(start, P, |P| - 1), P[|P| - 1]);
  }

  /** Extending a walk by an edge into n matches extending its node sequence, read backwards, by n. */
  lemma VisitsSnoc(start: Handle, w0: seq<Neighbor>, e: Neighbor, p0: seq<Handle>, n: Handle)
    requires |w0| == |p0| - 1 && e.node == n
    requires forall i :: 0 <= i <= |w0| ==> NodeAt(start, w0, i) == p0[|p0| - 1 - i]
    ensures var w, p := w0 + [e], [n] + p0;
      |w| == |p| - 1 && forall i :: 0 <= i <= |w| ==> NodeAt(start, w, i) == p[|p| - 1 - i]
  {
    var w, p := w0 + [e], [n] + p0;
    forall i | 0 <= i <= |w| ensures NodeAt(start, w, i) == p[|p| - 1 - i] {
      if i <= |w0| {
        NodeAtSnoc(start, w0, e, i);
      }
    }
  }

  /**
   * The chain read backwards is a walk from the start to n through real edges, costing no
   * more than n's recorded cost.
   */
  lemma {:induction false} ChainWalkSound(grid: Grid, start: Handle, cf: map<Handle, Handle>, g: map<Handle, real>,
                                          paths: map<Handle, seq<Neighbor>>, stamp: map<Handle, nat>, clock: nat, n: Handle)
    requires LabelsInv(grid, start, cf, g, paths, stamp, clock) && n in cf
    ensures var w := ChainWalk(grid, start, cf, g, paths, stamp, clock, n);
            var p := Chain(start, cf, g, stamp, n);
      && IsWalk(grid.nodeNeighbors, start, w) && End(start, w) == n && Cost(w) <= g[n]
      && |w| == |p| - 1
      && (forall i :: 0 <= i <= |w| ==> NodeAt(start, w, i) == p[|p| - 1 - i])
    decreases Rank(g, stamp, n)
  {
    if n != start {
      LastEdge(grid, start, cf, g, paths, stamp, clock, n);
      ChainDescends(start, cf, g, stamp, n);
      ChainWalkSound(grid, start, cf, g, paths, stamp, clock, cf[n]);
      var w0 := ChainWalk(grid, start, cf, g, paths, stamp, clock, cf[n]);
      var p0 := Chain(start, cf, g, stamp, cf[n]);
      var e := paths[n][|paths[n]| - 1];
      assert ChainWalk(grid, start, cf, g, paths, stamp, clock, n) == w0 + [e];
      assert Chain(start, cf, g, stamp, n) == [n] + p0;
      WalkSnoc(grid.nodeNeighbors, start, w0, e);
      CostSnoc(w0, e);
      VisitsSnoc(start, w0, e, p0, n);
    }
  }

  /** locs holds the coordinates of p's nodes from the second-to-last down to the second. */
  ghost predicate ChainLocs(grid: Grid, p: seq<Handle>, locs: seq<Point>)
  {
    |locs| == (if |p| < 2 then 0 else |p| - 2) && LocsFromEnd(grid, p, locs)
  }

  /** l is the coordinate of the node k places back from p's second-to-last. */
  ghost predicate LocBack(grid: Grid, p: seq<Handle>, k: int, l: Point)
  {
    0 <= k <= |p| - 2 && ValidHandle(grid, p[|p| - 2 - k]) && l == Coords(grid, p[|p| - 2 - k])
  }

  /** locs holds the coordinates of p's nodes counted back from the second-to-last, as many as locs is long. */
  ghost predicate LocsFromEnd(grid: Grid, p: seq<Handle>, locs: seq<Point>)
  {
    forall k {:trigger locs[k]} :: 0 <= k < |locs| ==> LocBack(grid, p, k, locs[k])
  }

  /** Appending the coordinates of the next node counted back keeps locs in step with p. */
  lemma LocsFromEndSnoc(grid: Grid, p: seq<Handle>, locs: seq<Point>, i: nat)
    requires LocsFromEnd(grid, p, locs)
    requires i < |p| && i == |p| - 2 - |locs| && ValidHandle(grid, p[i])
    ensures LocsFromEnd(grid, p, locs + [Coords(grid, p[i])])
  {
    var locs' := locs + [Coords(grid, p[i])];
    forall k | 0 <= k < |locs'| ensures LocBack(grid, p, k, locs'[k]) {
      if k < |locs| {
        assert locs'[k] == locs[k];
      } else {
        assert |p| - 2 - k == i;
      }
    }
  }

  /** locs holds, in order, the coordinates of the nodes w's edges reach, all but the last. */
  ghost predicate WalkLocs(grid: Grid, w: seq<Neighbor>, locs: seq<Point>)
  {
    && |locs| == (if |w| == 0 then 0 else |w| - 1)
    && forall k {:trigger locs[k]} :: 0 <= k < |locs| ==> ValidHandle(grid, w[k].node) && locs[k] == Coords(grid, w[k].node)
  }

  /**
   * The waypoints taken from the chain, the one after the start first and the one before n
   * last, are the targets of all but the last edge of the chain's walk.
   */
  lemma ChainWaypoints(grid: Grid, start: Handle, cf: map<Handle, Handle>, g: map<Handle, real>,
                       paths: map<Handle, seq<Neighbor>>, stamp: map<Handle, nat>, clock: nat, n: Handle,
                       locs: seq<Point>)
    requires LabelsInv(grid, start, cf, g, paths, stamp, clock) && n in cf
    requires ChainLocs(grid, Chain(start, cf, g, stamp, n), locs)
    ensures var w := ChainWalk(grid, start, cf, g, paths, stamp, clock, n);
      IsWalk(grid.nodeNeighbors, start, w) && End(start, w) == n && Cost(w) <= g[n] && WalkLocs(grid, w, locs)
  {
    ChainWalkSound(grid, start, cf, g, paths, stamp, clock, n);
    var w := ChainWalk(grid, start, cf, g, paths, stamp, clock, n);
    var p := Chain(start, cf, g, stamp, n);
    WaypointsOfWalk(grid, start, w, p, locs);
  }

  /** Positions counted back from the end of the node sequence are the walk's targets counted forward. */
  lemma WaypointsOfWalk(grid: Grid, start: Handle, w: seq<Neighbor>, p: seq<Handle>, locs: seq<Point>)
    requires |w| == |p| - 1 && forall i :: 0 <= i <= |w| ==> NodeAt(start, w, i) == p[|p| - 1 - i]
    requires ChainLocs(grid, p, locs)
    ensures WalkLocs(grid, w, locs)
  {
    forall k | 0 <= k < |locs| ensures ValidHandle(grid, w[k].node) && locs[k] == Coords(grid, w[k].node) {
      var l := locs[k];
      assert NodeAt(start, w, k + 1) == p[|p| - 1 - (k + 1)];
    }
  }
}
