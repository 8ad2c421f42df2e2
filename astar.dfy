/**
 * The A* search object: snaps the query points to grid nodes, runs the expansion loop
 * over its two maps `cameFrom` and `costSoFar`, and reconstructs the path found.
 */
module AStar {
  import opened Graph
  import opened Walks
  import opened Finite
  import opened Frontier
  import opened Nearest
  import opened Labels

  /** The two maps of the search together with the frontier entries. */
  datatype Records = Records(cameFrom: map<Handle, Handle>, costSoFar: map<Handle, real>, queued: seq<Entry>)

  /**
   * The records after relaxing, in order, the edges `es` out of `cur`: an edge whose target
   * has no cost yet, or a dearer one, records that target at the cost through `cur`, makes
   * `cur` its predecessor and queues it at that cost plus the heuristic towards the goal.
   * Keys are never lost and a cost never goes up.
   */
  function RelaxEdges(r: Records, cur: Handle, es: seq<Neighbor>, goal: Handle, h: (Handle, Handle) -> real): (r': Records)
    requires cur in r.costSoFar
    ensures r.costSoFar.Keys <= r'.costSoFar.Keys && r.cameFrom.Keys <= r'.cameFrom.Keys
    ensures forall v :: v in r.costSoFar ==> r'.costSoFar[v] <= r.costSoFar[v]
    decreases |es|
  {
    if es == [] then r
    else
      var r0 := RelaxEdges(r, cur, es[..|es| - 1], goal, h);
      var e := es[|es| - 1];
      var newCost := r0.costSoFar[cur] + e.cost;
      if Improves(r0.costSoFar, e.node, newCost) then
        Records(r0.cameFrom[e.node := cur], r0.costSoFar[e.node := newCost],
                r0.queued + [Entry(e.node, newCost + h(e.node, goal))])
      else r0
  }

  /**
   * Every record that relaxing the edges `es` adds or changes belongs to the target of one
   * of those edges and has `cur` as its predecessor.
   */
  lemma {:induction false} RelaxEdgesSource(r: Records, cur: Handle, es: seq<Neighbor>, goal: Handle, h: (Handle, Handle) -> real)
    requires cur in r.costSoFar
    ensures var r' := RelaxEdges(r, cur, es, goal, h);
      forall v :: v in r'.costSoFar && (v !in r.costSoFar || r'.costSoFar[v] != r.costSoFar[v]) ==>
        (exists e :: e in es && e.node == v) && v in r'.cameFrom && r'.cameFrom[v] == cur
    decreases |es|
  {
    if es != [] {
      var es0 := es[..|es| - 1];
      var r0 := RelaxEdges(r, cur, es0, goal, h);
      RelaxEdgesSource(r, cur, es0, goal, h);
      var e := es[|es| - 1];
      var r' := RelaxEdges(r, cur, es, goal, h);
      forall v | v in r'.costSoFar && (v !in r.costSoFar || r'.costSoFar[v] != r.costSoFar[v])
        ensures (exists e' :: e' in es && e'.node == v) && v in r'.cameFrom && r'.cameFrom[v] == cur
      {
        if Improves(r0.costSoFar, e.node, r0.costSoFar[cur] + e.cost) && v == e.node {
          assert e in es;
        } else {
          var e' :| e' in es0 && e'.node == v;
          InPrefix(es, |es| - 1, e');
        }
      }
    }
  }

  lemma InPrefix<T>(s: seq<T>, k: nat, x: T)
    requires k <= |s| && x in s[..k]
    ensures x in s
  {
    var i :| 0 <= i < k && s[..k][i] == x;
    assert s[i] == x;
  }

  /** Entries are only ever appended to the frontier, and when no cost changed nothing changed. */
  lemma {:induction false} RelaxEdgesStrict(r: Records, cur: Handle, es: seq<Neighbor>, goal: Handle, h: (Handle, Handle) -> real)
    requires cur in r.costSoFar
    ensures var r' := RelaxEdges(r, cur, es, goal, h);
      && |r'.queued| >= |r.queued| && r'.queued[..|r.queued|] == r.queued
      && (r'.costSoFar == r.costSoFar ==> r' == r)
    decreases |es|
  {
    if es != [] {
      var r0 := RelaxEdges(r, cur, es[..|es| - 1], goal, h);
      RelaxEdgesStrict(r, cur, es[..|es| - 1], goal, h);
      var e := es[|es| - 1];
      var newCost := r0.costSoFar[cur] + e.cost;
      if Improves(r0.costSoFar, e.node, newCost) {
        var r' := RelaxEdges(r, cur, es, goal, h);
        assert r'.queued[..|r0.queued|] == r0.queued;
        assert r'.queued[..|r.queued|] == r0.queued[..|r.queued|];
        assert r'.costSoFar[e.node] == newCost;
        assert e.node in r.costSoFar ==> r0.costSoFar[e.node] <= r.costSoFar[e.node];
        if r'.costSoFar == r.costSoFar {
          assert false;
        }
      }
    }
  }

  /** Relaxing one more edge, e, that improves its target extends the records by that target. */
  lemma RelaxEdgesSnoc(r: Records, cur: Handle, es: seq<Neighbor>, e: Neighbor, es': seq<Neighbor>,
                       goal: Handle, h: (Handle, Handle) -> real,
                       cf: map<Handle, Handle>, g: map<Handle, real>, queued: seq<Entry>)
    requires cur in r.costSoFar && es' == es + [e]
    requires Records(cf, g, queued) == RelaxEdges(r, cur, es, goal, h)
    requires cur in g && Improves(g, e.node, g[cur] + e.cost)
    ensures Records(cf[e.node := cur], g[e.node := g[cur] + e.cost], queued + [Entry(e.node, g[cur] + e.cost + h(e.node, goal))])
            == RelaxEdges(r, cur, es', goal, h)
  {
    assert es'[..|es'| - 1] == es;
  }

  /** Relaxing one more edge, e, that does not improve its target leaves the records alone. */
  lemma RelaxEdgesSkip(r: Records, cur: Handle, es: seq<Neighbor>, e: Neighbor, es': seq<Neighbor>,
                       goal: Handle, h: (Handle, Handle) -> real,
                       cf: map<Handle, Handle>, g: map<Handle, real>, queued: seq<Entry>)
    requires cur in r.costSoFar && es' == es + [e]
    requires Records(cf, g, queued) == RelaxEdges(r, cur, es, goal, h)
    requires cur in g && !Improves(g, e.node, g[cur] + e.cost)
    ensures Records(cf, g, queued) == RelaxEdges(r, cur, es', goal, h)
  {
    assert es'[..|es'| - 1] == es;
  }

  lemma LastSplit<T>(s: seq<T>)
    requires |s| >= 1
    ensures s == s[..|s| - 1] + [s[|s| - 1]]
  {
  }

  /**
   * What holds after relaxing the first i edges out of `current`, which was dequeued from
   * `queue` with the records at (cf0, g0): the state is what RelaxEdges computes, the map
   * and frontier invariants hold, the relaxed edges lead to no dearer records, and either
   * some record improved or nothing changed.
   */
  ghost predicate Expanding(grid: Grid, start: Handle, goal: Handle, h: (Handle, Handle) -> real,
                            current: Handle, queue: seq<Entry>, cf0: map<Handle, Handle>, g0: map<Handle, real>, i: nat,
                            cf: map<Handle, Handle>, g: map<Handle, real>, paths: map<Handle, seq<Neighbor>>,
                            stamp: map<Handle, nat>, clock: nat, frontier: seq<Entry>, open: set<Handle>)
  {
    && current in grid.nodeNeighbors && current in g0 && i <= |grid.nodeNeighbors[current]|
    && Records(cf, g, frontier) == RelaxEdges(Records(cf0, g0, queue), current, grid.nodeNeighbors[current][..i], goal, h)
    && LabelsInv(grid, start, cf, g, paths, stamp, clock)
    && current in g && g[current] == g0[current]
    && FrontierInv(frontier, g, open, start, goal, h)
    && ClosedInv(grid.nodeNeighbors, g, open + {current})
    && GoalOpen(g, open, goal)
    && (forall j :: 0 <= j < i ==> EdgeDone(g, current, grid.nodeNeighbors[current][j]))
    && (Unexplored(grid.nodeNeighbors, start, g) < Unexplored(grid.nodeNeighbors, start, g0) || (g == g0 && frontier == queue))
  }

  /** The edge e out of cur leads to a recorded node no dearer than through cur. */
  ghost predicate EdgeDone(g: map<Handle, real>, cur: Handle, e: Neighbor)
  {
    cur in g && e.node in g && g[e.node] <= g[cur] + e.cost
  }

  lemma ExpandStart(grid: Grid, start: Handle, goal: Handle, h: (Handle, Handle) -> real,
                    current: Handle, queue: seq<Entry>, cf: map<Handle, Handle>, g: map<Handle, real>,
                    paths: map<Handle, seq<Neighbor>>, stamp: map<Handle, nat>, clock: nat, open: set<Handle>)
    requires LabelsInv(grid, start, cf, g, paths, stamp, clock)
    requires current in grid.nodeNeighbors && current in g
    requires FrontierInv(queue, g, open, start, goal, h)
    requires ClosedInv(grid.nodeNeighbors, g, open + {current})
    requires GoalOpen(g, open, goal)
    ensures Expanding(grid, start, goal, h, current, queue, cf, g, 0, cf, g, paths, stamp, clock, queue, open)
  {
    assert grid.nodeNeighbors[current][..0] == [];
  }

  /** Relaxing edge i, e, when it improves its target's record. */
  lemma ExpandStep(grid: Grid, start: Handle, goal: Handle, h: (Handle, Handle) -> real,
                   current: Handle, queue: seq<Entry>, cf0: map<Handle, Handle>, g0: map<Handle, real>, i: nat,
                   cf: map<Handle, Handle>, g: map<Handle, real>, paths: map<Handle, seq<Neighbor>>,
                   stamp: map<Handle, nat>, clock: nat, frontier: seq<Entry>, open: set<Handle>, e: Neighbor,
                   i': nat, clock': nat)
    requires WellFormed(grid)
    requires Expanding(grid, start, goal, h, current, queue, cf0, g0, i, cf, g, paths, stamp, clock, frontier, open)
    requires i < |grid.nodeNeighbors[current]| && e == grid.nodeNeighbors[current][i]
    requires Improves(g, e.node, g[current] + e.cost)
    requires i' == i + 1 && clock' == clock + 1
    ensures Expanding(grid, start, goal, h, current, queue, cf0, g0, i',
                      cf[e.node := current], g[e.node := g[current] + e.cost], paths[e.node := paths[current] + [e]],
                      stamp[e.node := clock], clock',
                      frontier + [Entry(e.node, g[current] + e.cost + h(e.node, goal))], open + {e.node})
  {
    var adj := grid.nodeNeighbors;
    assert EdgeFrom(adj, current, e);
    RelaxLabels(grid, start, cf, g, paths, stamp, clock, current, e, clock');
    RelaxShrinks(grid, start, cf, g, paths, stamp, clock, current, e);
    StepQueue(adj, start, goal, h, current, queue, cf0, g0, i, cf, g, frontier, open, e, i');
  }

  /** The frontier side of relaxing edge i, e, when it improves its target's record. */
  lemma StepQueue(adj: Adjacency, start: Handle, goal: Handle, h: (Handle, Handle) -> real,
                  current: Handle, queue: seq<Entry>, cf0: map<Handle, Handle>, g0: map<Handle, real>, i: nat,
                  cf: map<Handle, Handle>, g: map<Handle, real>, frontier: seq<Entry>, open: set<Handle>,
                  e: Neighbor, i': nat)
    requires current in adj && current in g0 && current in g
    requires i < |adj[current]| && e == adj[current][i] && i' == i + 1
    requires e.node != start && e.node != current
    requires Records(cf, g, frontier) == RelaxEdges(Records(cf0, g0, queue), current, adj[current][..i], goal, h)
    requires FrontierInv(frontier, g, open, start, goal, h)
    requires ClosedInv(adj, g, open + {current}) && GoalOpen(g, open, goal)
    requires forall j :: 0 <= j < i ==> EdgeDone(g, current, adj[current][j])
    requires Improves(g, e.node, g[current] + e.cost)
    ensures Records(cf[e.node := current], g[e.node := g[current] + e.cost],
                    frontier + [Entry(e.node, g[current] + e.cost + h(e.node, goal))])
            == RelaxEdges(Records(cf0, g0, queue), current, adj[current][..i'], goal, h)
    ensures FrontierInv(frontier + [Entry(e.node, g[current] + e.cost + h(e.node, goal))],
                        g[e.node := g[current] + e.cost], open + {e.node}, start, goal, h)
    ensures ClosedInv(adj, g[e.node := g[current] + e.cost], (open + {e.node}) + {current})
    ensures GoalOpen(g[e.node := g[current] + e.cost], open + {e.node}, goal)
    ensures forall j :: 0 <= j < i' ==> EdgeDone(g[e.node := g[current] + e.cost], current, adj[current][j])
  {
    var nbrs := adj[current];
    RelaxFrontier(frontier, g, open, start, goal, h, current, e);
    RelaxClosed(adj, g, open + {current}, current, e);
    TakeSnoc(nbrs, i, i');
    RelaxEdgesSnoc(Records(cf0, g0, queue), current, nbrs[..i], e, nbrs[..i'], goal, h, cf, g, frontier);
    ClosedReorder(adj, g[e.node := g[current] + e.cost], open, current, e.node);
    EdgesDoneSnoc(g, current, nbrs, i, e, i');
  }

  lemma TakeSnoc<T>(s: seq<T>, i: nat, i': nat)
    requires i < |s| && i' == i + 1
    ensures s[..i'] == s[..i] + [s[i]]
  {
  }

  lemma ClosedReorder(adj: Adjacency, g: map<Handle, real>, open: set<Handle>, a: Handle, b: Handle)
    requires ClosedInv(adj, g, (open + {a}) + {b})
    ensures ClosedInv(adj, g, (open + {b}) + {a})
  {
    assert (open + {a}) + {b} == (open + {b}) + {a};
  }

  lemma EdgesDoneSkip(g: map<Handle, real>, current: Handle, nbrs: seq<Neighbor>, i: nat, e: Neighbor, i': nat)
    requires i < |nbrs| && e == nbrs[i] && current in g && i' == i + 1
    requires forall j :: 0 <= j < i ==> EdgeDone(g, current, nbrs[j])
    requires !Improves(g, e.node, g[current] + e.cost)
    ensures forall j :: 0 <= j < i' ==> EdgeDone(g, current, nbrs[j])
  {
    assert EdgeDone(g, current, nbrs[i]);
  }

  /** Lowering the record of an improved target keeps every relaxed edge out of `current` relaxed, and adds edge i. */
  lemma EdgesDoneSnoc(g: map<Handle, real>, current: Handle, nbrs: seq<Neighbor>, i: nat, e: Neighbor, i': nat)
    requires i < |nbrs| && e == nbrs[i] && current in g && e.node != current && i' == i + 1
    requires forall j :: 0 <= j < i ==> EdgeDone(g, current, nbrs[j])
    requires Improves(g, e.node, g[current] + e.cost)
    ensures forall j :: 0 <= j < i' ==> EdgeDone(g[e.node := g[current] + e.cost], current, nbrs[j])
  {
    var g' := g[e.node := g[current] + e.cost];
    forall j | 0 <= j < i' ensures EdgeDone(g', current, nbrs[j]) {
      if j < i {
        assert EdgeDone(g, current, nbrs[j]);
      }
    }
  }

  /** Passing over edge i, e, when it does not improve its target's record. */
  lemma ExpandSkip(grid: Grid, start: Handle, goal: Handle, h: (Handle, Handle) -> real,
                   current: Handle, queue: seq<Entry>, cf0: map<Handle, Handle>, g0: map<Handle, real>, i: nat,
                   cf: map<Handle, Handle>, g: map<Handle, real>, paths: map<Handle, seq<Neighbor>>,
                   stamp: map<Handle, nat>, clock: nat, frontier: seq<Entry>, open: set<Handle>, e: Neighbor,
                   i': nat)
    requires Expanding(grid, start, goal, h, current, queue, cf0, g0, i, cf, g, paths, stamp, clock, frontier, open)
    requires i < |grid.nodeNeighbors[current]| && e == grid.nodeNeighbors[current][i]
    requires !Improves(g, e.node, g[current] + e.cost)
    requires i' == i + 1
    ensures Expanding(grid, start, goal, h, current, queue, cf0, g0, i', cf, g, paths, stamp, clock, frontier, open)
  {
    var nbrs := grid.nodeNeighbors[current];
    TakeSnoc(nbrs, i, i');
    RelaxEdgesSkip(Records(cf0, g0, queue), current, nbrs[..i], e, nbrs[..i'], goal, h, cf, g, frontier);
    EdgesDoneSkip(g, current, nbrs, i, e, i');
  }

  /** Once every edge out of `current` is relaxed, `current` is closed. */
  lemma ExpandDone(adj: Adjacency, current: Handle, g: map<Handle, real>, open: set<Handle>)
    requires current in adj && current in g
    requires ClosedInv(adj, g, open + {current})
    requires forall j :: 0 <= j < |adj[current]| ==> EdgeDone(g, current, adj[current][j])
    ensures ClosedInv(adj, g, open)
  {
    var nbrs := adj[current];
    forall e: Neighbor | e in adj[current] ensures e.node in g && g[e.node] <= g[current] + e.cost {
      var j :| 0 <= j < |nbrs| && nbrs[j] == e;
      assert EdgeDone(g, current, nbrs[j]);
    }
    assert Relaxed(adj, g, current);
    forall v | v in g && v !in open ensures v in adj && Relaxed(adj, g, v) {
      if v != current {
        assert v !in open + {current};
      }
    }
  }

  /**
   * Relaxes every edge out of `current` in adjacency order, on top of the frontier `queue`
   * that `current` was just dequeued from, and returns the updated maps and frontier.
   */
  method ExpandNode(grid: Grid, start: Handle, goal: Handle, h: (Handle, Handle) -> real, current: Handle,
                    cf: map<Handle, Handle>, g: map<Handle, real>, queue: seq<Entry>,
                    ghost paths: map<Handle, seq<Neighbor>>, ghost stamp: map<Handle, nat>, ghost clock: nat,
                    ghost open0: set<Handle>)
    returns (cf': map<Handle, Handle>, g': map<Handle, real>, frontier: seq<Entry>,
             ghost paths': map<Handle, seq<Neighbor>>, ghost stamp': map<Handle, nat>, ghost clock': nat,
             ghost open: set<Handle>)
    requires WellFormed(grid) && LabelsInv(grid, start, cf, g, paths, stamp, clock)
    requires current in grid.nodeNeighbors && current in g
    requires FrontierInv(queue, g, open0, start, goal, h)
    requires ClosedInv(grid.nodeNeighbors, g, open0 + {current})
    requires GoalOpen(g, open0, goal)
    ensures Records(cf', g', frontier) == RelaxEdges(Records(cf, g, queue), current, grid.nodeNeighbors[current], goal, h)
    ensures LabelsInv(grid, start, cf', g', paths', stamp', clock')
    ensures FrontierInv(frontier, g', open, start, goal, h)
    ensures ClosedInv(grid.nodeNeighbors, g', open)
    ensures GoalOpen(g', open, goal)
    ensures Unexplored(grid.nodeNeighbors, start, g') < Unexplored(grid.nodeNeighbors, start, g)
            || (g' == g && frontier == queue)
  {
    var nbrs := grid.nodeNeighbors[current];
    cf', g', frontier := cf, g, queue;
    paths', stamp', clock', open := paths, stamp, clock, open0;
    ExpandStart(grid, start, goal, h, current, queue, cf, g, paths, stamp, clock, open0);
    var i := 0;
    while i < |nbrs|
      invariant 0 <= i <= |nbrs|
      invariant Expanding(grid, start, goal, h, current, queue, cf, g, i, cf', g', paths', stamp', clock', frontier, open)
    {
      var an := nbrs[i];
      var next := i + 1;
      if !(an.node in g') || g'[current] + an.cost < g'[an.node] {
        ghost var tick := clock' + 1;
        ExpandStep(grid, start, goal, h, current, queue, cf, g, i, cf', g', paths', stamp', clock', frontier, open, an, next, tick);
        frontier := frontier + [Entry(an.node, g'[current] + an.cost + h(an.node, goal))];
        cf' := cf'[an.node := current];
        paths' := paths'[an.node := paths'[current] + [an]];
        g' := g'[an.node := g'[current] + an.cost];
        stamp', clock', open := stamp'[an.node := clock'], tick, open + {an.node};
      } else {
        ExpandSkip(grid, start, goal, h, current, queue, cf, g, i, cf', g', paths', stamp', clock', frontier, open, an, next);
      }
      i := next;
    }
    assert nbrs[..|nbrs|] == nbrs;
    ExpandDone(grid.nodeNeighbors, current, g', open);
  }

  /** The goal dequeued as a least-priority entry is recorded through a walk, at its least cost when the heuristic is consistent. */
  lemma GoalDequeued(grid: Grid, start: Handle, goal: Handle, h: (Handle, Handle) -> real,
                     cf: map<Handle, Handle>, g: map<Handle, real>, paths: map<Handle, seq<Neighbor>>,
                     stamp: map<Handle, nat>, clock: nat, queue: seq<Entry>, open: set<Handle>, k: nat)
    requires WellFormed(grid) && LabelsInv(grid, start, cf, g, paths, stamp, clock)
    requires FrontierInv(queue, g, open, start, goal, h)
    requires ClosedInv(grid.nodeNeighbors, g, open) && GoalOpen(g, open, goal)
    requires k < |queue| && IsMinAt(queue, k) && queue[k].node == goal
    ensures goal in g && Reachable(grid.nodeNeighbors, start, goal)
    ensures Consistent(grid.nodeNeighbors, h, goal) && NonNegHeuristic(h, goal)
            ==> LowerBound(grid.nodeNeighbors, start, goal, g[goal])
  {
    if Consistent(grid.nodeNeighbors, h, goal) && NonNegHeuristic(h, goal) {
      GoalOptimal(grid, start, goal, h, g, queue, open, k);
    }
    var w := paths[goal];
    assert PathInv(grid.nodeNeighbors, start, g, goal, w);
    assert IsWalk(grid.nodeNeighbors, start, w) && End(start, w) == goal;
  }

  /** While the start is the sentinel the frontier holds only the start, which has no adjacency entry. */
  lemma SentinelAborts(grid: Grid, start: Handle, queue: seq<Entry>, k: nat)
    requires WellFormed(grid) && k < |queue|
    requires start == StartSentinel ==> queue == [Entry(start, 0.0)]
    ensures start == StartSentinel ==> queue[k].node !in grid.nodeNeighbors
  {
    if start == StartSentinel {
      assert queue[k] == Entry(start, 0.0);
    }
  }

  /** Dequeueing a node other than the goal leaves the invariants ready for its expansion. */
  lemma PrepareExpand(adj: Adjacency, start: Handle, goal: Handle, h: (Handle, Handle) -> real,
                      g: map<Handle, real>, queue: seq<Entry>, open: set<Handle>, k: nat)
    requires FrontierInv(queue, g, open, start, goal, h)
    requires ClosedInv(adj, g, open) && GoalOpen(g, open, goal)
    requires k < |queue| && queue[k].node != goal
    ensures queue[k].node in g
    ensures FrontierInv(RemoveAt(queue, k), g, open - {queue[k].node}, start, goal, h)
    ensures ClosedInv(adj, g, (open - {queue[k].node}) + {queue[k].node})
    ensures GoalOpen(g, open - {queue[k].node}, goal)
  {
    PopKeeps(queue, k, g, open, start, goal, h);
  }

  /** An exhausted frontier leaves no node open, so the goal is unrecorded and unreachable. */
  lemma Exhausted(adj: Adjacency, start: Handle, goal: Handle, h: (Handle, Handle) -> real,
                  g: map<Handle, real>, open: set<Handle>)
    requires FrontierInv([], g, open, start, goal, h)
    requires ClosedInv(adj, g, open) && GoalOpen(g, open, goal) && start in g
    ensures goal !in g && !Reachable(adj, start, goal)
  {
    assert open == {};
    ExhaustedUnreachable(adj, start, goal, g);
  }

  /**
   * The expansion loop: seeds the maps and the frontier with the start at cost and priority 0,
   * then repeatedly dequeues a least-priority node.  The goal ends the loop; any other node
   * has its edges relaxed; a node without an adjacency entry aborts the search (`ok` false).
   * An exhausted frontier ends it too.
   */
  method Search(grid: Grid, h: (Handle, Handle) -> real, start: Handle, goal: Handle)
    returns (ok: bool, cf: map<Handle, Handle>, g: map<Handle, real>,
             ghost paths: map<Handle, seq<Neighbor>>, ghost stamp: map<Handle, nat>, ghost clock: nat)
    requires WellFormed(grid) && ValidHandle(grid, start) && goal != StartSentinel
    ensures LabelsInv(grid, start, cf, g, paths, stamp, clock)
    ensures start == StartSentinel ==> !ok && goal !in cf
    ensures !ok ==> exists v :: v in g && v != goal && v !in grid.nodeNeighbors
    ensures ok ==> (goal in g <==> Reachable(grid.nodeNeighbors, start, goal))
    ensures ok && goal in g && Consistent(grid.nodeNeighbors, h, goal) && NonNegHeuristic(h, goal)
            ==> LowerBound(grid.nodeNeighbors, start, goal, g[goal])
  {
    var frontier := [Entry(start, 0.0)];
    cf, g := map[start := start], map[start := 0.0];
    paths, stamp, clock := map[start := []], map[start := 0], 1;
    ghost var open := {start};
    SeedEstablishes(grid, start);
    SeedFrontier(start, goal, h, grid.nodeNeighbors);
    ghost var reached := false;

    while |frontier| > 0
      invariant LabelsInv(grid, start, cf, g, paths, stamp, clock)
      invariant FrontierInv(frontier, g, open, start, goal, h)
      invariant ClosedInv(grid.nodeNeighbors, g, open)
      invariant GoalOpen(g, open, goal)
      invariant !reached
      invariant start == StartSentinel ==> frontier == [Entry(start, 0.0)]
      invariant start == StartSentinel ==> cf == map[start := start] && g == map[start := 0.0]
      decreases Unexplored(grid.nodeNeighbors, start, g), |frontier|
    {
      assert IsMinAt(frontier, MinIndex(frontier));
      var k :| 0 <= k < |frontier| && IsMinAt(frontier, k);
      var current := frontier[k].node;
      ghost var queue := frontier;
      frontier := RemoveAt(frontier, k);
      if current == goal {
        GoalDequeued(grid, start, goal, h, cf, g, paths, stamp, clock, queue, open, k);
        reached := true;
        break;
      }
      SentinelAborts(grid, start, queue, k);
      if current !in grid.nodeNeighbors {
        ok := false;
        return;
      }
      PrepareExpand(grid.nodeNeighbors, start, goal, h, g, queue, open, k);
      cf, g, frontier, paths, stamp, clock, open :=
        ExpandNode(grid, start, goal, h, current, cf, g, frontier, paths, stamp, clock, open - {current});
    }

    if !reached {
      Exhausted(grid.nodeNeighbors, start, goal, h, g, open);
    }
    ok := true;
  }

  /**
   * What a whole search from the query points vStart and vGoal leaves behind: both points
   * snapped, the maps' invariant, an abort only on a node without adjacency entry, and on
   * completion the goal recorded exactly when it is reachable, at its least cost under a
   * consistent non-negative heuristic.
   */
  ghost predicate SearchOutcome(grid: Grid, h: (Handle, Handle) -> real, vStart: Point, vGoal: Point,
                                start: Handle, goal: Handle, ok: bool, cf: map<Handle, Handle>, g: map<Handle, real>,
                                paths: map<Handle, seq<Neighbor>>, stamp: map<Handle, nat>, clock: nat)
  {
    && Snapped(grid.nodes, vStart, StartSentinel, start)
    && Snapped(grid.nodes, vGoal, GoalSentinel, goal)
    && LabelsInv(grid, start, cf, g, paths, stamp, clock)
    && (!ok ==> exists v :: v in g && v != goal && v !in grid.nodeNeighbors)
    && (ok ==> (goal in g <==> Reachable(grid.nodeNeighbors, start, goal)))
    && (ok && goal in g && Consistent(grid.nodeNeighbors, h, goal) && NonNegHeuristic(h, goal)
        ==> LowerBound(grid.nodeNeighbors, start, goal, g[goal]))
  }

  /**
   * Snaps both query points, then runs the expansion loop from the snapped start towards
   * the snapped goal.  On an empty grid both points snap to the sentinels, the search
   * aborts at once and the goal is never recorded.
   */
  method SnapAndSearch(grid: Grid, h: (Handle, Handle) -> real, vStart: Point, vGoal: Point)
    returns (start: Handle, goal: Handle, ok: bool, cf: map<Handle, Handle>, g: map<Handle, real>,
             ghost paths: map<Handle, seq<Neighbor>>, ghost stamp: map<Handle, nat>, ghost clock: nat)
    requires WellFormed(grid)
    ensures SearchOutcome(grid, h, vStart, vGoal, start, goal, ok, cf, g, paths, stamp, clock)
    ensures start == StartSentinel ==> !ok && goal !in cf
    ensures grid.nodes == [] ==> start == StartSentinel && goal == GoalSentinel
  {
    start, goal := FindNearestNodes(grid, vStart, vGoal);
    if grid.nodes == [] {
      EmptyGridSnapsToSentinels(grid, vStart, vGoal, start, goal);
    }
    ok, cf, g, paths, stamp, clock := Search(grid, h, start, goal);
  }

  /**
   * After a completed search that recorded the goal, under a consistent non-negative
   * heuristic, the waypoints read off the predecessor chain are those of a least-cost walk
   * from the start to the goal, and that walk costs exactly the goal's record.
   */
  lemma OptimalWaypoints(grid: Grid, h: (Handle, Handle) -> real, vStart: Point, vGoal: Point,
                         start: Handle, goal: Handle, cf: map<Handle, Handle>, g: map<Handle, real>,
                         paths: map<Handle, seq<Neighbor>>, stamp: map<Handle, nat>, clock: nat,
                         locs: seq<Point>)
    requires SearchOutcome(grid, h, vStart, vGoal, start, goal, true, cf, g, paths, stamp, clock)
    requires goal in cf && Consistent(grid.nodeNeighbors, h, goal) && NonNegHeuristic(h, goal)
    requires ChainLocs(grid, Chain(start, cf, g, stamp, goal), locs)
    ensures goal in g
    ensures var w := ChainWalk(grid, start, cf, g, paths, stamp, clock, goal);
      && IsWalk(grid.nodeNeighbors, start, w) && End(start, w) == goal && WalkLocs(grid, w, locs)
      && Cost(w) == g[goal] && LowerBound(grid.nodeNeighbors, start, goal, Cost(w))
  {
    ChainWaypoints(grid, start, cf, g, paths, stamp, clock, goal, locs);
    var w := ChainWalk(grid, start, cf, g, paths, stamp, clock, goal);
    assert LowerBound(grid.nodeNeighbors, start, goal, g[goal]);
    assert g[goal] <= Cost(w);
  }

  class AStarSearch {
    /** Predecessor of each recorded node along its cheapest walk found so far. */
    var cameFrom: map<Handle, Handle>
    /** Cheapest cost found so far from the start to each recorded node. */
    var costSoFar: map<Handle, real>
    /** The snapped endpoints; they stand for null until the search snaps them. */
    var start: Handle
    var goal: Handle
    /** Set once the expansion loop has finished. */
    var isDone: bool

    const vStart: Point
    const vGoal: Point
    const aGrid: Grid
    /** The estimate of the remaining cost between two nodes. */
    const heuristic: (Handle, Handle) -> real

    /** For each recorded node, a simple walk from the start costing exactly its record. */
    ghost var paths: map<Handle, seq<Neighbor>>
    /** The time of each record's last update, below `clock`. */
    ghost var stamp: map<Handle, nat>
    ghost var clock: nat

    /** The invariant of the two maps, from seeding on. */
    ghost predicate Searched()
      reads this
    {
      LabelsInv(aGrid, start, cameFrom, costSoFar, paths, stamp, clock)
    }

    constructor (grid: Grid, startLoc: Point, goalLoc: Point, h: (Handle, Handle) -> real)
      ensures aGrid == grid && vStart == startLoc && vGoal == goalLoc && heuristic == h
      ensures cameFrom == map[] && costSoFar == map[] && !isDone
    {
      vStart := startLoc;
      vGoal := goalLoc;
      aGrid := grid;
      heuristic := h;
      cameFrom := map[];
      costSoFar := map[];
      isDone := false;
    }

    /**
     * The search proper.  It snaps both query points, then runs the expansion loop from the
     * start and stores its maps.  A dequeued node without an adjacency entry aborts the
     * search (`ok` false) before the completion flag is set.
     */
    method InitiateSearch() returns (ok: bool)
      requires WellFormed(aGrid)
      requires cameFrom == map[] && costSoFar == map[] && !isDone
      modifies this
      ensures SearchOutcome(aGrid, heuristic, vStart, vGoal, start, goal, ok, cameFrom, costSoFar, paths, stamp, clock)
      ensures Searched() && isDone == ok
      ensures start == StartSentinel ==> !isDone
    {
      var s, gl, cf, g;
      ghost var ps, st, ck;
      s, gl, ok, cf, g, ps, st, ck := SnapAndSearch(aGrid, heuristic, vStart, vGoal);
      Store(s, gl, ok, cf, g, ps, st, ck);
    }

    /** Writes back what a search leaves behind: the endpoints, the flag and both maps. */
    method Store(s: Handle, gl: Handle, done: bool, cf: map<Handle, Handle>, g: map<Handle, real>,
                 ghost ps: map<Handle, seq<Neighbor>>, ghost st: map<Handle, nat>, ghost ck: nat)
      modifies this
      ensures start == s && goal == gl && isDone == done && cameFrom == cf && costSoFar == g
      ensures paths == ps && stamp == st && clock == ck
    {
      start, goal, isDone, cameFrom, costSoFar := s, gl, done, cf, g;
      paths, stamp, clock := ps, st, ck;
    }

    /**
     * Follows `cameFrom` from `theGoal` back to the start, collecting the nodes met:
     * the goal first, the start last.
     */
    method ConstructOptimalPath(theStart: Handle, theGoal: Handle) returns (newPath: seq<Handle>)
      requires Searched() && theStart == start && theGoal in cameFrom
      ensures newPath == Chain(start, cameFrom, costSoFar, stamp, theGoal)
      ensures |newPath| >= 1 && newPath[0] == theGoal && newPath[|newPath| - 1] == theStart
      ensures forall i {:trigger newPath[i]} :: 0 <= i < |newPath| - 1 ==>
                newPath[i] != theStart && newPath[i] in cameFrom && newPath[i + 1] == cameFrom[newPath[i]]
    {
      var cf, g, st := cameFrom, costSoFar, stamp;
      var current := theGoal;
      newPath := [theGoal];
      while current != theStart
        invariant current in cf && |newPath| >= 1 && newPath[|newPath| - 1] == current
        invariant Chain(theStart, cf, g, st, theGoal)
                  == newPath[..|newPath| - 1] + Chain(theStart, cf, g, st, current)
        decreases Rank(g, st, current)
      {
        ChainDescends(theStart, cf, g, st, current);
        ChainStep(theStart, cf, g, st, theGoal, newPath, current);
        current := cf[current];
        newPath := newPath + [current];
      }
      assert Chain(theStart, cf, g, st, current) == [current];
      LastSplit(newPath);
      ChainShape(theStart, cf, g, st, theGoal);
      ChainLinks(theStart, cf, g, st, theGoal);
    }

    /**
     * The path for the caller: the coordinates of the reconstructed chain's nodes from the
     * one after the start up to the one before the goal, none when the goal was not reached.
     * They are the nodes a walk from the start to the goal passes through, the walk costing
     * no more than the goal's record.
     */
    method GetAStarOptimalPath() returns (pathLocations: seq<Point>)
      requires WellFormed(aGrid) && Searched()
      ensures goal !in cameFrom ==> pathLocations == []
      ensures goal in cameFrom ==> ChainLocs(aGrid, Chain(start, cameFrom, costSoFar, stamp, goal), pathLocations)
      ensures goal in cameFrom ==> (pathLocations == [] <==> goal == start || cameFrom[goal] == start)
      ensures goal in cameFrom ==>
        var w := ChainWalk(aGrid, start, cameFrom, costSoFar, paths, stamp, clock, goal);
        IsWalk(aGrid.nodeNeighbors, start, w) && End(start, w) == goal && Cost(w) <= costSoFar[goal]
        && WalkLocs(aGrid, w, pathLocations)
    {
      pathLocations := [];
      if goal in cameFrom {
        var path := ConstructOptimalPath(start, goal);
        ChainShape(start, cameFrom, costSoFar, stamp, goal);
        var i: int := |path| - 2;
        assert forall j :: 0 <= j < |path| ==> ValidHandle(aGrid, path[j]);
        while i > 0
          invariant -1 <= i <= |path| - 2 && (|path| >= 2 ==> i >= 0)
          invariant |pathLocations| == |path| - 2 - i
          invariant LocsFromEnd(aGrid, path, pathLocations)
        {
          var l := path[i];
          LocsFromEndSnoc(aGrid, path, pathLocations, i);
          pathLocations := pathLocations + [Coords(aGrid, l)];
          i := i - 1;
        }
        ChainWaypoints(aGrid, start, cameFrom, costSoFar, paths, stamp, clock, goal, pathLocations);
        ChainShort(start, cameFrom, costSoFar, stamp, goal);
      }
    }
  }
}
