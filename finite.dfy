/**
 * Finiteness facts behind the termination of the expansion loop: the simple walks of
 * a grid form a finite set, because a simple walk visits at most as many nodes as the
 * grid can offer and its edges come from a finite set.
 */
module Finite {
  import opened Graph
  import opened Walks

  /** Every edge that appears in some adjacency list. */
  ghost function AllEdges(adj: Adjacency): set<Neighbor>
  {
    set u, e | u in adj && e in adj[u] :: e
  }

  /** Every node a walk from `from` can visit. */
  ghost function Dom(adj: Adjacency, from: Handle): set<Handle>
  {
    {from} + set e | e in AllEdges(adj) :: e.node
  }

  /** All sequences of at most k elements of E. */
  ghost function SeqsUpTo(E: set<Neighbor>, k: nat): set<seq<Neighbor>>
  {
    if k == 0 then {[]}
    else SeqsUpTo(E, k - 1) + set s, e | s in SeqsUpTo(E, k - 1) && e in E :: s + [e]
  }

  lemma {:induction false} SeqsUpToComplete(E: set<Neighbor>, k: nat, s: seq<Neighbor>)
    requires |s| <= k
    requires forall i :: 0 <= i < |s| ==> s[i] in E
    ensures s in SeqsUpTo(E, k)
    decreases k
  {
    if k > 0 {
      if |s| < k {
        SeqsUpToComplete(E, k - 1, s);
      } else {
        var s' := s[..|s| - 1];
        SeqsUpToComplete(E, k - 1, s');
        assert s == s' + [s[|s| - 1]];
      }
    }
  }

  /** A sequence without repetitions drawn from D is no longer than D is large. */
  lemma {:induction false} Pigeonhole(s: seq<Handle>, D: set<Handle>)
    requires forall i :: 0 <= i < |s| ==> s[i] in D
    requires forall i, j :: 0 <= i < j < |s| ==> s[i] != s[j]
    ensures |s| <= |D|
    decreases |s|
  {
    if s != [] {
      var rest := s[1..];
      forall i | 0 <= i < |rest| ensures rest[i] in D - {s[0]} {
        assert rest[i] == s[i + 1];
      }
      Pigeonhole(rest, D - {s[0]});
    }
  }

  /** A simple walk takes fewer edges than there are nodes it could visit. */
  lemma SimpleWalkLength(adj: Adjacency, from: Handle, w: seq<Neighbor>)
    requires IsWalk(adj, from, w) && Simple(from, w)
    ensures |w| < |Dom(adj, from)|
  {
    var visits := seq(|w| + 1, i requires 0 <= i < |w| + 1 => NodeAt(from, w, i));
    forall i | 0 <= i < |visits| ensures visits[i] in Dom(adj, from) {
      if i > 0 {
        assert EdgeFrom(adj, NodeAt(from, w, i - 1), w[i - 1]);
        assert w[i - 1] in AllEdges(adj);
      }
    }
    Pigeonhole(visits, Dom(adj, from));
  }

  /** The finite set every simple walk from `from` belongs to. */
  ghost function Candidates(adj: Adjacency, from: Handle): set<seq<Neighbor>>
  {
    SeqsUpTo(AllEdges(adj), |Dom(adj, from)|)
  }

  lemma SimpleWalkIsCandidate(adj: Adjacency, from: Handle, w: seq<Neighbor>)
    requires IsWalk(adj, from, w) && Simple(from, w)
    ensures w in Candidates(adj, from)
  {
    SimpleWalkLength(adj, from, w);
    forall i | 0 <= i < |w| ensures w[i] in AllEdges(adj) {
      assert EdgeFrom(adj, NodeAt(from, w, i), w[i]);
    }
    SeqsUpToComplete(AllEdges(adj), |Dom(adj, from)|, w);
  }

  /** A proper subset is strictly smaller. */
  lemma ProperSubsetCard<T>(a: set<T>, b: set<T>)
    requires a < b
    ensures |a| < |b|
  {
    var x :| x in b && x !in a;
    assert b == a + (b - a);
    assert x in b - a;
  }
}
