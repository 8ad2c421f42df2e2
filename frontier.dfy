/**
 * The search frontier, a min-priority queue of nodes.  The library queue the source uses
 * is modelled by what the search relies on: enqueueing appends an entry (a node may be
 * queued several times), and dequeueing removes some entry of least priority; which one
 * wins a tie is left open.
 */
module Frontier {
  import opened Graph

  datatype Entry = Entry(node: Handle, priority: real)

  /** Entry k has the least priority in q. */
  predicate IsMinAt(q: seq<Entry>, k: nat)
    requires k < |q|
  {
    forall j :: 0 <= j < |q| ==> q[k].priority <= q[j].priority
  }

  /** The position of the first least-priority entry; it witnesses that a minimum exists. */
  function MinIndex(q: seq<Entry>): (k: nat)
    requires q != []
    ensures k < |q| && IsMinAt(q, k)
  {
    if |q| == 1 then 0
    else
      var k' := MinIndex(q[..|q| - 1]);
      assert forall j :: 0 <= j < |q| - 1 ==> q[..|q| - 1][j] == q[j];
      if q[|q| - 1].priority < q[k'].priority then |q| - 1 else k'
  }

  /** The queue without its k-th entry. */
  function RemoveAt(q: seq<Entry>, k: nat): (r: seq<Entry>)
    requires k < |q|
    ensures |r| == |q| - 1
    ensures forall j :: 0 <= j < |r| ==> r[j] == if j < k then q[j] else q[j + 1]
    ensures multiset(r) + multiset{q[k]} == multiset(q)
  {
    assert q == q[..k] + [q[k]] + q[k + 1..];
    q[..k] + q[k + 1..]
  }

  /** Removing one entry keeps every other entry. */
  lemma RemoveAtKeeps(q: seq<Entry>, k: nat, x: Entry)
    requires k < |q| && x in q && x != q[k]
    ensures x in RemoveAt(q, k)
  {
    var i :| 0 <= i < |q| && q[i] == x;
    var r := RemoveAt(q, k);
    if i < k {
      assert r[i] == x;
    } else {
      assert r[i - 1] == x;
    }
  }
}
