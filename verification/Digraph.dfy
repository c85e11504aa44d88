// Finite directed multigraphs given by one ordered list of heads per node, and
// reachability in them.
module Digraph {

  // out[u] lists the heads of the edges that leave u, in traversal order.
  // A parallel edge is a repeated head and a self-loop is u in out[u].
  type Graph = seq<seq<nat>>

  ghost predicate WellFormed(g: Graph) {
    forall u, k :: 0 <= u < |g| && 0 <= k < |g[u]| ==> g[u][k] < |g|
  }

  ghost predicate Edge(g: Graph, u: nat, v: nat) {
    u < |g| && v in g[u]
  }

  ghost predicate Path(g: Graph, p: seq<nat>) {
    |p| > 0 && forall i :: 0 <= i < |p| - 1 ==> Edge(g, p[i], p[i + 1])
  }

  ghost predicate Reach(g: Graph, u: nat, v: nat) {
    exists p :: Path(g, p) && p[0] == u && p[|p| - 1] == v
  }

  // Each of u and v reaches the other.
  ghost predicate Mutual(g: Graph, u: nat, v: nat) {
    Reach(g, u, v) && Reach(g, v, u)
  }

  lemma ReachRefl(g: Graph, u: nat)
    ensures Reach(g, u, u)
  {
    assert Path(g, [u]);
  }

  lemma ReachEdge(g: Graph, u: nat, v: nat)
    requires Edge(g, u, v)
    ensures Reach(g, u, v)
  {
    var p := [u, v];
    assert Path(g, p) && p[0] == u && p[|p| - 1] == v;
  }

  lemma ReachTrans(g: Graph, u: nat, v: nat, w: nat)
    requires Reach(g, u, v) && Reach(g, v, w)
    ensures Reach(g, u, w)
  {
    var p :| Path(g, p) && p[0] == u && p[|p| - 1] == v;
    var q :| Path(g, q) && q[0] == v && q[|q| - 1] == w;
    var r := p + q[1..];
    assert r[|r| - 1] == w;
    forall i | 0 <= i < |r| - 1
      ensures Edge(g, r[i], r[i + 1])
    {
      if i < |p| - 1 {
        assert Edge(g, p[i], p[i + 1]);
      } else {
        var j := i - (|p| - 1);
        assert r[i] == q[j] && r[i + 1] == q[j + 1];
        assert Edge(g, q[j], q[j + 1]);
      }
    }
    assert Path(g, r);
  }

  // A set that no edge leaves contains everything reachable from its members.
  lemma ReachClosed(g: Graph, s: set<nat>, u: nat, v: nat)
    requires forall x: nat, y: nat :: x in s && Edge(g, x, y) ==> y in s
    requires u in s && Reach(g, u, v)
    ensures v in s
  {
    var p :| Path(g, p) && p[0] == u && p[|p| - 1] == v;
    var i := 0;
    while i < |p| - 1
      invariant 0 <= i < |p| && p[i] in s
    {
      assert Edge(g, p[i], p[i + 1]);
      i := i + 1;
    }
  }
}
