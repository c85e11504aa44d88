// sccmap: strongly connected components of a directed graph and the map of the
// edges between them, found in one depth-first search.
module SccMap {
  import opened Wrappers
  import opened Digraph
  import opened SccSearch

  // An edge of the input graph: out-edge number slot of node tail.
  type EdgeId = (nat, nat)

  // A subgraph that the search emits: its nodes and its edges.
  datatype Component = Component(nodes: set<nat>, edges: set<EdgeId>)

  ghost predicate IsEdge(g: Graph, e: EdgeId) {
    e.0 < |g| && e.1 < |g[e.0]|
  }

  ghost function Head(g: Graph, e: EdgeId): nat
    requires IsEdge(g, e)
  {
    g[e.0][e.1]
  }

  ghost function Assigned(scc: seq<Option<nat>>): set<nat> {
    set v: nat | 0 <= v < |scc| && scc[v].Some?
  }

  ghost function Members(scc: seq<Option<nat>>, c: nat): set<nat> {
    set v: nat | 0 <= v < |scc| && scc[v] == Some(c)
  }

  // The scc field and the node sets of the emitted components agree.
  ghost predicate Listed(g: Graph, want: bool, val: seq<nat>, scc: seq<Option<nat>>, comps: seq<Component>) {
    && |val| == |scc| == |g|
    && (forall c: nat :: c < |comps| ==> comps[c].nodes != {} && (!want ==> |comps[c].nodes| >= 2))
    && (forall c: nat :: c < |comps| ==> comps[c].nodes == Members(scc, c))
    && (forall v :: 0 <= v < |g| && scc[v].Some? ==> val[v] == INF && scc[v].value < |comps|)
  }

  // Each emitted component is one class of mutual reachability; a finished node
  // outside all of them is a class of its own that was not wanted.
  ghost predicate Classes(g: Graph, want: bool, val: seq<nat>, scc: seq<Option<nat>>)
    requires |val| == |scc| == |g|
  {
    && (forall u, v :: 0 <= u < |g| && 0 <= v < |g| && scc[u].Some? ==>
         (scc[v] == scc[u] <==> Mutual(g, u, v)))
    && (forall u, v :: 0 <= u < |g| && 0 <= v < |g| && val[u] == INF && scc[u].None? && Mutual(g, u, v) ==>
         u == v && !want)
  }

  ghost predicate Emitted(g: Graph, want: bool, val: seq<nat>, scc: seq<Option<nat>>, comps: seq<Component>) {
    Listed(g, want, val, scc, comps) && Classes(g, want, val, scc)
  }

  // Edge e is an edge from one emitted component to another.
  ghost predicate Crosses(g: Graph, scc: seq<Option<nat>>, e: EdgeId)
    requires |scc| == |g| && WellFormed(g)
  {
    && IsEdge(g, e)
    && scc[e.0].Some?
    && scc[Head(g, e)].Some?
    && scc[e.0] != scc[Head(g, e)]
  }

  // In the walk over component c, edge e comes before out-edge k of node n;
  // edges out of other components count as walked.
  ghost predicate Walked(scc: seq<Option<nat>>, c: nat, n: nat, k: nat, e: EdgeId)
    requires e.0 < |scc|
  {
    scc[e.0] != Some(c) || e.0 < n || (e.0 == n && e.1 < k)
  }

  // A component's edges are the edges of the graph with both ends in it.
  ghost predicate Induced(g: Graph, scc: seq<Option<nat>>, comps: seq<Component>)
    requires |scc| == |g| && WellFormed(g)
  {
    forall c: nat :: c < |comps| ==> Kept(g, scc, comps[c].edges, c, |g|, 0)
  }

  // edges holds the edges inside component c that come before out-edge k of n.
  ghost predicate Kept(g: Graph, scc: seq<Option<nat>>, edges: set<EdgeId>, c: nat, n: nat, k: nat)
    requires |scc| == |g| && WellFormed(g)
  {
    forall e: EdgeId :: e in edges <==>
      IsEdge(g, e) && scc[e.0] == Some(c) && scc[Head(g, e)] == Some(c) && Walked(scc, c, n, k, e)
  }

  // The map's edges and the walked edges that cross correspond one to one
  // through via, and every map edge goes to a component emitted earlier.
  ghost predicate Mapped(g: Graph, scc: seq<Option<nat>>, mapEdges: seq<(nat, nat)>, via: seq<EdgeId>, c: nat, n: nat,
                         k: nat)
    requires |scc| == |g| && WellFormed(g)
  {
    && |via| == |mapEdges|
    && (forall i :: 0 <= i < |via| ==>
         && Crosses(g, scc, via[i])
         && Walked(scc, c, n, k, via[i])
         && scc[via[i].0] == Some(mapEdges[i].0)
         && scc[Head(g, via[i])] == Some(mapEdges[i].1)
         && mapEdges[i].1 < mapEdges[i].0)
    && (forall i, j :: 0 <= i < j < |via| ==> via[i] != via[j])
    && (forall e :: Crosses(g, scc, e) && Walked(scc, c, n, k, e) ==> e in via)
  }

  // scc with every node of seg put into component c.
  ghost function Assign(scc: seq<Option<nat>>, seg: seq<nat>, c: nat): (r: seq<Option<nat>>)
    ensures |r| == |scc|
  {
    seq(|scc|, v requires 0 <= v < |scc| => if v in seg then Some(c) else scc[v])
  }

  ghost function Elements(s: seq<nat>): set<nat> {
    set x | x in s
  }

  lemma {:induction false} ElementsSize(s: seq<nat>)
    requires Distinct(s)
    ensures |Elements(s)| == |s|
  {
    if s != [] {
      ElementsSize(s[1..]);
      assert Elements(s) == Elements(s[1..]) + {s[0]};
      assert s[0] !in Elements(s[1..]);
    }
  }

  lemma EmitListed(g: Graph, want: bool, val: seq<nat>, scc: seq<Option<nat>>, comps: seq<Component>, seg: seq<nat>)
    requires Listed(g, want, val, scc, comps)
    requires seg != [] && (!want ==> |Elements(seg)| >= 2)
    requires forall x :: x in seg ==> x < |g| && val[x] != INF
    ensures Listed(g, want, Finish(val, seg), Assign(scc, seg, |comps|), comps + [Component(Elements(seg), {})])
  {
    var scc', comps' := Assign(scc, seg, |comps|), comps + [Component(Elements(seg), {})];
    assert seg[0] in comps'[|comps|].nodes;
    forall c: nat | c < |comps'|
      ensures comps'[c].nodes == Members(scc', c)
    {
      if c < |comps| {
        assert comps[c].nodes == Members(scc, c);
      }
    }
  }

  lemma EmitClasses(g: Graph, want: bool, val: seq<nat>, scc: seq<Option<nat>>, c: nat, seg: seq<nat>)
    requires |val| == |scc| == |g| && Classes(g, want, val, scc)
    requires forall v :: 0 <= v < |g| && scc[v].Some? ==> val[v] == INF && scc[v].value < c
    requires forall x :: x in seg ==> x < |g| && val[x] != INF
    requires forall u: nat, v: nat :: u in seg ==> (Mutual(g, u, v) <==> v in seg)
    ensures Classes(g, want, Finish(val, seg), Assign(scc, seg, c))
  {
    var val', scc' := Finish(val, seg), Assign(scc, seg, c);
    forall u, v | 0 <= u < |g| && 0 <= v < |g| && scc'[u].Some?
      ensures scc'[v] == scc'[u] <==> Mutual(g, u, v)
    {
      if u !in seg && v in seg {
        assert Mutual(g, u, v) <==> Mutual(g, v, u);
      }
    }
    forall u, v | 0 <= u < |g| && 0 <= v < |g| && val'[u] == INF && scc'[u].None? && Mutual(g, u, v)
      ensures u == v && !want
    {
      assert val[u] == INF;
    }
  }

  // Emitting the segment seg, one whole class, keeps the component invariant.
  lemma EmitKeeps(g: Graph, want: bool, val: seq<nat>, scc: seq<Option<nat>>, comps: seq<Component>, seg: seq<nat>)
    requires Emitted(g, want, val, scc, comps)
    requires IsClass(g, val, seg) && (!want ==> |seg| >= 2)
    ensures Emitted(g, want, Finish(val, seg), Assign(scc, seg, |comps|), comps + [Component(Elements(seg), {})])
    ensures |Assigned(Assign(scc, seg, |comps|))| == |Assigned(scc)| + |seg|
  {
    ElementsSize(seg);
    EmitListed(g, want, val, scc, comps, seg);
    EmitClasses(g, want, val, scc, |comps|, seg);
    assert Assigned(Assign(scc, seg, |comps|)) == Assigned(scc) + Elements(seg);
  }

  // Finishing a class of one node without emitting it keeps the invariant.
  lemma DropKeeps(g: Graph, val: seq<nat>, scc: seq<Option<nat>>, comps: seq<Component>, n: nat)
    requires Emitted(g, false, val, scc, comps)
    requires n < |g| && IsClass(g, val, [n])
    ensures Emitted(g, false, val[n := INF], scc, comps)
  {
    assert n in [n];
  }

  // Numbering a new node keeps the component invariant.
  lemma NumberKeeps(g: Graph, want: bool, val: seq<nat>, scc: seq<Option<nat>>, comps: seq<Component>, n: nat, m: nat)
    requires Emitted(g, want, val, scc, comps)
    requires n < |g| && val[n] == 0 && m != INF
    ensures Emitted(g, want, val[n := m], scc, comps)
  {
  }

  // When the heads of finished nodes are finished, a new component has no edge
  // into it from older ones, so only its own edges remain to be walked.
  lemma MapBeforeWalk(g: Graph, val: seq<nat>, scc: seq<Option<nat>>, mapEdges: seq<(nat, nat)>, via: seq<EdgeId>,
                      seg: seq<nat>, c: nat)
    requires WellFormed(g) && |val| == |scc| == |g|
    requires Mapped(g, scc, mapEdges, via, c, |g|, 0)
    requires forall v :: 0 <= v < |g| && scc[v].Some? ==> val[v] == INF && scc[v].value < c
    requires forall x :: x in seg ==> x < |g| && val[x] < INF
    requires DoneClosed(g, val)
    ensures Mapped(g, Assign(scc, seg, c), mapEdges, via, c, 0, 0)
  {
    var scc' := Assign(scc, seg, c);
    forall e: EdgeId | IsEdge(g, e) && scc[e.0].Some?
      ensures scc'[e.0] == scc[e.0] && scc'[Head(g, e)] == scc[Head(g, e)]
    {
      assert Edge(g, e.0, Head(g, e));
    }
    forall e | Crosses(g, scc', e) && Walked(scc', c, 0, 0, e)
      ensures e in via
    {
      assert Crosses(g, scc, e) && Walked(scc, c, |g|, 0, e);
    }
    forall i | 0 <= i < |via|
      ensures Crosses(g, scc', via[i])
      ensures Walked(scc', c, 0, 0, via[i])
    {
      assert Crosses(g, scc, via[i]);
    }
  }

  // One step of the walk: edge e = (n, k) of component c is looked at, and is
  // recorded exactly if it crosses.
  lemma MapStep(g: Graph, scc: seq<Option<nat>>, mapEdges: seq<(nat, nat)>, via: seq<EdgeId>, c: nat, n: nat, k: nat)
    requires WellFormed(g) && |scc| == |g|
    requires IsEdge(g, (n, k)) && scc[n] == Some(c)
    requires Mapped(g, scc, mapEdges, via, c, n, k)
    requires scc[g[n][k]].Some? ==> scc[g[n][k]].value <= c
    ensures Crosses(g, scc, (n, k)) ==>
              Mapped(g, scc, mapEdges + [(c, scc[g[n][k]].value)], via + [(n, k)], c, n, k + 1)
    ensures !Crosses(g, scc, (n, k)) ==> Mapped(g, scc, mapEdges, via, c, n, k + 1)
  {
    var e: EdgeId := (n, k);
    assert forall i :: 0 <= i < |via| ==> via[i] != e;
    forall f | Crosses(g, scc, f) && Walked(scc, c, n, k + 1, f)
      ensures f == e || f in via
    {
      if f != e { assert Walked(scc, c, n, k, f); }
    }
    if Crosses(g, scc, e) {
      var via' := via + [e];
      assert via'[|via|] == e;
      forall f | Crosses(g, scc, f) && Walked(scc, c, n, k + 1, f)
        ensures f in via'
      {
        assert f == e || f in via;
      }
    }
  }

  lemma KeepStep(g: Graph, scc: seq<Option<nat>>, edges: set<EdgeId>, c: nat, n: nat, k: nat)
    requires WellFormed(g) && |scc| == |g|
    requires IsEdge(g, (n, k)) && scc[n] == Some(c)
    requires Kept(g, scc, edges, c, n, k)
    ensures Kept(g, scc, if scc[g[n][k]] == Some(c) then edges + {(n, k)} else edges, c, n, k + 1)
  {
  }

  lemma NextNode(g: Graph, scc: seq<Option<nat>>, edges: set<EdgeId>, mapEdges: seq<(nat, nat)>, via: seq<EdgeId>,
                 c: nat, n: nat, k: nat)
    requires WellFormed(g) && |scc| == |g| && n < |g|
    requires Kept(g, scc, edges, c, n, k)
    requires Mapped(g, scc, mapEdges, via, c, n, k)
    requires scc[n] == Some(c) ==> k == |g[n]|
    ensures Kept(g, scc, edges, c, n + 1, 0)
    ensures Mapped(g, scc, mapEdges, via, c, n + 1, 0)
  {
    forall e | Crosses(g, scc, e) && Walked(scc, c, n + 1, 0, e)
      ensures e in via
    {
      assert Walked(scc, c, n, k, e);
    }
  }

  // Older components keep exactly their edges when a new one is put in place.
  lemma InducedBefore(g: Graph, val: seq<nat>, scc: seq<Option<nat>>, comps: seq<Component>, seg: seq<nat>)
    requires WellFormed(g) && |val| == |scc| == |g|
    requires Induced(g, scc, comps)
    requires forall v :: 0 <= v < |g| && scc[v].Some? ==> val[v] == INF && scc[v].value < |comps|
    requires forall x :: x in seg ==> x < |g| && val[x] < INF
    ensures Induced(g, Assign(scc, seg, |comps|), comps)
    ensures Kept(g, Assign(scc, seg, |comps|), {}, |comps|, 0, 0)
  {
    var scc' := Assign(scc, seg, |comps|);
    forall c: nat | c < |comps|
      ensures Kept(g, scc', comps[c].edges, c, |g|, 0)
    {
      assert Kept(g, scc, comps[c].edges, c, |g|, 0);
      forall e: EdgeId
        ensures e in comps[c].edges <==>
          IsEdge(g, e) && scc'[e.0] == Some(c) && scc'[Head(g, e)] == Some(c) && Walked(scc', c, |g|, 0, e)
      {
      }
    }
  }

  lemma InducedAfter(g: Graph, scc: seq<Option<nat>>, comps0: seq<Component>, comps: seq<Component>)
    requires WellFormed(g) && |scc| == |g|
    requires |comps0| == |comps| > 0 && comps[..|comps| - 1] == comps0[..|comps| - 1]
    requires Induced(g, scc, comps0[..|comps| - 1])
    requires Kept(g, scc, comps[|comps| - 1].edges, |comps| - 1, |g|, 0)
    ensures Induced(g, scc, comps)
  {
    forall c: nat | c < |comps|
      ensures Kept(g, scc, comps[c].edges, c, |g|, 0)
    {
      if c < |comps| - 1 {
        assert comps[c] == comps[..|comps| - 1][c] == comps0[..|comps| - 1][c];
      }
    }
  }

  lemma EmittedSameNodes(g: Graph, want: bool, val: seq<nat>, scc: seq<Option<nat>>, comps0: seq<Component>,
                         comps: seq<Component>)
    requires Emitted(g, want, val, scc, comps0)
    requires |comps0| == |comps|
    requires forall c :: 0 <= c < |comps| ==> comps[c].nodes == comps0[c].nodes
    ensures Emitted(g, want, val, scc, comps)
  {
  }

  // After a whole walk nothing is left to walk, whichever component comes next.
  lemma MapWalked(g: Graph, scc: seq<Option<nat>>, mapEdges: seq<(nat, nat)>, via: seq<EdgeId>, c: nat)
    requires WellFormed(g) && |scc| == |g|
    requires Mapped(g, scc, mapEdges, via, c, |g|, 0)
    ensures Mapped(g, scc, mapEdges, via, c + 1, |g|, 0)
  {
    forall e | Crosses(g, scc, e)
      ensures e in via
    {
      assert Walked(scc, c, |g|, 0, e);
    }
  }

  lemma FinishOne(val: seq<nat>, n: nat)
    requires n < |val|
    ensures Finish(val, [n]) == val[n := INF]
  {
  }

  lemma ReachThrough(g: Graph, gray: set<nat>, n: nat, t: nat)
    requires Edge(g, n, t)
    requires forall x :: x in gray ==> Reach(g, x, n)
    ensures forall x :: x in gray + {n} ==> Reach(g, x, t)
  {
    ReachEdge(g, n, t);
    forall x | x in gray
      ensures Reach(g, x, t)
    {
      ReachTrans(g, x, n, t);
    }
  }

  class SccState {
    const g: Graph
    const wantDegenerateComp: bool
    var val: seq<nat>
    var scc: seq<Option<nat>>
    var stack: seq<nat>
    var lastId: nat
    var compCount: nat
    var nodesInNontrivSCC: nat
    var comps: seq<Component>
    var mapEdges: seq<(nat, nat)>
    ghost var via: seq<EdgeId>

    constructor (g: Graph, want: bool)
      requires WellFormed(g) && |g| < INF
      ensures this.g == g && wantDegenerateComp == want
      ensures Valid({}) && stack == []
      ensures forall v :: 0 <= v < |g| ==> val[v] == 0
    {
      this.g, wantDegenerateComp := g, want;
      val, scc := seq(|g|, _ => 0), seq(|g|, _ => None);
      stack, lastId, compCount, nodesInNontrivSCC := [], 0, 0, 0;
      comps, mapEdges, via := [], [], [];
      new;
      assert Visited(val) == {};
      assert Assigned(scc) == {};
    }

    // The invariant between calls of Visit; gray is the set of active nodes.
    ghost predicate Valid(gray: set<nat>)
      reads this
    {
      && Invariant(g, val, stack, lastId, gray)
      && Output()
    }

    ghost predicate Output()
      reads this
    {
      && WellFormed(g)
      && Emitted(g, wantDegenerateComp, val, scc, comps)
      && Induced(g, scc, comps)
      && Mapped(g, scc, mapEdges, via, |comps|, |g|, 0)
      && compCount == |comps|
      && nodesInNontrivSCC == |Assigned(scc)|
    }

    // Pops the stack down to n and puts the popped nodes into component c.
    method PopSegment(n: nat, c: nat, ghost b: nat) returns (nodes: set<nat>)
      requires b < |stack| && stack[b] == n
      requires |val| == |scc|
      requires Distinct(stack)
      requires forall i :: 0 <= i < |stack| ==> stack[i] < |val|
      modifies this`stack, this`val, this`scc, this`nodesInNontrivSCC
      ensures stack == old(stack[..b])
      ensures val == Finish(old(val), old(stack[b..]))
      ensures scc == Assign(old(scc), old(stack[b..]), c)
      ensures nodes == Elements(old(stack[b..]))
      ensures nodesInNontrivSCC == old(nodesInNontrivSCC) + |old(stack[b..])|
    {
      nodes := {};
      ghost var s := stack;
      while true
        invariant b < |stack| <= |s| && stack == s[..|stack|]
        invariant val == Finish(old(val), s[|stack|..])
        invariant scc == Assign(old(scc), s[|stack|..], c)
        invariant nodes == Elements(s[|stack|..])
        invariant nodesInNontrivSCC == old(nodesInNontrivSCC) + |s| - |stack|
        decreases |stack|
      {
        var t := stack[|stack| - 1];
        stack := stack[..|stack| - 1];
        assert s[|stack|..] == [t] + s[|stack| + 1..];
        nodes := nodes + {t};
        val := val[t := INF];
        scc := scc[t := Some(c)];
        nodesInNontrivSCC := nodesInNontrivSCC + 1;
        if t == n {
          assert |stack| == b;
          break;
        }
      }
    }

    // Adds to component c the edges between its nodes, and to the map one edge
    // for every edge that leaves it for another emitted component.
    method NodeInduce(c: nat)
      requires WellFormed(g) && |comps| == c + 1
      requires Listed(g, wantDegenerateComp, val, scc, comps)
      requires Kept(g, scc, comps[c].edges, c, 0, 0)
      requires Mapped(g, scc, mapEdges, via, c, 0, 0)
      modifies this`comps, this`mapEdges, this`via
      ensures |comps| == c + 1 && comps[..c] == old(comps)[..c] && comps[c].nodes == old(comps)[c].nodes
      ensures Kept(g, scc, comps[c].edges, c, |g|, 0)
      ensures Mapped(g, scc, mapEdges, via, c, |g|, 0)
    {
      for n := 0 to |g|
        invariant |comps| == c + 1 && comps[..c] == old(comps)[..c] && comps[c].nodes == old(comps)[c].nodes
        invariant Kept(g, scc, comps[c].edges, c, n, 0)
        invariant Mapped(g, scc, mapEdges, via, c, n, 0)
      {
        if n in comps[c].nodes {
          InduceNode(c, n);
        } else {
          NextNode(g, scc, comps[c].edges, mapEdges, via, c, n, 0);
        }
      }
    }

    method InduceNode(c: nat, n: nat)
      requires WellFormed(g) && |comps| == c + 1
      requires Listed(g, wantDegenerateComp, val, scc, comps)
      requires n < |g| && n in comps[c].nodes
      requires Kept(g, scc, comps[c].edges, c, n, 0)
      requires Mapped(g, scc, mapEdges, via, c, n, 0)
      modifies this`comps, this`mapEdges, this`via
      ensures |comps| == c + 1 && comps[..c] == old(comps)[..c] && comps[c].nodes == old(comps)[c].nodes
      ensures Kept(g, scc, comps[c].edges, c, n + 1, 0)
      ensures Mapped(g, scc, mapEdges, via, c, n + 1, 0)
    {
      hide Mapped, Kept;
      var k := 0;
      while k < |g[n]|
        invariant 0 <= k <= |g[n]|
        invariant |comps| == c + 1 && comps[..c] == old(comps)[..c] && comps[c].nodes == old(comps)[c].nodes
        invariant Kept(g, scc, comps[c].edges, c, n, k)
        invariant Mapped(g, scc, mapEdges, via, c, n, k)
      {
        var h := g[n][k];
        MapStep(g, scc, mapEdges, via, c, n, k);
        KeepStep(g, scc, comps[c].edges, c, n, k);
        if h in comps[c].nodes {
          comps := comps[c := Component(comps[c].nodes, comps[c].edges + {(n, k)})];
        } else {
          var tscc, hscc := scc[n], scc[h];
          if tscc.Some? && hscc.Some? {
            mapEdges := mapEdges + [(tscc.value, hscc.value)];
            via := via + [(n, k)];
          }
        }
        k := k + 1;
      }
      NextNode(g, scc, comps[c].edges, mapEdges, via, c, n, k);
    }
  
    // n's component is complete: takes it off the stack and, unless it is a
    // single unwanted node, emits it and extends the map.
    method FinishComponent(n: nat, ghost b: nat, ghost gray: set<nat>)
      requires b < |stack| && stack[b] == n && n < |g| && n !in gray
      requires Valid(gray + {n})
      requires forall x :: x in gray ==> x in stack[..b]
      requires forall v: nat :: Edge(g, n, v) && v < |g| ==> val[v] != 0
      requires LowBound(g, val, stack, b, b, val[n])
      modifies this
      ensures Valid(gray)
      ensures stack == old(stack[..b]) && val == Finish(old(val), old(stack[b..])) && lastId == old(lastId)
    {
      hide Mapped, Kept, Induced, Listed, Classes, Stacked, Linked, Finish, LowBound, Mutual, Distinct, DoneClosed;
      ghost var seg := stack[b..];
      SegmentIsClass(g, val, stack, lastId, gray, b);
      Leave(g, val, stack, lastId, gray, b);
      assert seg[0] == n;
      if !wantDegenerateComp && stack[|stack| - 1] == n {
        assert b == |stack| - 1 by {
          assert seg[|seg| - 1] == n;
        }
        assert seg == [n];
        DropKeeps(g, val, scc, comps, n);
        FinishOne(val, n);
        val := val[n := INF];
        stack := stack[..|stack| - 1];
      } else {
        assert !wantDegenerateComp ==> |seg| >= 2;
        EmitComponent(n, b);
      }
    }

    method EmitComponent(n: nat, ghost b: nat)
      requires b < |stack| && stack[b] == n && InRange(val, stack)
      requires Output() && IsClass(g, val, stack[b..])
      requires !wantDegenerateComp ==> |stack| - b >= 2
      requires Distinct(stack) && DoneClosed(g, val)
      modifies this
      ensures Output()
      ensures stack == old(stack[..b]) && val == Finish(old(val), old(stack[b..])) && lastId == old(lastId)
    {
      hide Mapped, Kept, Induced, Classes, Finish, Mutual, Distinct, DoneClosed;
      ghost var seg := stack[b..];
      EmitKeeps(g, wantDegenerateComp, val, scc, comps, seg);
      InducedBefore(g, val, scc, comps, seg);
      MapBeforeWalk(g, val, scc, mapEdges, via, seg, |comps|);
      compCount := compCount + 1;
      var c := |comps|;
      var nodes := PopSegment(n, c, b);
      comps := comps + [Component(nodes, {})];
      ghost var comps0 := comps;
      NodeInduce(c);
      MapWalked(g, scc, mapEdges, via, c);
      InducedAfter(g, scc, comps0, comps);
      EmittedSameNodes(g, wantDegenerateComp, val, scc, comps0, comps);
    }

    // Depth-first search from n. Returns the least number that n's part of the
    // stack can get back to.
    method Visit(n: nat, ghost gray: set<nat>) returns (min: nat)
      requires Valid(gray) && n < |g| && val[n] == 0
      requires forall x :: x in gray ==> Reach(g, x, n)
      modifies this
      ensures Valid(gray)
      ensures VisitResult(g, old(val), old(stack), old(lastId), val, stack, n, min)
      decreases White(val)
    {
      hide Stacked, Colored, Linked, Scanned, Emitted, Induced, Mapped, Reach, LowWitness, LowBound;
      ghost var b := |stack|;
      Enter(g, val, stack, lastId, gray, n);
      NumberKeeps(g, wantDegenerateComp, val, scc, comps, n, lastId + 1);
      lastId := lastId + 1;
      min := lastId;
      val := val[n := min];
      stack := stack + [n];
      ScanStart(g, val, old(stack), lastId, n);
      var k := 0;
      while k < |g[n]|
        invariant 0 <= k <= |g[n]|
        invariant Valid(gray + {n})
        invariant Extends(old(val), old(stack), val, stack) && val[n] == old(lastId) + 1
        invariant b < |stack| && stack[b] == n
        invariant Scanned(g, val, stack, b, n, k, min)
      {
        var t := g[n][k];
        var m;
        if val[t] == 0 {
          ghost var val0, stack0, id0 := val, stack, lastId;
          ReachThrough(g, gray, n, t);
          WhiteShrinks(old(val), old(stack), val, stack, n);
          m := Visit(t, gray + {n});
          ScanChild(g, val0, stack0, id0, val, stack, lastId, b, n, k, min, m);
        } else {
          m := val[t];
          ScanVisited(g, val, stack, lastId, b, n, k, min);
        }
        if m < min {
          min := m;
        }
        k := k + 1;
      }
      ScanEnd(g, val, stack, lastId, b, n, min);
      if val[n] == min {
        FinishExtends(g, old(val), old(stack), old(lastId), val, stack, lastId);
        FinishComponent(n, b, gray);
      } else {
        Stay(g, val, stack, lastId, gray, b);
      }
    }
  }

  // With no active node the stack is empty.
  lemma IdleStack(g: Graph, val: seq<nat>, stack: seq<nat>, id: nat)
    requires Invariant(g, val, stack, id, {})
    ensures stack == []
    ensures forall v :: 0 <= v < |g| && val[v] != 0 ==> val[v] == INF
  {
    VisitedBound(val);
    assert |stack| > 0 ==> BackTo(g, stack, {}, 0);
  }

  // The whole run: every node is visited, and all that is emitted on the way is
  // the condensation of g.
  method Process(g: Graph, want: bool) returns (st: SccState)
    requires WellFormed(g) && |g| < INF
    ensures fresh(st) && st.g == g && st.wantDegenerateComp == want
    ensures st.stack == [] && st.Output()
    ensures forall v :: 0 <= v < |g| ==> st.val[v] == INF
    ensures forall u, v :: 0 <= u < |g| && 0 <= v < |g| && u != v ==>
              (st.scc[u].Some? && st.scc[u] == st.scc[v] <==> Mutual(g, u, v))
    ensures forall u :: 0 <= u < |g| ==>
              (st.scc[u].Some? <==> want || exists v: nat :: v < |g| && v != u && Mutual(g, u, v))
    ensures forall a, b: nat :: (a, b) in st.mapEdges <==>
              a != b && exists e: EdgeId :: IsEdge(g, e) && st.scc[e.0] == Some(a) && st.scc[Head(g, e)] == Some(b)
    ensures forall a, b: nat :: (a, b) in st.mapEdges ==> b < a < st.compCount
  {
    hide Stacked, Colored, Linked, Listed, Classes, Induced, Mapped, Reach, LowBound, LowWitness;
    st := new SccState(g, want);
    for n := 0 to |g|
      invariant st.g == g && st.wantDegenerateComp == want && fresh(st)
      invariant st.Valid({})
      invariant forall v :: 0 <= v < n ==> st.val[v] != 0
    {
      if st.val[n] == 0 {
        var m := st.Visit(n, {});
      }
    }
    IdleStack(g, st.val, st.stack, st.lastId);
    ComponentsExact(g, want, st.val, st.scc, st.comps);
    MapExact(g, want, st.val, st.scc, st.comps, st.mapEdges, st.via);
  }

  // Two distinct nodes share an emitted component iff each reaches the other,
  // and a node is left out iff it is alone in its class and that is not wanted.
  lemma ComponentsExact(g: Graph, want: bool, val: seq<nat>, scc: seq<Option<nat>>, comps: seq<Component>)
    requires Emitted(g, want, val, scc, comps)
    requires forall v :: 0 <= v < |g| ==> val[v] == INF
    ensures forall u, v :: 0 <= u < |g| && 0 <= v < |g| && u != v ==>
              (scc[u].Some? && scc[u] == scc[v] <==> Mutual(g, u, v))
    ensures forall u :: 0 <= u < |g| ==>
              (scc[u].Some? <==> want || exists v: nat :: v < |g| && v != u && Mutual(g, u, v))
  {
    forall u | 0 <= u < |g|
      ensures scc[u].Some? <==> want || exists v: nat :: v < |g| && v != u && Mutual(g, u, v)
    {
      if scc[u].Some? && !want {
        var c := scc[u].value;
        assert u in comps[c].nodes;
        assert |comps[c].nodes - {u}| > 0;
        var v: nat :| v in comps[c].nodes - {u};
        assert Mutual(g, u, v);
      } else if scc[u].None? {
        ReachRefl(g, u);
        assert Mutual(g, u, u);
      }
    }
  }

  // The map has an edge between two components iff the graph has one, and its
  // edges go from later to earlier components.
  lemma MapExact(g: Graph, want: bool, val: seq<nat>, scc: seq<Option<nat>>, comps: seq<Component>,
                 mapEdges: seq<(nat, nat)>, via: seq<EdgeId>)
    requires WellFormed(g) && Emitted(g, want, val, scc, comps)
    requires Mapped(g, scc, mapEdges, via, |comps|, |g|, 0)
    ensures forall a, b: nat :: (a, b) in mapEdges <==>
              a != b && exists e: EdgeId :: IsEdge(g, e) && scc[e.0] == Some(a) && scc[Head(g, e)] == Some(b)
    ensures forall a, b: nat :: (a, b) in mapEdges ==> b < a < |comps|
  {
    forall a, b: nat
      ensures (a, b) in mapEdges <==>
                a != b && exists e: EdgeId :: IsEdge(g, e) && scc[e.0] == Some(a) && scc[Head(g, e)] == Some(b)
      ensures (a, b) in mapEdges ==> b < a < |comps|
    {
      if (a, b) in mapEdges {
        var i :| 0 <= i < |mapEdges| && mapEdges[i] == (a, b);
        assert Crosses(g, scc, via[i]);
      }
      if e: EdgeId :| a != b && IsEdge(g, e) && scc[e.0] == Some(a) && scc[Head(g, e)] == Some(b) {
        assert Crosses(g, scc, e) && Walked(scc, |comps|, |g|, 0, e);
        var i :| 0 <= i < |via| && via[i] == e;
        assert mapEdges[i] == (a, b);
      }
    }
  }

  ghost predicate MapWalk(mapEdges: seq<(nat, nat)>, p: seq<nat>) {
    |p| > 0 && forall i :: 0 <= i < |p| - 1 ==> (p[i], p[i + 1]) in mapEdges
  }

  // Map edges that all go to earlier components close no cycle.
  lemma {:induction false} MapAcyclic(mapEdges: seq<(nat, nat)>, p: seq<nat>)
    requires forall a, b: nat :: (a, b) in mapEdges ==> b < a
    requires MapWalk(mapEdges, p) && |p| > 1
    ensures p[|p| - 1] < p[0]
  {
    assert (p[0], p[1]) in mapEdges;
    if |p| > 2 {
      forall i | 0 <= i < |p[1..]| - 1
        ensures (p[1..][i], p[1..][i + 1]) in mapEdges
      {
        assert (p[i + 1], p[i + 2]) in mapEdges;
      }
      MapAcyclic(mapEdges, p[1..]);
    }
  }
}
