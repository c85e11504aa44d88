// The depth-first search for biconnected blocks in bcomps: connection within a set
// of nodes, and what a finished call says about the edges it leaves on the stack.
module BlockSearch {
  import opened Wrappers
  import opened Digraph

  // ---------------------------------------------------------------- connection

  // Every edge is listed at both of its ends.
  ghost predicate Undirected(g: Graph) {
    WellFormed(g) && forall u: nat, v: nat :: Edge(g, u, v) ==> Edge(g, v, u)
  }

  ghost predicate Walk(g: Graph, s: set<nat>, p: seq<nat>) {
    Path(g, p) && forall i :: 0 <= i < |p| ==> p[i] in s
  }

  // a path from a to b stays within s.
  ghost predicate Conn(g: Graph, s: set<nat>, a: nat, b: nat) {
    exists p :: Walk(g, s, p) && p[0] == a && p[|p| - 1] == b
  }

  // s is connected, and stays so when any one node is taken out.
  ghost predicate Biconnected(g: Graph, s: set<nat>) {
    forall x: nat, a: nat, b: nat :: a in s - {x} && b in s - {x} ==> Conn(g, s - {x}, a, b)
  }

  lemma ConnRefl(g: Graph, s: set<nat>, a: nat)
    requires a in s
    ensures Conn(g, s, a, a)
  {
    assert Walk(g, s, [a]);
  }

  lemma ConnTrans(g: Graph, s: set<nat>, a: nat, b: nat, c: nat)
    requires Conn(g, s, a, b) && Conn(g, s, b, c)
    ensures Conn(g, s, a, c)
  {
    var p :| Walk(g, s, p) && p[0] == a && p[|p| - 1] == b;
    var q :| Walk(g, s, q) && q[0] == b && q[|q| - 1] == c;
    var r := p + q[1..];
    assert r[|r| - 1] == c;
    forall i | 0 <= i < |r| - 1
      ensures Edge(g, r[i], r[i + 1])
    {
      if i < |p| - 1 {
        assert Edge(g, p[i], p[i + 1]);
      } else {
        var j := i - (|p| - 1);
        assert r[i] == q[j] && r[i + 1] == q[j + 1];
        assert Edge(g, q[j], q[j + 1]);
      }
    }
    assert Walk(g, s, r);
  }

  lemma ConnWider(g: Graph, s: set<nat>, t: set<nat>, a: nat, b: nat)
    requires Conn(g, s, a, b) && s <= t
    ensures Conn(g, t, a, b)
  {
    var p :| Walk(g, s, p) && p[0] == a && p[|p| - 1] == b;
    assert Walk(g, t, p);
  }

  lemma ConnStep(g: Graph, s: set<nat>, t: set<nat>, a: nat, b: nat, c: nat)
    requires Conn(g, s, a, b) && s <= t && Edge(g, b, c) && c in t
    ensures Conn(g, t, a, c)
  {
    ConnWider(g, s, t, a, b);
    var p :| Walk(g, s, p) && p[0] == a && p[|p| - 1] == b;
    var q := [b, c];
    assert Walk(g, t, q) && q[0] == b && q[|q| - 1] == c;
    ConnTrans(g, t, a, b, c);
  }

  lemma {:induction false} ConnSym(g: Graph, s: set<nat>, a: nat, b: nat)
    requires Undirected(g) && Conn(g, s, a, b)
    ensures Conn(g, s, b, a)
  {
    var p :| Walk(g, s, p) && p[0] == a && p[|p| - 1] == b;
    var q := seq(|p|, i requires 0 <= i < |p| => p[|p| - 1 - i]);
    forall i | 0 <= i < |q| - 1
      ensures Edge(g, q[i], q[i + 1])
    {
      var j := |p| - 2 - i;
      assert Edge(g, p[j], p[j + 1]);
    }
    assert Walk(g, s, q);
  }

  // Within a set all of whose nodes are connected to one, any two are.
  lemma ConnVia(g: Graph, s: set<nat>, a: nat, b: nat, c: nat)
    requires Undirected(g) && Conn(g, s, a, c) && Conn(g, s, b, c)
    ensures Conn(g, s, a, b)
  {
    ConnSym(g, s, b, c);
    ConnTrans(g, s, a, c, b);
  }

  // A path from inside t to outside it uses an edge that leaves t.
  lemma ConnLeaves(g: Graph, s: set<nat>, t: set<nat>, a: nat, b: nat)
    requires Conn(g, s, a, b) && a in t && b !in t
    ensures exists y: nat, w: nat :: y in t && y in s && w !in t && w in s && Edge(g, y, w)
  {
    var p :| Walk(g, s, p) && p[0] == a && p[|p| - 1] == b;
    var i := 0;
    while p[i + 1] in t
      invariant 0 <= i < |p| - 1 && p[i] in t
      decreases |p| - i
    {
      i := i + 1;
    }
    assert Edge(g, p[i], p[i + 1]);
  }

  // ------------------------------------------------------------ the edge stack

  // An edge as one of its ends lists it: entry e.1 of node e.0.
  type HalfEdge = (nat, nat)

  ghost predicate IsEdge(g: Graph, e: HalfEdge) {
    e.0 < |g| && e.1 < |g[e.0]|
  }

  ghost function Head(g: Graph, e: HalfEdge): nat {
    if IsEdge(g, e) then g[e.0][e.1] else 0
  }

  ghost function Ends(g: Graph, s: seq<HalfEdge>): set<nat> {
    (set e | e in s :: e.0) + (set e | e in s :: Head(g, e))
  }

  lemma EndsSplit(g: Graph, a: seq<HalfEdge>, b: seq<HalfEdge>)
    ensures Ends(g, a + b) == Ends(g, a) + Ends(g, b)
  {
    assert forall e :: e in a + b <==> e in a || e in b;
    forall x
      ensures x in Ends(g, a + b) <==> x in Ends(g, a) + Ends(g, b)
    {
      if x in Ends(g, a) + Ends(g, b) {
        var e :| (e in a || e in b) && (x == e.0 || x == Head(g, e));
        assert e in a + b;
      }
    }
  }

  lemma EndsOne(g: Graph, e: HalfEdge)
    ensures Ends(g, [e]) == {e.0, Head(g, e)}
  {
    assert e in [e];
  }

  // ------------------------------------------------------- the result of a call

  // The nodes from u on among the ends of the edges a call on u has left on the
  // stack, and u: the part of its block that is not complete yet.
  ghost function Open(g: Graph, num: seq<nat>, seg: seq<HalfEdge>, u: nat): set<nat>
    requires u < |num|
  {
    {u} + set x | x in Ends(g, seg) && x < |num| && num[x] >= num[u]
  }

  // The stacked edges end among the open nodes and the active nodes from low on.
  ghost predicate SegmentEnds(g: Graph, num: seq<nat>, seg: seq<HalfEdge>, gray: set<nat>, low: nat, u: nat) {
    && u < |num|
    && (forall x :: x in Ends(g, seg) ==> x < |num| && num[x] >= low && (num[x] >= num[u] || x in gray))
    && (forall e :: e in seg ==> IsEdge(g, e) && e.0 < |num| && num[e.0] >= num[u])
    && (gray == {} ==> seg == [])
  }

  // Each node of o is connected to u within o.
  ghost predicate Rooted(g: Graph, o: set<nat>, u: nat) {
    u in o && forall h :: h in o ==> Conn(g, o, h, u)
  }

  // Within s, h is connected to a node next to an active node from low on, or next
  // to the parent.
  ghost predicate Exit(g: Graph, s: set<nat>, h: nat, num: seq<nat>, gray: set<nat>, parent: Option<nat>, low: nat) {
    exists y: nat, w: nat ::
      Conn(g, s, h, y) && Edge(g, y, w) && w in gray && w < |num| && (num[w] >= low || parent == Some(w))
  }

  // Whichever open node is taken out, the others still have an exit.
  ghost predicate Avoids(g: Graph, num: seq<nat>, o: set<nat>, gray: set<nat>, parent: Option<nat>, low: nat) {
    forall x, h :: x in o && h in o && h != x ==> Exit(g, o - {x}, h, num, gray, parent, low)
  }

  ghost predicate LowSeen(g: Graph, num: seq<nat>, o: set<nat>, gray: set<nat>, low: nat, u: nat) {
    && u < |num| && low <= num[u]
    && (low == num[u] || exists y: nat, w: nat :: y in o && w in gray && Edge(g, y, w) && w < |num| && num[w] == low)
  }

  // Where an edge from u or one of its descendants may lead.
  ghost predicate Bounded(num: seq<nat>, gray: set<nat>, parent: Option<nat>, low: nat, u: nat, w: nat) {
    && w < |num| && u < |num|
    && (num[w] >= num[u] || (w in gray && (num[w] >= low || parent == Some(w))))
  }

  ghost predicate DescendantsBounded(g: Graph, num: seq<nat>, gray: set<nat>, parent: Option<nat>, low: nat, u: nat) {
    && u < |num|
    && forall y: nat, w: nat :: y < |num| && num[y] > num[u] && Edge(g, y, w) ==>
         Bounded(num, gray, parent, low, u, w)
  }

  // The same for the first k edges of u itself.
  ghost predicate EdgesBounded(g: Graph, num: seq<nat>, gray: set<nat>, parent: Option<nat>, low: nat, u: nat, k: nat) {
    u < |g| && k <= |g[u]| && forall i :: 0 <= i < k ==> Bounded(num, gray, parent, low, u, g[u][i])
  }

  // What a call on u knows after the first k edges of u; seg is what it has put on
  // the stack, gray the nodes active before it.
  ghost predicate Searched(g: Graph, num: seq<nat>, seg: seq<HalfEdge>, gray: set<nat>, parent: Option<nat>,
                           low: nat, u: nat, k: nat)
  {
    && |num| == |g| && u < |g| && 0 < low
    && SegmentEnds(g, num, seg, gray, low, u)
    && Rooted(g, Open(g, num, seg, u), u)
    && Avoids(g, num, Open(g, num, seg, u), gray, parent, low)
    && LowSeen(g, num, Open(g, num, seg, u), gray, low, u)
    && DescendantsBounded(g, num, gray, parent, low, u)
    && EdgesBounded(g, num, gray, parent, low, u, k)
  }

  // Numbers stay, and new ones are larger than all earlier ones.
  ghost predicate Extends(num0: seq<nat>, count0: nat, num: seq<nat>) {
    && |num| == |num0|
    && (forall v :: 0 <= v < |num| && num0[v] != 0 ==> num[v] == num0[v])
    && (forall v :: 0 <= v < |num| && num0[v] == 0 && num[v] != 0 ==> num[v] > count0)
  }

  // ------------------------------------------------------------ joining a child

  lemma RootedUnion(g: Graph, o1: set<nat>, o2: set<nat>, u: nat, v: nat)
    requires Rooted(g, o1, u) && Rooted(g, o2, v) && Edge(g, v, u)
    ensures Rooted(g, o1 + o2, u)
    ensures forall h :: h in o2 ==> Conn(g, o2 + {u}, h, u)
  {
    forall h | h in o2
      ensures Conn(g, o2 + {u}, h, u)
    {
      ConnStep(g, o2, o2 + {u}, h, v, u);
    }
    forall h | h in o1 + o2
      ensures Conn(g, o1 + o2, h, u)
    {
      if h in o1 {
        ConnWider(g, o1, o1 + o2, h, u);
      } else {
        ConnWider(g, o2 + {u}, o1 + o2, h, u);
      }
    }
  }

  lemma ExitWider(g: Graph, s: set<nat>, t: set<nat>, h: nat, num: seq<nat>, gray: set<nat>, parent: Option<nat>,
                  low: nat, low': nat)
    requires Exit(g, s, h, num, gray, parent, low) && s <= t && low' <= low
    ensures Exit(g, t, h, num, gray, parent, low')
  {
    var y: nat, w: nat :|
      Conn(g, s, h, y) && Edge(g, y, w) && w in gray && w < |num| && (num[w] >= low || parent == Some(w));
    ConnWider(g, s, t, h, y);
  }

  // u itself exits to its parent.
  lemma ExitByParent(g: Graph, s: set<nat>, t: set<nat>, h: nat, u: nat, num: seq<nat>, gray: set<nat>, p: nat,
                     low: nat)
    requires Conn(g, s, h, u) && s <= t
    requires Edge(g, u, p) && p in gray && p < |num|
    ensures Exit(g, t, h, num, gray, Some(p), low)
  {
    ConnWider(g, s, t, h, u);
  }

  // A node of the child's part, when u is taken out: it leaves by the low edge.
  lemma ExitByLow(g: Graph, o2: set<nat>, t: set<nat>, h: nat, v: nat, num: seq<nat>, gray: set<nat>,
                  parent: Option<nat>,
                  low2: nat, low': nat, y: nat, w: nat)
    requires Undirected(g) && Rooted(g, o2, v) && h in o2 && y in o2 && o2 <= t
    requires w in gray && Edge(g, y, w) && w < |num| && num[w] == low2 && low' <= low2
    ensures Exit(g, t, h, num, gray, parent, low')
  {
    ConnVia(g, o2, h, y, v);
    ConnWider(g, o2, t, h, y);
  }

  // A node of the child's part, when another one of it is taken out.
  lemma ExitFromChild(g: Graph, s: set<nat>, t: set<nat>, h: nat, u: nat, num: seq<nat>, gray: set<nat>, p: nat,
                      low2: nat, low': nat)
    requires Exit(g, s, h, num, gray + {u}, Some(u), low2) && s + {u} <= t && low' <= low2
    requires Edge(g, u, p) && p in gray && p < |num|
    ensures Exit(g, t, h, num, gray, Some(p), low')
  {
    var y: nat, w: nat :|
      Conn(g, s, h, y) && Edge(g, y, w) && w in gray + {u} && w < |num| && (num[w] >= low2 || Some(u) == Some(w));
    if w == u {
      ConnStep(g, s, t, h, y, u);
      ExitByParent(g, t, t, h, u, num, gray, p, low');
    } else {
      ConnWider(g, s, t, h, y);
    }
  }

  lemma AvoidOne(g: Graph, num: seq<nat>, o1: set<nat>, o2: set<nat>, gray: set<nat>, u: nat, v: nat, p: nat,
                 low1: nat, low2: nat, low': nat, x: nat, h: nat, y: nat, w: nat)
    requires Undirected(g) && Rooted(g, o1, u) && Rooted(g, o2, v) && o1 !! o2 && Edge(g, v, u)
    requires x in o1 && h in o1 && h != x ==> Exit(g, o1 - {x}, h, num, gray, Some(p), low1)
    requires x in o2 && h in o2 && h != x ==> Exit(g, o2 - {x}, h, num, gray + {u}, Some(u), low2)
    requires Edge(g, u, p) && p in gray && p < |num| && low' <= low1 && low' <= low2
    requires y in o2 && w in gray && Edge(g, y, w) && w < |num| && num[w] == low2
    requires x in o1 + o2 && h in o1 + o2 && h != x
    ensures Exit(g, o1 + o2 - {x}, h, num, gray, Some(p), low')
  {
    hide Exit, Undirected, Edge;
    var t := o1 + o2 - {x};
    if x in o1 && h in o1 {
      ExitWider(g, o1 - {x}, t, h, num, gray, Some(p), low1, low');
    } else if h in o1 {
      ExitByParent(g, o1, t, h, u, num, gray, p, low');
    } else if x == u {
      ExitByLow(g, o2, t, h, v, num, gray, Some(p), low2, low', y, w);
    } else if x in o1 {
      RootedUnion(g, o1, o2, u, v);
      ExitByParent(g, o2 + {u}, t, h, u, num, gray, p, low');
    } else {
      ExitFromChild(g, o2 - {x}, t, h, u, num, gray, p, low2, low');
    }
  }

  lemma AvoidsUnion(g: Graph, num: seq<nat>, o1: set<nat>, o2: set<nat>, gray: set<nat>, u: nat, v: nat, p: nat,
                    low1: nat, low2: nat, low': nat)
    requires Undirected(g) && Rooted(g, o1, u) && Rooted(g, o2, v) && o1 !! o2 && Edge(g, v, u)
    requires Avoids(g, num, o1, gray, Some(p), low1) && Avoids(g, num, o2, gray + {u}, Some(u), low2)
    requires Edge(g, u, p) && p in gray && p < |num| && low' <= low1 && low' <= low2
    requires exists y: nat, w: nat :: y in o2 && w in gray && Edge(g, y, w) && w < |num| && num[w] == low2
    ensures Avoids(g, num, o1 + o2, gray, Some(p), low')
  {
    var y: nat, w: nat :| y in o2 && w in gray && Edge(g, y, w) && w < |num| && num[w] == low2;
    hide Exit, Rooted, Undirected, Edge;
    forall x, h | x in o1 + o2 && h in o1 + o2 && h != x
      ensures Exit(g, o1 + o2 - {x}, h, num, gray, Some(p), low')
    {
      AvoidOne(g, num, o1, o2, gray, u, v, p, low1, low2, low', x, h, y, w);
    }
  }

  // ------------------------------------------------------------- a whole block

  // When all exits of the child's part lead to u, the part and u are biconnected.
  lemma BlockBiconnected(g: Graph, num: seq<nat>, o: set<nat>, gray: set<nat>, u: nat, v: nat, low: nat)
    requires Undirected(g) && Rooted(g, o, v) && u !in o && Edge(g, v, u)
    requires Avoids(g, num, o, gray + {u}, Some(u), low)
    requires forall w :: w in gray && w < |num| ==> num[w] < low
    ensures Biconnected(g, o + {u})
  {
    var b := o + {u};
    forall x: nat, c: nat, d: nat | c in b - {x} && d in b - {x}
      ensures Conn(g, b - {x}, c, d)
    {
      if x == u {
        assert b - {x} == o;
        ConnVia(g, o, c, d, v);
      } else {
        ToTop(g, num, o, gray, u, v, low, x, c);
        ToTop(g, num, o, gray, u, v, low, x, d);
        ConnVia(g, b - {x}, c, d, u);
      }
    }
  }

  lemma ToTop(g: Graph, num: seq<nat>, o: set<nat>, gray: set<nat>, u: nat, v: nat, low: nat, x: nat, c: nat)
    requires Undirected(g) && Rooted(g, o, v) && u !in o && Edge(g, v, u)
    requires Avoids(g, num, o, gray + {u}, Some(u), low)
    requires forall w :: w in gray && w < |num| ==> num[w] < low
    requires x != u && c in o + {u} - {x}
    ensures Conn(g, o + {u} - {x}, c, u)
  {
    var t := o + {u} - {x};
    if c == u {
      ConnRefl(g, t, u);
    } else if x in o {
      assert Exit(g, o - {x}, c, num, gray + {u}, Some(u), low);
      var y: nat, w: nat :|
        Conn(g, o - {x}, c, y) && Edge(g, y, w)
        && w in gray + {u} && w < |num| && (num[w] >= low || Some(u) == Some(w));
      ConnStep(g, o - {x}, t, c, y, u);
    } else {
      ConnStep(g, o, t, c, v, u);
    }
  }

  // -------------------------------------------------------- one edge at a time

  // The node u, its parent and the nodes active before it.
  ghost predicate Active(g: Graph, num: seq<nat>, gray: set<nat>, parent: Option<nat>, u: nat) {
    && |num| == |g| && u < |g| && num[u] > 0
    && (forall x :: x in gray ==> x < |g| && 0 < num[x] < num[u])
    && (gray == {} <==> parent.None?)
    && (parent.Some? ==> parent.value in gray && Edge(g, u, parent.value))
  }

  lemma SearchStart(g: Graph, num: seq<nat>, gray: set<nat>, parent: Option<nat>, u: nat)
    requires Active(g, num, gray, parent, u)
    requires forall y :: 0 <= y < |num| ==> num[y] <= num[u]
    ensures Searched(g, num, [], gray, parent, num[u], u, 0)
  {
    assert Ends(g, []) == {};
    assert Open(g, num, [], u) == {u};
    ConnRefl(g, {u}, u);
  }

  // An edge to the parent, to a node numbered later, or a loop.
  lemma SearchSkip(g: Graph, num: seq<nat>, seg: seq<HalfEdge>, gray: set<nat>, parent: Option<nat>, low: nat, u: nat,
                   k: nat)
    requires Active(g, num, gray, parent, u)
    requires Searched(g, num, seg, gray, parent, low, u, k)
    requires k < |g[u]| && g[u][k] < |g| && (num[g[u][k]] >= num[u] || parent == Some(g[u][k]))
    ensures Searched(g, num, seg, gray, parent, low, u, k + 1)
  {
    hide Rooted, Avoids, LowSeen, SegmentEnds, DescendantsBounded, Open;
  }

  lemma AvoidsLower(g: Graph, num: seq<nat>, o: set<nat>, gray: set<nat>, parent: Option<nat>, low: nat, low': nat)
    requires Avoids(g, num, o, gray, parent, low) && low' <= low
    ensures Avoids(g, num, o, gray, parent, low')
  {
    hide Exit;
    forall x, h | x in o && h in o && h != x
      ensures Exit(g, o - {x}, h, num, gray, parent, low')
    {
      ExitWider(g, o - {x}, o - {x}, h, num, gray, parent, low, low');
    }
  }

  lemma BoundedLower(g: Graph, num: seq<nat>, gray: set<nat>, parent: Option<nat>, low: nat, low': nat, u: nat, k: nat)
    requires DescendantsBounded(g, num, gray, parent, low, u) && EdgesBounded(g, num, gray, parent, low, u, k)
    requires low' <= low
    ensures DescendantsBounded(g, num, gray, parent, low', u) && EdgesBounded(g, num, gray, parent, low', u, k)
  {
  }

  ghost function Min(a: nat, b: nat): nat {
    if a < b then a else b
  }

  // An edge to an active node other than the parent, which goes on the stack.
  lemma SearchBack(g: Graph, num: seq<nat>, seg: seq<HalfEdge>, gray: set<nat>, parent: Option<nat>, low: nat, u: nat,
                   k: nat)
    requires Active(g, num, gray, parent, u)
    requires Searched(g, num, seg, gray, parent, low, u, k)
    requires k < |g[u]| && g[u][k] in gray
    ensures Searched(g, num, seg + [(u, k)], gray, parent, Min(low, num[g[u][k]]), u, k + 1)
  {
    var w, o, low' := g[u][k], Open(g, num, seg, u), Min(low, num[g[u][k]]);
    assert Edge(g, u, w);
    BackOpen(g, num, seg, gray, u, k);
    BackEnds(g, num, seg, gray, low, u, k);
    AvoidsLower(g, num, o, gray, parent, low, low');
    BoundedLower(g, num, gray, parent, low, low', u, k);
    RootedHas(g, o, u);
    hide Avoids, Rooted, SegmentEnds, Open, DescendantsBounded, Edge;
    BackBounds(g, num, gray, parent, low', u, k);
    BackLow(g, num, o, gray, low, u, w);
  }

  lemma BackBounds(g: Graph, num: seq<nat>, gray: set<nat>, parent: Option<nat>, low: nat, u: nat, k: nat)
    requires EdgesBounded(g, num, gray, parent, low, u, k) && k < |g[u]| && u < |num|
    requires g[u][k] in gray && g[u][k] < |num| && low <= num[g[u][k]]
    ensures EdgesBounded(g, num, gray, parent, low, u, k + 1)
  {
  }

  lemma BackLow(g: Graph, num: seq<nat>, o: set<nat>, gray: set<nat>, low: nat, u: nat, w: nat)
    requires LowSeen(g, num, o, gray, low, u) && u in o && w in gray && w < |num| && Edge(g, u, w)
    ensures LowSeen(g, num, o, gray, Min(low, num[w]), u)
  {
  }

  lemma RootedHas(g: Graph, o: set<nat>, u: nat)
    requires Rooted(g, o, u)
    ensures u in o
  {
  }

  lemma BackOpen(g: Graph, num: seq<nat>, seg: seq<HalfEdge>, gray: set<nat>, u: nat, k: nat)
    requires |num| == |g| && IsEdge(g, (u, k)) && g[u][k] < |g| && num[g[u][k]] < num[u]
    ensures Open(g, num, seg + [(u, k)], u) == Open(g, num, seg, u)
  {
    EndsSplit(g, seg, [(u, k)]);
    EndsOne(g, (u, k));
  }

  lemma BackEnds(g: Graph, num: seq<nat>, seg: seq<HalfEdge>, gray: set<nat>, low: nat, u: nat, k: nat)
    requires SegmentEnds(g, num, seg, gray, low, u)
    requires |num| == |g| && IsEdge(g, (u, k)) && g[u][k] in gray && g[u][k] < |g| && low <= num[u]
    ensures SegmentEnds(g, num, seg + [(u, k)], gray, Min(low, num[g[u][k]]), u)
  {
    EndsSplit(g, seg, [(u, k)]);
    EndsOne(g, (u, k));
  }

  // ------------------------------------------------------------ after a child

  // All that u knew still holds with the numbers given since.
  lemma SearchedLater(g: Graph, num1: seq<nat>, count1: nat, num2: seq<nat>, seg: seq<HalfEdge>, gray: set<nat>,
                      parent: Option<nat>, low: nat, u: nat, k: nat)
    requires Active(g, num1, gray, parent, u) && Extends(num1, count1, num2)
    requires Searched(g, num1, seg, gray, parent, low, u, k)
    ensures Active(g, num2, gray, parent, u)
    ensures Open(g, num2, seg, u) == Open(g, num1, seg, u)
    ensures SegmentEnds(g, num2, seg, gray, low, u)
    ensures Avoids(g, num2, Open(g, num1, seg, u), gray, parent, low)
    ensures LowSeen(g, num2, Open(g, num1, seg, u), gray, low, u)
    ensures EdgesBounded(g, num2, gray, parent, low, u, k)
    ensures forall y: nat, w: nat :: y < |num1| && num1[y] > num1[u] && Edge(g, y, w) ==>
              Bounded(num2, gray, parent, low, u, w)
  {
    hide Avoids, Rooted, Exit;
    var o := Open(g, num1, seg, u);
    AvoidsLater(g, num1, count1, num2, o, gray, parent, low);
    SegmentLater(g, num1, count1, num2, seg, gray, low, u);
    LowLater(g, num1, count1, num2, o, gray, low, u);
    hide SegmentEnds, LowSeen, Open;
    BoundsLater(g, num1, count1, num2, gray, parent, low, u, k);
  }

  lemma SegmentLater(g: Graph, num1: seq<nat>, count1: nat, num2: seq<nat>, seg: seq<HalfEdge>, gray: set<nat>,
                     low: nat, u: nat)
    requires Extends(num1, count1, num2) && SegmentEnds(g, num1, seg, gray, low, u) && 0 < low && u < |num1|
    requires num1[u] != 0
    ensures SegmentEnds(g, num2, seg, gray, low, u)
    ensures Open(g, num2, seg, u) == Open(g, num1, seg, u)
  {
    hide Ends;
  }

  lemma LowLater(g: Graph, num1: seq<nat>, count1: nat, num2: seq<nat>, o: set<nat>, gray: set<nat>, low: nat, u: nat)
    requires Extends(num1, count1, num2) && LowSeen(g, num1, o, gray, low, u) && num1[u] != 0
    requires forall x :: x in gray ==> x < |num1| && num1[x] > 0
    ensures LowSeen(g, num2, o, gray, low, u)
  {
  }

  lemma BoundsLater(g: Graph, num1: seq<nat>, count1: nat, num2: seq<nat>, gray: set<nat>, parent: Option<nat>,
                    low: nat, u: nat, k: nat)
    requires Extends(num1, count1, num2) && u < |num1| && num1[u] != 0
    requires forall x :: x in gray ==> x < |num1| && num1[x] > 0
    requires DescendantsBounded(g, num1, gray, parent, low, u) && EdgesBounded(g, num1, gray, parent, low, u, k)
    ensures EdgesBounded(g, num2, gray, parent, low, u, k)
    ensures forall y: nat, w: nat :: y < |num1| && num1[y] > num1[u] && Edge(g, y, w) ==>
              Bounded(num2, gray, parent, low, u, w)
  {
    forall y: nat, w: nat | y < |num1| && num1[y] > num1[u] && Edge(g, y, w)
      ensures Bounded(num2, gray, parent, low, u, w)
    {
      assert Bounded(num1, gray, parent, low, u, w);
    }
  }

  lemma AvoidsLater(g: Graph, num1: seq<nat>, count1: nat, num2: seq<nat>, o: set<nat>, gray: set<nat>,
                    parent: Option<nat>, low: nat)
    requires Extends(num1, count1, num2) && (forall x :: x in gray ==> x < |num1| && num1[x] > 0)
    requires Avoids(g, num1, o, gray, parent, low)
    ensures Avoids(g, num2, o, gray, parent, low)
  {
    forall x, h | x in o && h in o && h != x
      ensures Exit(g, o - {x}, h, num2, gray, parent, low)
    {
      assert Exit(g, o - {x}, h, num1, gray, parent, low);
    }
  }

  // What the call on child v leaves is bounded for u as well.
  lemma ChildBounded(g: Graph, num1: seq<nat>, count1: nat, num2: seq<nat>, gray: set<nat>, parent: Option<nat>,
                     low: nat, u: nat, v: nat, low2: nat)
    requires Active(g, num2, gray, parent, u) && Extends(num1, count1, num2) && |num1| == |g|
    requires v < |num1| && num1[v] == 0 && num2[v] == count1 + 1 && num2[u] <= count1
    requires Injective(num2)
    requires forall y: nat, w: nat :: y < |num1| && num1[y] > num1[u] && Edge(g, y, w) ==>
              Bounded(num2, gray, parent, low, u, w)
    requires num1[u] == num2[u]
    requires DescendantsBounded(g, num2, gray + {u}, Some(u), low2, v)
    requires EdgesBounded(g, num2, gray + {u}, Some(u), low2, v, |g[v]|)
    ensures DescendantsBounded(g, num2, gray, parent, Min(low, low2), u)
  {
    var low' := Min(low, low2);
    forall y: nat, w: nat | y < |num2| && num2[y] > num2[u] && Edge(g, y, w)
      ensures Bounded(num2, gray, parent, low', u, w)
    {
      if num1[y] != 0 {
        assert Bounded(num2, gray, parent, low, u, w);
      } else {
        if y == v {
          var i :| 0 <= i < |g[v]| && g[v][i] == w;
        }
        assert Bounded(num2, gray + {u}, Some(u), low2, v, w);
      }
    }
  }

  ghost predicate Injective(num: seq<nat>) {
    forall x, y :: 0 <= x < |num| && 0 <= y < |num| && num[x] == num[y] != 0 ==> x == y
  }

  // The child's part is complete: it and u are a block, which has gone from the
  // stack, and u goes on as before.
  lemma SearchPopped(g: Graph, num1: seq<nat>, count1: nat, num2: seq<nat>, seg: seq<HalfEdge>, seg2: seq<HalfEdge>,
                     gray: set<nat>, parent: Option<nat>, low: nat, low2: nat, u: nat, k: nat)
    requires Undirected(g) && Active(g, num1, gray, parent, u) && Extends(num1, count1, num2) && Injective(num2)
    requires Searched(g, num1, seg, gray, parent, low, u, k) && k < |g[u]|
    requires var v := g[u][k];
             && v < |g| && num1[v] == 0 && num2[v] == count1 + 1 && num1[u] <= count1
             && Searched(g, num2, seg2, gray + {u}, Some(u), low2, v, |g[v]|)
    requires low2 >= num1[u]
    ensures Searched(g, num2, seg, gray, parent, Min(low, low2), u, k + 1)
    ensures Min(low, low2) == low
  {
    SearchedLater(g, num1, count1, num2, seg, gray, parent, low, u, k);
    ChildBounded(g, num1, count1, num2, gray, parent, low, u, g[u][k], low2);
    hide Avoids, Rooted, SegmentEnds, DescendantsBounded, Open;
  }

  // The child's part joins that of u.
  lemma SearchStays(g: Graph, num1: seq<nat>, count1: nat, num2: seq<nat>, seg: seq<HalfEdge>, seg2: seq<HalfEdge>,
                    gray: set<nat>, parent: Option<nat>, low: nat, low2: nat, u: nat, k: nat)
    requires Undirected(g) && Active(g, num1, gray, parent, u) && Extends(num1, count1, num2) && Injective(num2)
    requires Searched(g, num1, seg, gray, parent, low, u, k) && k < |g[u]|
    requires var v := g[u][k];
             && v < |g| && num1[v] == 0 && num2[v] == count1 + 1 && num1[u] <= count1
             && Searched(g, num2, seg2, gray + {u}, Some(u), low2, v, |g[v]|)
    requires low2 < num1[u] && forall y :: 0 <= y < |num1| ==> num1[y] <= count1
    ensures Searched(g, num2, seg + [(u, k)] + seg2, gray, parent, Min(low, low2), u, k + 1)
  {
    var v, o1, o2 := g[u][k], Open(g, num1, seg, u), Open(g, num2, seg2, g[u][k]);
    assert Edge(g, u, v);
    SearchedLater(g, num1, count1, num2, seg, gray, parent, low, u, k);
    ChildBounded(g, num1, count1, num2, gray, parent, low, u, v, low2);
    OpenApart(g, num1, count1, num2, seg, seg2, gray, low, low2, u, k);
    LowFromChild(g, num2, o2, gray, low2, u, v);
    JoinedOpen(g, num2, seg, seg2, gray, low, low2, u, k);
    JoinedSegment(g, num2, seg, seg2, gray, low, low2, u, k);
    hide Avoids, Rooted, SegmentEnds, DescendantsBounded, Open, LowSeen, Extends, Injective;
    JoinedParts(g, num2, o1, o2, gray, parent, low, low2, u, v);
    JoinedEdges(g, num2, gray, parent, low, low2, u, k);
  }

  lemma JoinedParts(g: Graph, num: seq<nat>, o1: set<nat>, o2: set<nat>, gray: set<nat>, parent: Option<nat>,
                    low: nat, low2: nat, u: nat, v: nat)
    requires Undirected(g) && Edge(g, u, v) && Active(g, num, gray, parent, u) && gray != {}
    requires Rooted(g, o1, u) && Rooted(g, o2, v) && o1 !! o2
    requires Avoids(g, num, o1, gray, parent, low) && Avoids(g, num, o2, gray + {u}, Some(u), low2)
    requires LowSeen(g, num, o1, gray, low, u)
    requires exists y: nat, w: nat :: y in o2 && w in gray && Edge(g, y, w) && w < |num| && num[w] == low2
    requires low2 < num[u]
    ensures Rooted(g, o1 + o2, u)
    ensures Avoids(g, num, o1 + o2, gray, parent, Min(low, low2))
    ensures LowSeen(g, num, o1 + o2, gray, Min(low, low2), u)
  {
    assert Edge(g, v, u);
    RootedUnion(g, o1, o2, u, v);
    AvoidsUnion(g, num, o1, o2, gray, u, v, parent.value, low, low2, Min(low, low2));
    hide Avoids, Rooted, Undirected;
  }

  lemma JoinedEdges(g: Graph, num: seq<nat>, gray: set<nat>, parent: Option<nat>, low: nat, low2: nat, u: nat, k: nat)
    requires EdgesBounded(g, num, gray, parent, low, u, k) && k < |g[u]| && g[u][k] < |num| && u < |num|
    requires num[g[u][k]] >= num[u]
    ensures EdgesBounded(g, num, gray, parent, Min(low, low2), u, k + 1)
  {
  }

  lemma LowFromChild(g: Graph, num: seq<nat>, o2: set<nat>, gray: set<nat>, low2: nat, u: nat, v: nat)
    requires LowSeen(g, num, o2, gray + {u}, low2, v)
    requires u < |num| && low2 < num[u] < num[v]
    ensures gray != {}
    ensures exists y: nat, w: nat :: y in o2 && w in gray && Edge(g, y, w) && w < |num| && num[w] == low2
  {
  }

  lemma JoinedEnds(g: Graph, seg: seq<HalfEdge>, seg2: seq<HalfEdge>, e: HalfEdge)
    ensures Ends(g, seg + [e] + seg2) == Ends(g, seg) + Ends(g, seg2) + {e.0, Head(g, e)}
    ensures forall f :: f in seg + [e] + seg2 <==> f in seg || f == e || f in seg2
  {
    EndsSplit(g, seg, [e]);
    EndsSplit(g, seg + [e], seg2);
    EndsOne(g, e);
  }

  lemma JoinedOpen(g: Graph, num: seq<nat>, seg: seq<HalfEdge>, seg2: seq<HalfEdge>, gray: set<nat>, low: nat,
                   low2: nat, u: nat, k: nat)
    requires |num| == |g| && IsEdge(g, (u, k)) && g[u][k] < |g| && num[u] < num[g[u][k]]
    requires forall x :: x in gray ==> x < |g| && num[x] < num[u]
    requires SegmentEnds(g, num, seg2, gray + {u}, low2, g[u][k])
    ensures Open(g, num, seg + [(u, k)] + seg2, u) == Open(g, num, seg, u) + Open(g, num, seg2, g[u][k])
  {
    JoinedEnds(g, seg, seg2, (u, k));
    hide Ends;
    var all, v := seg + [(u, k)] + seg2, g[u][k];
    forall x
      ensures x in Open(g, num, all, u) <==> x in Open(g, num, seg, u) + Open(g, num, seg2, v)
    {
    }
  }

  lemma JoinedSegment(g: Graph, num: seq<nat>, seg: seq<HalfEdge>, seg2: seq<HalfEdge>, gray: set<nat>, low: nat,
                      low2: nat, u: nat, k: nat)
    requires |num| == |g| && IsEdge(g, (u, k)) && g[u][k] < |g| && num[u] < num[g[u][k]]
    requires SegmentEnds(g, num, seg, gray, low, u) && SegmentEnds(g, num, seg2, gray + {u}, low2, g[u][k])
    requires low <= num[u] && low2 < num[u] && gray != {}
    ensures SegmentEnds(g, num, seg + [(u, k)] + seg2, gray, Min(low, low2), u)
  {
    JoinedEnds(g, seg, seg2, (u, k));
    hide Ends;
  }

  lemma OpenApart(g: Graph, num1: seq<nat>, count1: nat, num2: seq<nat>, seg: seq<HalfEdge>, seg2: seq<HalfEdge>,
                  gray: set<nat>,
                  low: nat, low2: nat, u: nat, k: nat)
    requires |num1| == |g| && IsEdge(g, (u, k)) && g[u][k] < |g| && Extends(num1, count1, num2)
    requires SegmentEnds(g, num1, seg, gray, low, u) && 0 < low && 0 < num1[u] <= count1
    requires num2[g[u][k]] == count1 + 1
    requires forall y :: 0 <= y < |num1| ==> num1[y] <= count1
    ensures Open(g, num1, seg, u) !! Open(g, num2, seg2, g[u][k])
  {
  }
}
