// The invariant of the search in bcomps: the blocks emitted so far, the edges still
// on the stack, and what the blocks are when the search is over.
module Blocks {
  import opened Wrappers
  import opened Digraph
  import opened Finite
  import opened BlockSearch

  // A block: its nodes, the node it hangs from, and that node's descendants on
  // the block's side.
  datatype Cell = Cell(nodes: set<nat>, top: nat, below: set<nat>)

  ghost predicate CellOk(g: Graph, num: seq<nat>, c: Cell) {
    && c.top in c.nodes && c.top < |num| && num[c.top] > 0
    && (exists y :: y in c.nodes && y != c.top)
    && (forall y :: y in c.nodes && y != c.top ==> y in c.below)
    && (forall y :: y in c.below ==> y < |num| && num[y] > num[c.top])
    && (forall y, w: nat :: y in c.below && Edge(g, y, w) ==> w in c.below || w == c.top)
    && Biconnected(g, c.nodes)
  }

  // Any two blocks share at most a node that one of them hangs from, and two that
  // hang from the same node are on different sides of it.
  ghost predicate CellsApart(cells: seq<Cell>) {
    && (forall c, d, y :: 0 <= c < d < |cells| && y in cells[c].nodes && y in cells[d].nodes ==>
         y == cells[c].top || y == cells[d].top)
    && (forall c, d, y :: 0 <= c < d < |cells| && cells[c].top == cells[d].top && y in cells[d].nodes ==>
         y !in cells[c].below)
  }

  ghost predicate CellsOk(g: Graph, num: seq<nat>, cells: seq<Cell>) {
    && (forall c :: 0 <= c < |cells| ==> CellOk(g, num, cells[c]))
    && CellsApart(cells)
  }

  // x is in a block that does not hang from it.
  ghost predicate Closed(cells: seq<Cell>, x: nat) {
    exists c :: 0 <= c < |cells| && x in cells[c].nodes && x != cells[c].top
  }

  ghost predicate IsTop(cells: seq<Cell>, x: nat) {
    exists c :: 0 <= c < |cells| && cells[c].top == x
  }

  ghost predicate InOne(cells: seq<Cell>, y: nat, w: nat) {
    exists c :: 0 <= c < |cells| && y in cells[c].nodes && w in cells[c].nodes
  }

  // The edge between y and w is in a block or on the stack.
  ghost predicate Covered(g: Graph, cells: seq<Cell>, stk: seq<HalfEdge>, y: nat, w: nat) {
    || InOne(cells, y, w)
    || exists e :: e in stk && ((e.0 == y && Head(g, e) == w) || (e.0 == w && Head(g, e) == y))
  }

  ghost predicate Numbered(g: Graph, num: seq<nat>, count: nat) {
    && |num| == |g| && Injective(num)
    && (forall v :: 0 <= v < |num| ==> num[v] <= count)
  }

  // A finished node has only visited neighbours, the active ones numbered earlier.
  ghost predicate Colored(g: Graph, num: seq<nat>, gray: set<nat>) {
    && |num| == |g|
    && (forall x :: x in gray ==> x < |num| && num[x] > 0)
    && (forall y: nat, w: nat :: y < |num| && num[y] != 0 && y !in gray && Edge(g, y, w) ==>
         w < |num| && num[w] != 0 && (w in gray ==> num[w] < num[y]))
  }

  // No block has taken the ends of the edges on the stack, the active nodes or
  // the roots of the search.
  ghost predicate StackOk(g: Graph, num: seq<nat>, gray: set<nat>, roots: set<nat>, cells: seq<Cell>,
                          stk: seq<HalfEdge>) {
    && (forall x :: x in Ends(g, stk) ==> x < |num| && num[x] > 0 && !Closed(cells, x))
    && (forall x :: x in gray + roots ==> x < |num| && num[x] > 0 && !Closed(cells, x))
  }

  ghost predicate EdgesCovered(g: Graph, num: seq<nat>, gray: set<nat>, cells: seq<Cell>, stk: seq<HalfEdge>) {
    forall y: nat, w: nat :: y < |num| && w < |num| && num[y] != 0 && y !in gray && Edge(g, y, w) && num[w] < num[y] ==>
      Covered(g, cells, stk, y, w)
  }

  // Every visited node is a root, in a block that it closed, or still to be taken.
  ghost predicate Homed(g: Graph, num: seq<nat>, roots: set<nat>, cells: seq<Cell>, stk: seq<HalfEdge>) {
    forall x: nat :: x < |num| && num[x] != 0 ==> x in roots || Closed(cells, x) || x in Ends(g, stk)
  }

  ghost predicate CutOk(g: Graph, cells: seq<Cell>, cut: seq<bool>) {
    |cut| == |g| && forall x :: 0 <= x < |cut| ==> (cut[x] <==> IsTop(cells, x))
  }

  ghost predicate Invariant(g: Graph, num: seq<nat>, count: nat, gray: set<nat>, roots: set<nat>,
                            cells: seq<Cell>, cut: seq<bool>, stk: seq<HalfEdge>)
  {
    && Undirected(g)
    && Numbered(g, num, count)
    && Colored(g, num, gray)
    && CellsOk(g, num, cells)
    && StackOk(g, num, gray, roots, cells, stk)
    && EdgesCovered(g, num, gray, cells, stk)
    && Homed(g, num, roots, cells, stk)
    && CutOk(g, cells, cut)
  }

  // ---------------------------------------------------------------- entering

  lemma ClosedVisited(g: Graph, num: seq<nat>, cells: seq<Cell>, x: nat)
    requires CellsOk(g, num, cells) && Closed(cells, x)
    ensures x < |num| && num[x] > 0
  {
    var c :| 0 <= c < |cells| && x in cells[c].nodes && x != cells[c].top;
    assert CellOk(g, num, cells[c]);
  }

  // Numbers given later do not change what is known of the blocks.
  lemma CellsLater(g: Graph, num: seq<nat>, count: nat, num': seq<nat>, cells: seq<Cell>)
    requires CellsOk(g, num, cells) && Extends(num, count, num')
    ensures CellsOk(g, num', cells)
  {
    forall c | 0 <= c < |cells|
      ensures CellOk(g, num', cells[c])
    {
      assert CellOk(g, num, cells[c]);
    }
  }

  lemma NumberOne(g: Graph, num: seq<nat>, count: nat, v: nat)
    requires Numbered(g, num, count) && v < |g| && num[v] == 0
    ensures Numbered(g, num[v := count + 1], count + 1) && Extends(num, count, num[v := count + 1])
  {
  }

  lemma ColorOne(g: Graph, num: seq<nat>, gray: set<nat>, v: nat, m: nat)
    requires Colored(g, num, gray) && v < |g| && num[v] == 0 && m > 0
    ensures Colored(g, num[v := m], gray + {v})
  {
  }

  lemma CoverOne(g: Graph, num: seq<nat>, gray: set<nat>, cells: seq<Cell>, stk: seq<HalfEdge>, v: nat, m: nat,
                 stk': seq<HalfEdge>)
    requires Colored(g, num, gray) && EdgesCovered(g, num, gray, cells, stk) && v < |g| && num[v] == 0 && stk <= stk'
    ensures EdgesCovered(g, num[v := m], gray + {v}, cells, stk')
  {
    var num' := num[v := m];
    forall y: nat, w: nat |
      y < |num| && w < |num| && num'[y] != 0 && y !in gray + {v} && Edge(g, y, w) && num'[w] < num'[y]
      ensures Covered(g, cells, stk', y, w)
    {
      assert num[w] != 0;
      assert Covered(g, cells, stk, y, w);
    }
  }

  // A child: its tree edge goes on the stack.
  lemma EnterChild(g: Graph, num: seq<nat>, count: nat, gray: set<nat>, roots: set<nat>, cells: seq<Cell>,
                   cut: seq<bool>,
                   stk: seq<HalfEdge>, u: nat, k: nat)
    requires Invariant(g, num, count, gray, roots, cells, cut, stk)
    requires u in gray && IsEdge(g, (u, k)) && g[u][k] < |g| && num[g[u][k]] == 0
    ensures var v := g[u][k];
            && v !in gray
            && Invariant(g, num[v := count + 1], count + 1, gray + {v}, roots, cells, cut, stk + [(u, k)])
            && Covered(g, cells, stk + [(u, k)], v, u)
  {
    var v, e: HalfEdge := g[u][k], (u, k);
    var num', stk' := num[v := count + 1], stk + [e];
    NumberOne(g, num, count, v);
    CellsLater(g, num, count, num', cells);
    ColorOne(g, num, gray, v, count + 1);
    CoverOne(g, num, gray, cells, stk, v, count + 1, stk');
    EnterStack(g, num, count, gray, roots, cells, stk, u, k);
    assert e in stk';
    hide CellsOk, Ends, Undirected, Colored, EdgesCovered, Closed, CutOk, StackOk, Homed, Numbered, Extends;
  }

  lemma EnterStack(g: Graph, num: seq<nat>, count: nat, gray: set<nat>, roots: set<nat>, cells: seq<Cell>,
                   stk: seq<HalfEdge>, u: nat, k: nat)
    requires StackOk(g, num, gray, roots, cells, stk) && Homed(g, num, roots, cells, stk) && CellsOk(g, num, cells)
    requires u in gray && IsEdge(g, (u, k)) && g[u][k] < |g| == |num| && num[g[u][k]] == 0
    ensures StackOk(g, num[g[u][k] := count + 1], gray + {g[u][k]}, roots, cells, stk + [(u, k)])
    ensures Homed(g, num[g[u][k] := count + 1], roots, cells, stk + [(u, k)])
  {
    hide CellsOk, Closed, Ends;
    var v, e: HalfEdge := g[u][k], (u, k);
    EndsSplit(g, stk, [e]);
    EndsOne(g, e);
    if Closed(cells, v) {
      ClosedVisited(g, num, cells, v);
    }
    assert Ends(g, stk + [e]) == Ends(g, stk) + {u, v};
  }

  // A root of the search.
  lemma EnterRoot(g: Graph, num: seq<nat>, count: nat, roots: set<nat>, cells: seq<Cell>, cut: seq<bool>,
                  stk: seq<HalfEdge>, v: nat)
    requires Invariant(g, num, count, {}, roots, cells, cut, stk)
    requires v < |g| && num[v] == 0
    ensures Invariant(g, num[v := count + 1], count + 1, {v}, roots + {v}, cells, cut, stk)
  {
    var num' := num[v := count + 1];
    NumberOne(g, num, count, v);
    CellsLater(g, num, count, num', cells);
    ColorOne(g, num, {}, v, count + 1);
    CoverOne(g, num, {}, cells, stk, v, count + 1, stk);
    assert {} + {v} == {v};
    assert !Closed(cells, v) by {
      if Closed(cells, v) { ClosedVisited(g, num, cells, v); }
    }
    hide CellsOk, Ends, Undirected, Colored, EdgesCovered, Closed, CutOk;
  }

  // ------------------------------------------------------------ within a call

  // An earlier-numbered neighbour of the node being searched is active.
  lemma EarlierIsActive(g: Graph, num: seq<nat>, count: nat, gray: set<nat>, roots: set<nat>, cells: seq<Cell>,
                        cut: seq<bool>,
                        stk: seq<HalfEdge>, u: nat, w: nat)
    requires Invariant(g, num, count, gray + {u}, roots, cells, cut, stk)
    requires u < |g| && w < |g| && Edge(g, u, w) && 0 < num[w] < num[u]
    ensures w in gray
  {
    assert Edge(g, w, u);
    hide CellsOk, StackOk, EdgesCovered, Homed, CutOk, Numbered;
  }

  // A back edge goes on the stack.
  lemma PushBack(g: Graph, num: seq<nat>, count: nat, gray: set<nat>, roots: set<nat>, cells: seq<Cell>, cut: seq<bool>,
                 stk: seq<HalfEdge>, u: nat, k: nat)
    requires Invariant(g, num, count, gray, roots, cells, cut, stk)
    requires u in gray && IsEdge(g, (u, k)) && g[u][k] in gray
    ensures Invariant(g, num, count, gray, roots, cells, cut, stk + [(u, k)])
    ensures Covered(g, cells, stk + [(u, k)], u, g[u][k])
  {
    hide CellsOk, Undirected, Colored, EdgesCovered, Closed, CutOk, Numbered, StackOk, Homed;
    var e: HalfEdge := (u, k);
    var stk' := stk + [e];
    assert e in stk';
    MoreCovered(g, num, gray, cells, stk, cells, stk');
    PushStack(g, num, gray, roots, cells, stk, u, k);
  }

  lemma PushStack(g: Graph, num: seq<nat>, gray: set<nat>, roots: set<nat>, cells: seq<Cell>, stk: seq<HalfEdge>,
                  u: nat, k: nat)
    requires StackOk(g, num, gray, roots, cells, stk) && Homed(g, num, roots, cells, stk)
    requires u in gray && IsEdge(g, (u, k)) && g[u][k] in gray
    ensures StackOk(g, num, gray, roots, cells, stk + [(u, k)])
    ensures Homed(g, num, roots, cells, stk + [(u, k)])
  {
    EndsSplit(g, stk, [(u, k)]);
    EndsOne(g, (u, k));
    hide Ends, Closed;
  }

  lemma MoreCovered(g: Graph, num: seq<nat>, gray: set<nat>, cells: seq<Cell>, stk: seq<HalfEdge>, cells': seq<Cell>,
                    stk': seq<HalfEdge>)
    requires EdgesCovered(g, num, gray, cells, stk) && cells <= cells' && stk <= stk'
    ensures EdgesCovered(g, num, gray, cells', stk')
  {
    forall y: nat, w: nat | y < |num| && w < |num| && num[y] != 0 && y !in gray && Edge(g, y, w) && num[w] < num[y]
      ensures Covered(g, cells', stk', y, w)
    {
      CoveredStays(g, cells, stk, cells', stk', y, w);
    }
  }

  lemma CoveredStays(g: Graph, cells: seq<Cell>, stk: seq<HalfEdge>, cells': seq<Cell>, stk': seq<HalfEdge>, y: nat,
                     w: nat)
    requires Covered(g, cells, stk, y, w) && cells <= cells' && stk <= stk'
    ensures Covered(g, cells', stk', y, w)
  {
    if InOne(cells, y, w) {
      var c :| 0 <= c < |cells| && y in cells[c].nodes && w in cells[c].nodes;
      assert cells'[c] == cells[c];
    }
  }

  // The edges of u that have been looked at lead to visited nodes, and are covered
  // if they lead to earlier ones.
  ghost predicate SlotsDone(g: Graph, num: seq<nat>, cells: seq<Cell>, stk: seq<HalfEdge>, u: nat, k: nat) {
    && |num| == |g| && u < |g| && k <= |g[u]|
    && (forall i :: 0 <= i < k ==> g[u][i] < |num| && num[g[u][i]] != 0)
    && (forall i :: 0 <= i < k && num[g[u][i]] < num[u] ==> Covered(g, cells, stk, u, g[u][i]))
  }

  lemma SlotsLater(g: Graph, num: seq<nat>, count: nat, cells: seq<Cell>, stk: seq<HalfEdge>, u: nat, k: nat,
                   num': seq<nat>, cells': seq<Cell>, stk': seq<HalfEdge>)
    requires SlotsDone(g, num, cells, stk, u, k) && Extends(num, count, num') && cells <= cells' && stk <= stk'
    requires num[u] != 0
    ensures SlotsDone(g, num', cells', stk', u, k)
  {
    forall i | 0 <= i < k && num'[g[u][i]] < num'[u]
      ensures Covered(g, cells', stk', u, g[u][i])
    {
      CoveredStays(g, cells, stk, cells', stk', u, g[u][i]);
    }
  }

  // The call on u ends.
  lemma Leave(g: Graph, num: seq<nat>, count: nat, gray: set<nat>, roots: set<nat>, cells: seq<Cell>, cut: seq<bool>,
              stk: seq<HalfEdge>, u: nat)
    requires Invariant(g, num, count, gray + {u}, roots, cells, cut, stk)
    requires u < |g| && SlotsDone(g, num, cells, stk, u, |g[u]|)
    requires forall x :: x in gray ==> x < |g| && num[x] < num[u]
    ensures Invariant(g, num, count, gray, roots, cells, cut, stk)
  {
    forall w: nat | Edge(g, u, w)
      ensures w < |num| && num[w] != 0 && (w in gray ==> num[w] < num[u])
      ensures num[w] < num[u] ==> Covered(g, cells, stk, u, w)
    {
      var i :| 0 <= i < |g[u]| && g[u][i] == w;
    }
    hide CellsOk, Ends, Undirected, Closed, CutOk, Numbered, Covered, SlotsDone, Homed, Edge;
  }

  // ------------------------------------------------------------- popping a block

  // The edges from the tree edge e on have gone into the block b that hangs from u.
  ghost predicate Popped(g: Graph, num: seq<nat>, base: seq<HalfEdge>, top: seq<HalfEdge>, gray: set<nat>,
                         roots: set<nat>,
                         cells: seq<Cell>, b: Cell)
  {
    && b.nodes == Ends(g, top) && b.top in gray && CellOk(g, num, b)
    && (forall x :: x in b.nodes && x != b.top ==> x !in Ends(g, base) && x !in gray && x !in roots)
    && (forall c, y :: 0 <= c < |cells| && cells[c].top == b.top && y in cells[c].below ==> y !in b.nodes)
    && (b.top in roots || b.top in Ends(g, base))
  }

  lemma ClosedMore(cells: seq<Cell>, b: Cell, x: nat)
    ensures Closed(cells + [b], x) <==> Closed(cells, x) || (x in b.nodes && x != b.top)
    ensures IsTop(cells + [b], x) <==> IsTop(cells, x) || x == b.top
  {
    var s := cells + [b];
    assert s[|cells|] == b;
    if Closed(cells, x) {
      var c :| 0 <= c < |cells| && x in cells[c].nodes && x != cells[c].top;
      assert s[c] == cells[c];
    }
    if IsTop(cells, x) {
      var c :| 0 <= c < |cells| && cells[c].top == x;
      assert s[c] == cells[c];
    }
  }

  lemma PopCells(g: Graph, num: seq<nat>, base: seq<HalfEdge>, top: seq<HalfEdge>, gray: set<nat>, roots: set<nat>,
                 cells: seq<Cell>, b: Cell)
    requires CellsOk(g, num, cells) && Popped(g, num, base, top, gray, roots, cells, b)
    requires forall x :: x in Ends(g, top) ==> !Closed(cells, x)
    ensures CellsOk(g, num, cells + [b])
  {
    var s := cells + [b];
    hide Biconnected, Ends, CellOk;
    forall c, y | 0 <= c < |cells| && y in cells[c].nodes && y != cells[c].top
      ensures y !in b.nodes
    {
      assert Closed(cells, y);
    }
    assert forall c :: 0 <= c < |cells| ==> s[c] == cells[c];
  }

  lemma PopStack(g: Graph, num: seq<nat>, base: seq<HalfEdge>, top: seq<HalfEdge>, gray: set<nat>, roots: set<nat>,
                 cells: seq<Cell>, b: Cell)
    requires StackOk(g, num, gray, roots, cells, base + top) && Popped(g, num, base, top, gray, roots, cells, b)
    requires Homed(g, num, roots, cells, base + top)
    ensures StackOk(g, num, gray, roots, cells + [b], base)
    ensures Homed(g, num, roots, cells + [b], base)
  {
    EndsSplit(g, base, top);
    hide Ends, Closed, CellOk;
    forall x: nat
      ensures Closed(cells + [b], x) <==> Closed(cells, x) || (x in b.nodes && x != b.top)
    {
      ClosedMore(cells, b, x);
    }
  }

  lemma PopCovered(g: Graph, num: seq<nat>, base: seq<HalfEdge>, top: seq<HalfEdge>, gray: set<nat>, cells: seq<Cell>,
                   b: Cell)
    requires EdgesCovered(g, num, gray, cells, base + top) && b.nodes == Ends(g, top)
    ensures EdgesCovered(g, num, gray, cells + [b], base)
  {
    var s := cells + [b];
    forall y: nat, w: nat | y < |num| && w < |num| && num[y] != 0 && y !in gray && Edge(g, y, w) && num[w] < num[y]
      ensures Covered(g, s, base, y, w)
    {
      assert Covered(g, cells, base + top, y, w);
      if InOne(cells, y, w) {
        CoveredStays(g, cells, [], s, base, y, w);
      } else {
        var e :| e in base + top && ((e.0 == y && Head(g, e) == w) || (e.0 == w && Head(g, e) == y));
        if e !in base {
          assert e in top && s[|cells|] == b;
          assert y in b.nodes && w in b.nodes;
        }
      }
    }
  }

  lemma Pop(g: Graph, num: seq<nat>, count: nat, base: seq<HalfEdge>, top: seq<HalfEdge>, gray: set<nat>,
            roots: set<nat>,
            cells: seq<Cell>, cut: seq<bool>, b: Cell)
    requires Invariant(g, num, count, gray, roots, cells, cut, base + top)
    requires Popped(g, num, base, top, gray, roots, cells, b) && b.top < |cut|
    ensures Invariant(g, num, count, gray, roots, cells + [b], cut[b.top := true], base)
  {
    EndsSplit(g, base, top);
    PopCells(g, num, base, top, gray, roots, cells, b);
    PopStack(g, num, base, top, gray, roots, cells, b);
    PopCovered(g, num, base, top, gray, cells, b);
    hide Ends, Closed, CellOk, CellsOk, StackOk, Homed, EdgesCovered, Popped, IsTop, Colored, Numbered, Undirected;
    forall x: nat
      ensures IsTop(cells + [b], x) <==> IsTop(cells, x) || x == b.top
    {
      ClosedMore(cells, b, x);
    }
  }

  // The block that hangs from u when the part of child v is complete.
  ghost function NewCell(g: Graph, num: seq<nat>, seg: seq<HalfEdge>, u: nat, v: nat): Cell
    requires v < |num|
  {
    Cell({u} + Open(g, num, seg, v), u, set y | 0 <= y < |num| && num[y] >= num[v])
  }

  lemma BlockNodes(g: Graph, num: seq<nat>, seg: seq<HalfEdge>, gray: set<nat>, u: nat, k: nat, low: nat)
    requires |num| == |g| && IsEdge(g, (u, k)) && g[u][k] < |g| && num[u] < num[g[u][k]]
    requires SegmentEnds(g, num, seg, gray + {u}, low, g[u][k]) && low >= num[u]
    requires forall x :: x in gray ==> x < |g| && num[x] < num[u]
    ensures Ends(g, [(u, k)] + seg) == {u} + Open(g, num, seg, g[u][k])
    ensures (u, k) !in seg
  {
    EndsSplit(g, [(u, k)], seg);
    EndsOne(g, (u, k));
    hide Ends;
  }

  // No edge leaves the descendants on the block's side but to u.
  lemma BelowClosed(g: Graph, num: seq<nat>, gray: set<nat>, u: nat, v: nat, low: nat, y: nat, w: nat)
    requires |num| == |g| && Injective(num) && u < |g| && v < |g| && 0 < num[u] < num[v]
    requires forall x :: x in gray ==> x < |g| && num[x] < num[u]
    requires DescendantsBounded(g, num, gray + {u}, Some(u), low, v)
    requires EdgesBounded(g, num, gray + {u}, Some(u), low, v, |g[v]|)
    requires low >= num[u]
    requires y < |g| && num[y] >= num[v] && Edge(g, y, w)
    ensures w == u || (w < |num| && num[w] >= num[v])
  {
    if y == v {
      var i :| 0 <= i < |g[v]| && g[v][i] == w;
    }
    assert Bounded(num, gray + {u}, Some(u), low, v, w);
  }

  lemma NewCellOk(g: Graph, num: seq<nat>, seg: seq<HalfEdge>, gray: set<nat>, u: nat, v: nat, low: nat)
    requires Undirected(g) && Injective(num) && u < |g| && Edge(g, v, u) && |num| == |g|
    requires forall x :: x in gray ==> x < |g| && num[x] < num[u]
    requires Searched(g, num, seg, gray + {u}, Some(u), low, v, |g[v]|)
    requires 0 < num[u] < num[v] && low >= num[u]
    ensures CellOk(g, num, NewCell(g, num, seg, u, v))
  {
    hide Biconnected, Rooted, Avoids, LowSeen, DescendantsBounded, EdgesBounded, Ends, Undirected, Injective;
    var o, b := Open(g, num, seg, v), NewCell(g, num, seg, u, v);
    forall y, w: nat | y in b.below && Edge(g, y, w)
      ensures w in b.below || w == u
    {
      BelowClosed(g, num, gray, u, v, low, y, w);
    }
    assert o + {u} == b.nodes;
    assert forall w :: w in gray && w < |num| ==> num[w] < low;
    assert u !in o;
    BlockBiconnected(g, num, o, gray, u, v, low);
    assert v in o;
  }

  lemma BlockFound(g: Graph, num1: seq<nat>, count1: nat, cells1: seq<Cell>, base: seq<HalfEdge>,
                   num2: seq<nat>, cells2: seq<Cell>, seg: seq<HalfEdge>,
                   gray: set<nat>, roots: set<nat>, low: nat, u: nat, k: nat)
    requires Undirected(g) && Injective(num2) && Extends(num1, count1, num2) && |num1| == |g| && IsEdge(g, (u, k))
    requires CellsOk(g, num1, cells1) && StackOk(g, num1, gray + {u}, roots, cells1, base)
    requires forall x :: 0 <= x < |num1| ==> num1[x] <= count1
    requires var v := g[u][k];
             && v < |g| && num1[v] == 0 && num2[v] == count1 + 1 && num1[u] > 0
             && Searched(g, num2, seg, gray + {u}, Some(u), low, v, |g[v]|)
             && (forall c :: |cells1| <= c < |cells2| ==> cells2[c].top < |num2| && num2[cells2[c].top] >= num2[v])
    requires forall x :: x in gray ==> x < |g| && num2[x] < num2[u]
    requires cells1 <= cells2 && low >= num2[u]
    requires u in roots || u in Ends(g, base)
    ensures Popped(g, num2, base, [(u, k)] + seg, gray + {u}, roots, cells2, NewCell(g, num2, seg, u, g[u][k]))
    ensures (u, k) !in seg
  {
    var v := g[u][k];
    var b := NewCell(g, num2, seg, u, v);
    assert Edge(g, u, v);
    BlockNodes(g, num2, seg, gray, u, k, low);
    NewCellOk(g, num2, seg, gray, u, v, low);
    BelowOlder(g, num1, count1, cells1, num2, cells2, b, v);
    hide Biconnected, CellOk, CellsOk, Undirected, Injective, Ends;
    BlockNew(g, num1, count1, cells1, base, num2, seg, gray, roots, u, v);
  }

  lemma BlockNew(g: Graph, num1: seq<nat>, count1: nat, cells1: seq<Cell>, base: seq<HalfEdge>, num2: seq<nat>,
                 seg: seq<HalfEdge>,
                 gray: set<nat>, roots: set<nat>, u: nat, v: nat)
    requires Extends(num1, count1, num2) && StackOk(g, num1, gray + {u}, roots, cells1, base) && v < |num2|
    requires num2[v] == count1 + 1 && forall x :: 0 <= x < |num1| ==> num1[x] <= count1
    ensures forall x :: x in Open(g, num2, seg, v) ==> x !in Ends(g, base) && x !in gray + {u} && x !in roots
  {
    hide Ends, Closed;
  }

  // A block that hangs from the same node and is older has older descendants.
  lemma BelowOlder(g: Graph, num1: seq<nat>, count1: nat, cells1: seq<Cell>, num2: seq<nat>, cells2: seq<Cell>,
                   b: Cell, v: nat)
    requires CellsOk(g, num1, cells1) && Extends(num1, count1, num2) && cells1 <= cells2 && v < |num2|
    requires num2[v] == count1 + 1
    requires forall x :: 0 <= x < |num1| ==> num1[x] <= count1
    requires forall c :: |cells1| <= c < |cells2| ==> cells2[c].top < |num2| && num2[cells2[c].top] >= num2[v]
    requires b.top < |num2| && num2[b.top] < num2[v]
    requires forall y :: y in b.nodes && y != b.top ==> y < |num2| && num2[y] >= num2[v]
    ensures forall c, y :: 0 <= c < |cells2| && cells2[c].top == b.top && y in cells2[c].below ==> y !in b.nodes
  {
    forall c, y | 0 <= c < |cells2| && cells2[c].top == b.top && y in cells2[c].below
      ensures y !in b.nodes
    {
      assert cells2[c] == cells1[c];
      assert CellOk(g, num1, cells1[c]);
    }
  }

  // ------------------------------------------------------------------ a call

  // What a call on u has changed so far.
  ghost predicate Grown(num0: seq<nat>, count0: nat, cells0: seq<Cell>, low0: seq<nat>,
                        num: seq<nat>, count: nat, cells: seq<Cell>, low: seq<nat>, u: nat)
  {
    && Extends(num0, count0, num) && u < |num| && num0[u] == 0 && num[u] == count0 + 1 && count > count0
    && cells0 <= cells
    && (forall c :: |cells0| <= c < |cells| ==> cells[c].top < |num| && num[cells[c].top] >= num[u])
    && |low| == |low0| == |num|
    && (forall x :: 0 <= x < |num| && num0[x] != 0 ==> low[x] == low0[x])
  }

  // A call on a child of u, within the one on u.
  lemma GrownTrans(num0: seq<nat>, count0: nat, cells0: seq<Cell>, low0: seq<nat>,
                   num1: seq<nat>, count1: nat, cells1: seq<Cell>, low1: seq<nat>,
                   num2: seq<nat>, count2: nat, cells2: seq<Cell>, low2: seq<nat>, u: nat, v: nat)
    requires Grown(num0, count0, cells0, low0, num1, count1, cells1, low1, u)
    requires Grown(num1, count1, cells1, low1, num2, count2, cells2, low2, v)
    ensures Grown(num0, count0, cells0, low0, num2, count2, cells2, low2, u)
    ensures low2[u] == low1[u] && num2[u] == num1[u]
  {
    forall c | |cells0| <= c < |cells2|
      ensures cells2[c].top < |num2| && num2[cells2[c].top] >= num2[u]
    {
      if c < |cells1| {
        assert cells2[c] == cells1[c];
      }
    }
  }

  lemma PopTop(g: Graph, num: seq<nat>, count: nat, base: seq<HalfEdge>, top: seq<HalfEdge>, gray: set<nat>,
               roots: set<nat>,
               cells: seq<Cell>, cut: seq<bool>, b: Cell)
    requires Invariant(g, num, count, gray, roots, cells, cut, base + top)
    requires Popped(g, num, base, top, gray, roots, cells, b)
    ensures b.nodes == Ends(g, top) && b.top < |cut|
  {
  }

  lemma CallStart(g: Graph, num0: seq<nat>, count0: nat, cells: seq<Cell>, low0: seq<nat>, stk: seq<HalfEdge>,
                  gray: set<nat>, parent: Option<nat>, u: nat)
    requires u < |g| == |num0| == |low0| && num0[u] == 0
    requires Active(g, num0[u := count0 + 1], gray, parent, u)
    requires forall x :: 0 <= x < |num0| ==> num0[x] <= count0
    ensures var num := num0[u := count0 + 1];
            && Searched(g, num, [], gray, parent, num[u], u, 0)
            && SlotsDone(g, num, cells, stk, u, 0)
            && Grown(num0, count0, cells, low0, num, count0 + 1, cells, low0[u := count0 + 1], u)
  {
    SearchStart(g, num0[u := count0 + 1], gray, parent, u);
    hide Searched;
  }

  lemma CallEnd(g: Graph, num: seq<nat>, count: nat, gray: set<nat>, roots: set<nat>, cells: seq<Cell>, cut: seq<bool>,
                stk: seq<HalfEdge>, parent: Option<nat>, u: nat)
    requires Invariant(g, num, count, gray + {u}, roots, cells, cut, stk)
    requires Active(g, num, gray, parent, u) && SlotsDone(g, num, cells, stk, u, |g[u]|)
    ensures Invariant(g, num, count, gray, roots, cells, cut, stk)
  {
    hide Invariant, SlotsDone;
    Leave(g, num, count, gray, roots, cells, cut, stk, u);
  }

  lemma SlotOne(g: Graph, num: seq<nat>, cells: seq<Cell>, stk: seq<HalfEdge>, u: nat, k: nat)
    requires SlotsDone(g, num, cells, stk, u, k) && k < |g[u]| && g[u][k] < |num| && num[g[u][k]] != 0
    requires num[g[u][k]] < num[u] ==> Covered(g, cells, stk, u, g[u][k])
    ensures SlotsDone(g, num, cells, stk, u, k + 1)
  {
    hide Covered;
  }

  lemma SameNumbers(num: seq<nat>, count: nat)
    ensures Extends(num, count, num)
  {
  }

  // The kinds of edge of u: to the parent, to a later node or itself, ...
  lemma StepSkip(g: Graph, num: seq<nat>, cells0: seq<Cell>, stk0: seq<HalfEdge>, cells: seq<Cell>, stk: seq<HalfEdge>,
                 seg: seq<HalfEdge>, gray: set<nat>, parent: Option<nat>, low: nat, u: nat, k: nat)
    requires Active(g, num, gray, parent, u) && Searched(g, num, seg, gray, parent, low, u, k)
    requires SlotsDone(g, num, cells, stk, u, k) && k < |g[u]| && g[u][k] < |g| && num[g[u][k]] != 0
    requires num[g[u][k]] >= num[u] || parent == Some(g[u][k])
    requires parent.Some? ==> Covered(g, cells0, stk0, u, parent.value)
    requires cells0 <= cells && stk0 <= stk
    ensures Searched(g, num, seg, gray, parent, low, u, k + 1)
    ensures SlotsDone(g, num, cells, stk, u, k + 1)
  {
    hide Searched, Covered, SlotsDone;
    SearchSkip(g, num, seg, gray, parent, low, u, k);
    if num[g[u][k]] < num[u] {
      CoveredStays(g, cells0, stk0, cells, stk, u, g[u][k]);
    }
    SlotOne(g, num, cells, stk, u, k);
  }

  // ... to an earlier node ...
  lemma StepBack(g: Graph, num: seq<nat>, count: nat, gray: set<nat>, roots: set<nat>, cells: seq<Cell>, cut: seq<bool>,
                 stk: seq<HalfEdge>, seg: seq<HalfEdge>, parent: Option<nat>, low: nat, u: nat, k: nat)
    requires Invariant(g, num, count, gray + {u}, roots, cells, cut, stk)
    requires Active(g, num, gray, parent, u) && Searched(g, num, seg, gray, parent, low, u, k)
    requires SlotsDone(g, num, cells, stk, u, k) && k < |g[u]| && g[u][k] < |g| && 0 < num[g[u][k]] < num[u]
    ensures Invariant(g, num, count, gray + {u}, roots, cells, cut, stk + [(u, k)])
    ensures Searched(g, num, seg + [(u, k)], gray, parent, Min(low, num[g[u][k]]), u, k + 1)
    ensures SlotsDone(g, num, cells, stk + [(u, k)], u, k + 1)
  {
    assert Edge(g, u, g[u][k]);
    hide Invariant, Searched, Covered, Edge, SlotsDone, Extends;
    SameNumbers(num, count);
    EarlierIsActive(g, num, count, gray, roots, cells, cut, stk, u, g[u][k]);
    PushBack(g, num, count, gray + {u}, roots, cells, cut, stk, u, k);
    SearchBack(g, num, seg, gray, parent, low, u, k);
    SlotsLater(g, num, count, cells, stk, u, k, num, cells, stk + [(u, k)]);
    SlotOne(g, num, cells, stk + [(u, k)], u, k);
  }

  // ... to a node that is new.
  lemma ChildStart(g: Graph, num: seq<nat>, count: nat, gray: set<nat>, roots: set<nat>, cells: seq<Cell>,
                   cut: seq<bool>,
                   stk: seq<HalfEdge>, parent: Option<nat>, u: nat, k: nat)
    requires Invariant(g, num, count, gray + {u}, roots, cells, cut, stk)
    requires Active(g, num, gray, parent, u) && k < |g[u]| && g[u][k] < |g| && num[g[u][k]] == 0
    ensures var v := g[u][k];
            && v !in gray + {u}
            && Invariant(g, num[v := count + 1], count + 1, gray + {u} + {v}, roots, cells, cut, stk + [(u, k)])
            && Active(g, num[v := count + 1], gray + {u}, Some(u), v)
            && v in Ends(g, stk + [(u, k)])
            && Covered(g, cells, stk + [(u, k)], v, u)
    ensures forall x :: 0 <= x < |num| ==> num[x] <= count
  {
    EnterChild(g, num, count, gray + {u}, roots, cells, cut, stk, u, k);
    EndsSplit(g, stk, [(u, k)]);
    EndsOne(g, (u, k));
    assert Edge(g, u, g[u][k]);
    assert Edge(g, g[u][k], u);
    hide Ends, Covered, CellsOk, Colored, StackOk, EdgesCovered, Homed, CutOk, Undirected;
  }

  // The slots of u after the call on the child.
  lemma SlotsChild(g: Graph, num1: seq<nat>, count1: nat, cells1: seq<Cell>, stk1: seq<HalfEdge>,
                   num2: seq<nat>, cells2: seq<Cell>, stk2: seq<HalfEdge>, u: nat, k: nat)
    requires SlotsDone(g, num1, cells1, stk1, u, k) && Extends(num1, count1, num2) && num1[u] != 0
    requires cells1 <= cells2 && stk1 <= stk2
    requires k < |g[u]| && g[u][k] < |g| && num2[g[u][k]] > num2[u]
    ensures SlotsDone(g, num2, cells2, stk2, u, k + 1)
  {
    SlotsLater(g, num1, count1, cells1, stk1, u, k, num2, cells2, stk2);
    hide Covered, SlotsDone;
    SlotOne(g, num2, cells2, stk2, u, k);
  }

  lemma StepFacts(g: Graph, num: seq<nat>, count: nat, gray: set<nat>, roots: set<nat>, cells: seq<Cell>,
                  cut: seq<bool>,
                  stk: seq<HalfEdge>, parent: Option<nat>, u: nat, k: nat, seg: seq<HalfEdge>, lowU: nat,
                  num0: seq<nat>, count0: nat, cells0: seq<Cell>, low0: seq<nat>, low: seq<nat>)
    requires Invariant(g, num, count, gray + {u}, roots, cells, cut, stk) && Active(g, num, gray, parent, u)
    requires Searched(g, num, seg, gray, parent, lowU, u, k) && k < |g[u]|
    requires Grown(num0, count0, cells0, low0, num, count, cells, low, u)
    ensures |num| == |g| && u < |num| && num[u] > 0 && g[u][k] < |g| && lowU <= num[u] && cells0 <= cells
  {
    assert Edge(g, u, g[u][k]);
  }

  lemma GrownLow(num0: seq<nat>, count0: nat, cells0: seq<Cell>, low0: seq<nat>,
                 num: seq<nat>, count: nat, cells: seq<Cell>, low: seq<nat>, low': seq<nat>, u: nat)
    requires Grown(num0, count0, cells0, low0, num, count, cells, low, u)
    requires |low'| == |low| && forall x :: 0 <= x < |low| && x != u ==> low'[x] == low[x]
    ensures Grown(num0, count0, cells0, low0, num, count, cells, low', u)
  {
  }

  lemma GrownBlock(num0: seq<nat>, count0: nat, cells0: seq<Cell>, low0: seq<nat>,
                   num: seq<nat>, count: nat, cells: seq<Cell>, low: seq<nat>, b: Cell, u: nat)
    requires Grown(num0, count0, cells0, low0, num, count, cells, low, u) && b.top == u
    ensures Grown(num0, count0, cells0, low0, num, count, cells + [b], low, u)
  {
  }

  lemma WhiteLess(num0: seq<nat>, count0: nat, cells0: seq<Cell>, low0: seq<nat>,
                  num: seq<nat>, count: nat, cells: seq<Cell>, low: seq<nat>, u: nat)
    requires Grown(num0, count0, cells0, low0, num, count, cells, low, u)
    ensures White(num) < White(num0)
  {
    assert u in White(num0);
  }

  ghost function White(num: seq<nat>): set<nat> {
    set v: nat | 0 <= v < |num| && num[v] == 0
  }

  // What the call on a child has left for u.
  ghost predicate ChildDone(g: Graph, num1: seq<nat>, count1: nat, cells1: seq<Cell>, base: seq<HalfEdge>,
                            num2: seq<nat>, count2: nat, cells2: seq<Cell>, cut: seq<bool>, seg2: seq<HalfEdge>,
                            gray: set<nat>, roots: set<nat>, low2: nat, u: nat, k: nat)
  {
    && IsEdge(g, (u, k)) && g[u][k] < |g| == |num1| && num1[g[u][k]] == 0 && 0 < num1[u] <= count1
    && Extends(num1, count1, num2) && num2[g[u][k]] == count1 + 1 && cells1 <= cells2
    && (forall x :: 0 <= x < |num1| ==> num1[x] <= count1)
    && (forall c :: |cells1| <= c < |cells2| ==> cells2[c].top < |num2| && num2[cells2[c].top] >= count1 + 1)
    && CellsOk(g, num1, cells1) && StackOk(g, num1, gray + {u}, roots, cells1, base)
    && Invariant(g, num2, count2, gray + {u}, roots, cells2, cut, base + [(u, k)] + seg2)
    && Searched(g, num2, seg2, gray + {u}, Some(u), low2, g[u][k], |g[g[u][k]]|)
  }

  lemma ChildReturns(g: Graph, num1: seq<nat>, count1: nat, cells1: seq<Cell>, cut1: seq<bool>, low1: seq<nat>,
                     base: seq<HalfEdge>,
                     num2: seq<nat>, count2: nat, cells2: seq<Cell>,
                     cut2: seq<bool>, low2: seq<nat>, seg2: seq<HalfEdge>,
                     gray: set<nat>, roots: set<nat>, parent: Option<nat>, u: nat, k: nat)
    requires Invariant(g, num1, count1, gray + {u}, roots, cells1, cut1, base) && Active(g, num1, gray, parent, u)
    requires IsEdge(g, (u, k)) && g[u][k] < |g| && num1[g[u][k]] == 0
    requires Invariant(g, num2, count2, gray + {u}, roots, cells2, cut2, base + [(u, k)] + seg2)
    requires Grown(num1, count1, cells1, low1, num2, count2, cells2, low2, g[u][k])
    requires Searched(g, num2, seg2, gray + {u}, Some(u), low2[g[u][k]], g[u][k], |g[g[u][k]]|)
    ensures ChildDone(g, num1, count1, cells1, base, num2, count2, cells2, cut2, seg2, gray, roots, low2[g[u][k]], u, k)
  {
    hide CellsOk, StackOk, Colored, EdgesCovered, Homed, CutOk, Undirected, Searched;
  }

  lemma ChildStays(g: Graph, num1: seq<nat>, count1: nat, cells1: seq<Cell>, base: seq<HalfEdge>,
                   num2: seq<nat>, count2: nat, cells2: seq<Cell>,
                   cut2: seq<bool>, seg: seq<HalfEdge>, seg2: seq<HalfEdge>,
                   gray: set<nat>, roots: set<nat>, parent: Option<nat>, low: nat, low2: nat, u: nat, k: nat)
    requires ChildDone(g, num1, count1, cells1, base, num2, count2, cells2, cut2, seg2, gray, roots, low2, u, k)
    requires Active(g, num1, gray, parent, u) && Searched(g, num1, seg, gray, parent, low, u, k)
    requires low2 < num2[u]
    ensures Searched(g, num2, seg + [(u, k)] + seg2, gray, parent, Min(low, low2), u, k + 1)
  {
    hide CellsOk, StackOk, Colored, EdgesCovered, Homed, CutOk, Undirected, Searched;
    SearchStays(g, num1, count1, num2, seg, seg2, gray, parent, low, low2, u, k);
  }

  lemma ChildPops(g: Graph, num1: seq<nat>, count1: nat, cells1: seq<Cell>, base: seq<HalfEdge>,
                  num2: seq<nat>, count2: nat, cells2: seq<Cell>,
                  cut2: seq<bool>, seg: seq<HalfEdge>, seg2: seq<HalfEdge>,
                  gray: set<nat>, roots: set<nat>, parent: Option<nat>, low: nat, low2: nat, u: nat, k: nat)
    requires ChildDone(g, num1, count1, cells1, base, num2, count2, cells2, cut2, seg2, gray, roots, low2, u, k)
    requires Active(g, num1, gray, parent, u) && Searched(g, num1, seg, gray, parent, low, u, k)
    requires low2 >= num2[u] && (u in roots || u in Ends(g, base))
    ensures Searched(g, num2, seg, gray, parent, Min(low, low2), u, k + 1)
    ensures Popped(g, num2, base, [(u, k)] + seg2, gray + {u}, roots, cells2, NewCell(g, num2, seg2, u, g[u][k]))
    ensures (u, k) !in seg2
  {
    hide CellsOk, StackOk, Colored, EdgesCovered, Homed, CutOk, Undirected, Searched, Popped, Ends;
    SearchPopped(g, num1, count1, num2, seg, seg2, gray, parent, low, low2, u, k);
    BlockFound(g, num1, count1, cells1, base, num2, cells2, seg2, gray, roots, low2, u, k);
  }

  lemma SegmentEdges(g: Graph, num: seq<nat>, seg: seq<HalfEdge>, gray: set<nat>, parent: Option<nat>, low: nat,
                     u: nat, k: nat)
    requires Searched(g, num, seg, gray, parent, low, u, k)
    ensures forall f :: f in seg ==> IsEdge(g, f)
  {
  }

  lemma ActiveLater(g: Graph, num1: seq<nat>, count1: nat, num2: seq<nat>, gray: set<nat>, parent: Option<nat>, u: nat)
    requires Active(g, num1, gray, parent, u) && Extends(num1, count1, num2)
    ensures Active(g, num2, gray, parent, u)
  {
  }

  // ------------------------------------------------------------- the whole graph

  ghost function Nodes(g: Graph): set<nat> {
    Below(|g|)
  }

  // No node before x is connected to x: the search starts x's component at x.
  ghost predicate FirstOfComponent(g: Graph, x: nat) {
    x < |g| && forall y: nat :: y < x ==> !Conn(g, Nodes(g), x, y)
  }

  // Taking x out separates two nodes.
  ghost predicate Articulation(g: Graph, x: nat) {
    exists a: nat, b: nat :: a != x && b != x && Conn(g, Nodes(g), a, b) && !Conn(g, Nodes(g) - {x}, a, b)
  }

  ghost predicate HasNeighbour(g: Graph, x: nat) {
    exists w: nat :: w != x && Edge(g, x, w)
  }

  // Each root was the first node of its component to be visited, and the earlier
  // nodes of the graph were visited before it.
  ghost predicate RootsOk(g: Graph, num: seq<nat>, roots: set<nat>) {
    && |num| == |g|
    && (forall r :: r in roots ==> r < |g| && num[r] > 0)
    && (forall r, y :: r in roots && 0 <= y < r ==> 0 < num[y] < num[r])
    && (forall r, x: nat :: r in roots && Conn(g, Nodes(g), r, x) ==> x < |g| && (num[x] == 0 || num[x] >= num[r]))
  }

  lemma VisitedApart(g: Graph, num: seq<nat>, n: nat, x: nat)
    requires Undirected(g) && Colored(g, num, {}) && n < |g| && num[n] == 0
    requires Conn(g, Nodes(g), n, x)
    ensures x < |g| && num[x] == 0
  {
    var done := set v: nat | 0 <= v < |g| && num[v] != 0;
    ConnSym(g, Nodes(g), n, x);
    assert x in Nodes(g) by {
      var p :| Walk(g, Nodes(g), p) && p[0] == x && p[|p| - 1] == n;
    }
    if x in done {
      ConnLeaves(g, Nodes(g), done, x, n);
    }
  }

  lemma RootsGrow(g: Graph, num0: seq<nat>, count0: nat, num: seq<nat>, roots: set<nat>, n: nat)
    requires Undirected(g) && Colored(g, num0, {}) && RootsOk(g, num0, roots)
    requires n < |g| && num0[n] == 0 && Extends(num0, count0, num) && num[n] == count0 + 1
    requires forall y :: 0 <= y < n ==> num0[y] > 0
    requires forall y :: 0 <= y < |num0| ==> num0[y] <= count0
    ensures RootsOk(g, num, roots + {n})
  {
    forall x: nat | Conn(g, Nodes(g), n, x)
      ensures x < |g| && (num[x] == 0 || num[x] >= num[n])
    {
      VisitedApart(g, num0, n, x);
    }
  }

  // The state when the search is over.
  ghost predicate Finished(g: Graph, num: seq<nat>, cells: seq<Cell>, roots: set<nat>) {
    && Undirected(g) && CellsOk(g, num, cells) && RootsOk(g, num, roots)
    && (forall x :: 0 <= x < |g| ==> num[x] > 0)
    && (forall x :: 0 <= x < |g| ==> x in roots || Closed(cells, x))
    && (forall x :: x in roots ==> !Closed(cells, x))
    && (forall y: nat, w: nat :: Edge(g, y, w) && y != w ==> InOne(cells, y, w))
  }

  lemma AllCovered(g: Graph, num: seq<nat>, count: nat, cells: seq<Cell>, y: nat, w: nat)
    requires Undirected(g) && Numbered(g, num, count) && EdgesCovered(g, num, {}, cells, [])
    requires Edge(g, y, w) && y != w && y < |g| && w < |g| && num[y] > 0 && num[w] > 0
    ensures InOne(cells, y, w)
  {
    assert Edge(g, w, y);
    if num[w] < num[y] {
      assert Covered(g, cells, [], y, w);
    } else {
      assert num[y] < num[w];
      assert Covered(g, cells, [], w, y);
    }
  }

  lemma AllFinished(g: Graph, num: seq<nat>, count: nat, roots: set<nat>, cells: seq<Cell>, cut: seq<bool>)
    requires Invariant(g, num, count, {}, roots, cells, cut, []) && RootsOk(g, num, roots)
    requires forall x :: 0 <= x < |g| ==> num[x] > 0
    ensures Finished(g, num, cells, roots)
  {
    assert Ends(g, []) == {};
    assert WellFormed(g);
    hide CellsOk, Closed, Covered, RootsOk, InOne, Undirected, EdgesCovered, Numbered, Colored;
    forall y: nat, w: nat | Edge(g, y, w) && y != w
      ensures InOne(cells, y, w)
    {
      AllCovered(g, num, count, cells, y, w);
    }
  }

  // --------------------------------------------------------------- separation

  // x separates what lies below it in a block that hangs from it from the rest.
  lemma Enclosed(g: Graph, num: seq<nat>, c: Cell, p: nat, q: nat)
    requires CellOk(g, num, c) && p in c.below && q !in c.below
    ensures !Conn(g, Nodes(g) - {c.top}, p, q)
  {
    if Conn(g, Nodes(g) - {c.top}, p, q) {
      ConnLeaves(g, Nodes(g) - {c.top}, c.below, p, q);
    }
  }

  lemma CellInGraph(g: Graph, num: seq<nat>, c: Cell)
    requires CellOk(g, num, c) && |num| == |g|
    ensures c.nodes <= Nodes(g)
  {
    forall y | y in c.nodes
      ensures y in Nodes(g)
    {
      if y != c.top {
        assert y in c.below;
      }
    }
  }

  // c hangs from x, d contains x but hangs from another node: d lies outside c.
  lemma Outside(g: Graph, num: seq<nat>, c: Cell, d: Cell, b: nat)
    requires Undirected(g) && CellOk(g, num, c) && CellOk(g, num, d) && |num| == |g|
    requires c.top in d.nodes && d.top != c.top && b in d.nodes && b != c.top
    ensures b !in c.below
  {
    var x := c.top;
    CellInGraph(g, num, d);
    assert Conn(g, d.nodes - {x}, b, d.top);
    ConnWider(g, d.nodes - {x}, Nodes(g) - {x}, b, d.top);
    assert x in d.below;
    assert d.top !in c.below;
    if b in c.below {
      Enclosed(g, num, c, b, d.top);
    }
  }

  // Two blocks that share x have no connection but through x.
  lemma Separate(g: Graph, num: seq<nat>, cells: seq<Cell>, c: nat, d: nat, x: nat, a: nat, b: nat)
    requires Undirected(g) && CellsOk(g, num, cells) && |num| == |g|
    requires c < d < |cells| && x in cells[c].nodes && x in cells[d].nodes
    requires a in cells[c].nodes && a != x && b in cells[d].nodes && b != x
    ensures !Conn(g, Nodes(g) - {x}, a, b)
  {
    var p, q := cells[c], cells[d];
    assert CellOk(g, num, p) && CellOk(g, num, q);
    if x == p.top {
      if x != q.top {
        Outside(g, num, p, q, b);
      }
      Enclosed(g, num, p, a, b);
    } else {
      assert x == q.top;
      Outside(g, num, q, p, a);
      Enclosed(g, num, q, b, a);
      if Conn(g, Nodes(g) - {x}, a, b) {
        ConnSym(g, Nodes(g) - {x}, a, b);
      }
    }
  }

  lemma SeparateAny(g: Graph, num: seq<nat>, cells: seq<Cell>, c: nat, d: nat, x: nat, a: nat, b: nat)
    requires Undirected(g) && CellsOk(g, num, cells) && |num| == |g|
    requires c < |cells| && d < |cells| && c != d && x in cells[c].nodes && x in cells[d].nodes
    requires a in cells[c].nodes && a != x && b in cells[d].nodes && b != x
    ensures !Conn(g, Nodes(g) - {x}, a, b)
  {
    if c < d {
      Separate(g, num, cells, c, d, x, a, b);
    } else {
      Separate(g, num, cells, d, c, x, b, a);
      if Conn(g, Nodes(g) - {x}, a, b) {
        ConnSym(g, Nodes(g) - {x}, a, b);
      }
    }
  }

  // Two blocks share at most one node.
  lemma ShareOne(g: Graph, num: seq<nat>, cells: seq<Cell>, c: nat, d: nat, y: nat, z: nat)
    requires CellsOk(g, num, cells) && c < d < |cells|
    requires y in cells[c].nodes && y in cells[d].nodes && z in cells[c].nodes && z in cells[d].nodes
    ensures y == z
  {
    assert CellOk(g, num, cells[c]) && CellOk(g, num, cells[d]);
    hide Biconnected, Edge;
  }

  // ------------------------------------------------------- articulation points

  // x lies in at most one block.
  ghost predicate InAtMostOne(cells: seq<Cell>, x: nat) {
    forall c, d :: 0 <= c < |cells| && 0 <= d < |cells| && x in cells[c].nodes && x in cells[d].nodes ==> c == d
  }

  // A path through such a node can go round it.
  lemma {:induction false} GoRound(g: Graph, num: seq<nat>, cells: seq<Cell>, roots: set<nat>, x: nat, p: seq<nat>)
    requires Finished(g, num, cells, roots) && InAtMostOne(cells, x)
    requires Walk(g, Nodes(g), p) && p[0] != x && p[|p| - 1] != x
    ensures Conn(g, Nodes(g) - {x}, p[0], p[|p| - 1])
    decreases |p|
  {
    hide Finished, InAtMostOne, Conn;
    var s, b := Nodes(g) - {x}, p[|p| - 1];
    if |p| == 1 {
      ConnRefl(g, s, b);
    } else if p[1] != x {
      Tail(g, p, 1);
      GoRound(g, num, cells, roots, x, p[1..]);
      ConnRefl(g, s, p[0]);
      ConnStep(g, s, s, p[0], p[0], p[1]);
      ConnTrans(g, s, p[0], p[1], b);
    } else if p[2] == x {
      Tail(g, p, 2);
      var q := [p[0]] + p[2..];
      assert Edge(g, p[0], p[1]);
      Join(g, p[0], p[2..]);
      GoRound(g, num, cells, roots, x, q);
    } else {
      Tail(g, p, 2);
      GoRound(g, num, cells, roots, x, p[2..]);
      Around(g, num, cells, roots, x, p[0], p[2]) by {
        assert Edge(g, p[0], p[1]) && Edge(g, p[1], p[2]);
      }
      ConnTrans(g, s, p[0], p[2], b);
    }
  }

  lemma Tail(g: Graph, p: seq<nat>, i: nat)
    requires Walk(g, Nodes(g), p) && i < |p|
    ensures Walk(g, Nodes(g), p[i..]) && p[i..][|p| - i - 1] == p[|p| - 1]
  {
    forall j | 0 <= j < |p[i..]| - 1
      ensures Edge(g, p[i..][j], p[i..][j + 1])
    {
      assert Edge(g, p[i + j], p[i + j + 1]);
    }
  }

  lemma Join(g: Graph, a: nat, p: seq<nat>)
    requires Walk(g, Nodes(g), p) && a < |g| && Edge(g, a, p[0])
    ensures Walk(g, Nodes(g), [a] + p)
  {
    var q := [a] + p;
    forall j | 0 <= j < |q| - 1
      ensures Edge(g, q[j], q[j + 1])
    {
      if j > 0 {
        assert Edge(g, p[j - 1], p[j]);
      }
    }
  }

  // Two neighbours of x are connected without it, in the one block of x.
  lemma Around(g: Graph, num: seq<nat>, cells: seq<Cell>, roots: set<nat>, x: nat, a: nat, b: nat)
    requires Finished(g, num, cells, roots) && InAtMostOne(cells, x)
    requires Edge(g, a, x) && Edge(g, x, b) && a != x && b != x
    ensures Conn(g, Nodes(g) - {x}, a, b)
  {
    assert InOne(cells, a, x) && InOne(cells, x, b);
    var c :| 0 <= c < |cells| && a in cells[c].nodes && x in cells[c].nodes;
    var d :| 0 <= d < |cells| && x in cells[d].nodes && b in cells[d].nodes;
    assert c == d;
    CellConnects(g, num, cells, c, x, a, b);
  }

  // Within one block, nodes are connected without x.
  lemma CellConnects(g: Graph, num: seq<nat>, cells: seq<Cell>, c: nat, x: nat, a: nat, b: nat)
    requires CellsOk(g, num, cells) && |num| == |g| && c < |cells|
    requires a in cells[c].nodes && b in cells[c].nodes && a != x && b != x
    ensures Conn(g, Nodes(g) - {x}, a, b)
  {
    var n := cells[c].nodes;
    assert CellOk(g, num, cells[c]);
    CellInGraph(g, num, cells[c]);
    assert Conn(g, n - {x}, a, b);
    ConnWider(g, n - {x}, Nodes(g) - {x}, a, b);
  }

  // A node that is not the top of any block does not separate anything.
  lemma NoTopNoCut(g: Graph, num: seq<nat>, cells: seq<Cell>, roots: set<nat>, x: nat)
    requires Finished(g, num, cells, roots) && !IsTop(cells, x)
    ensures !Articulation(g, x)
  {
    if Articulation(g, x) {
      var a: nat, b: nat :| a != x && b != x && Conn(g, Nodes(g), a, b) && !Conn(g, Nodes(g) - {x}, a, b);
      var p :| Walk(g, Nodes(g), p) && p[0] == a && p[|p| - 1] == b;
      assert InAtMostOne(cells, x);
      GoRound(g, num, cells, roots, x, p);
    }
  }

  // A node that lies in two blocks does.
  lemma SharedCuts(g: Graph, num: seq<nat>, cells: seq<Cell>, c: nat, d: nat, x: nat)
    requires Undirected(g) && CellsOk(g, num, cells) && |num| == |g|
    requires c < |cells| && d < |cells| && c != d && x in cells[c].nodes && x in cells[d].nodes
    ensures Articulation(g, x)
  {
    var a, b := Other(g, num, cells, c, x), Other(g, num, cells, d, x);
    SeparateAny(g, num, cells, c, d, x, a, b);
    ConnTrans(g, Nodes(g), a, x, b);
  }

  // A node of block c other than x, connected to x.
  ghost function Other(g: Graph, num: seq<nat>, cells: seq<Cell>, c: nat, x: nat): (a: nat)
    requires Undirected(g) && CellsOk(g, num, cells) && |num| == |g| && c < |cells| && x in cells[c].nodes
    ensures a in cells[c].nodes && a != x
    ensures Conn(g, Nodes(g), a, x) && Conn(g, Nodes(g), x, a)
  {
    var n := cells[c].nodes;
    assert CellOk(g, num, cells[c]);
    var y :| y in n && y != cells[c].top;
    var a := if x == cells[c].top then y else cells[c].top;
    CellInGraph(g, num, cells[c]);
    assert n - {|g|} == n;
    assert Conn(g, n - {|g|}, a, x);
    ConnWider(g, n, Nodes(g), a, x);
    ConnSym(g, Nodes(g), a, x);
    a
  }

  // The mark Cut is set exactly on the articulation points and on the first node of
  // each component that has edges.
  lemma CutExact(g: Graph, num: seq<nat>, cells: seq<Cell>, roots: set<nat>, x: nat)
    requires Finished(g, num, cells, roots) && x < |g|
    ensures IsTop(cells, x) <==> Articulation(g, x) || (FirstOfComponent(g, x) && HasNeighbour(g, x))
  {
    RootIsFirst(g, num, cells, roots, x);
    hide Finished, Articulation, FirstOfComponent, HasNeighbour;
    if IsTop(cells, x) {
      TopCuts(g, num, cells, roots, x);
    } else {
      NoTopNoCut(g, num, cells, roots, x);
      if x in roots && HasNeighbour(g, x) {
        RootIsTop(g, num, cells, roots, x);
      }
    }
  }

  lemma TopCuts(g: Graph, num: seq<nat>, cells: seq<Cell>, roots: set<nat>, x: nat)
    requires Finished(g, num, cells, roots) && x < |g| && IsTop(cells, x)
    ensures if x in roots then HasNeighbour(g, x) else Articulation(g, x)
  {
    assert |num| == |g|;
    var c :| 0 <= c < |cells| && cells[c].top == x;
    assert CellOk(g, num, cells[c]) && x in cells[c].nodes;
    hide CellsOk, CellOk, Undirected, Conn, Articulation, RootsOk, InOne;
    if x in roots {
      var a := Other(g, num, cells, c, x);
      ConnLeaves(g, Nodes(g), {x}, x, a);
    } else {
      var d :| 0 <= d < |cells| && x in cells[d].nodes && x != cells[d].top;
      SharedCuts(g, num, cells, c, d, x);
    }
  }

  lemma RootIsTop(g: Graph, num: seq<nat>, cells: seq<Cell>, roots: set<nat>, x: nat)
    requires Finished(g, num, cells, roots) && x in roots && HasNeighbour(g, x)
    ensures IsTop(cells, x)
  {
    hide CellsOk, Undirected, RootsOk, Edge;
    var w: nat :| w != x && Edge(g, x, w);
    assert InOne(cells, x, w);
    var c :| 0 <= c < |cells| && x in cells[c].nodes && w in cells[c].nodes;
    assert !Closed(cells, x);
  }

  lemma TopLower(g: Graph, num: seq<nat>, cells: seq<Cell>, c: nat, x: nat)
    requires CellsOk(g, num, cells) && |num| == |g| && c < |cells| && x in cells[c].nodes && x != cells[c].top
    requires x < |g|
    ensures cells[c].top < |g| && num[cells[c].top] < num[x] && Conn(g, Nodes(g), x, cells[c].top)
  {
    assert CellOk(g, num, cells[c]);
    hide Biconnected, Conn;
    CellConnects(g, num, cells, c, |g|, x, cells[c].top);
    assert Nodes(g) - {|g|} == Nodes(g);
  }

  // Every node is connected to a root.
  lemma {:induction false} HasRoot(g: Graph, num: seq<nat>, cells: seq<Cell>, roots: set<nat>, x: nat) returns (r: nat)
    requires Finished(g, num, cells, roots) && x < |g|
    ensures r in roots && Conn(g, Nodes(g), x, r)
    decreases num[x]
  {
    if x in roots {
      ConnRefl(g, Nodes(g), x);
      r := x;
    } else {
      var c :| 0 <= c < |cells| && x in cells[c].nodes && x != cells[c].top;
      var top := cells[c].top;
      TopLower(g, num, cells, c, x);
      r := HasRoot(g, num, cells, roots, top);
      ConnTrans(g, Nodes(g), x, top, r);
    }
  }

  lemma RootFirst(g: Graph, num: seq<nat>, roots: set<nat>, x: nat)
    requires RootsOk(g, num, roots) && x in roots
    ensures FirstOfComponent(g, x)
  {
    forall y: nat | y < x
      ensures !Conn(g, Nodes(g), x, y)
    {
    }
  }

  lemma RootLeast(g: Graph, num: seq<nat>, roots: set<nat>, r: nat, x: nat)
    requires RootsOk(g, num, roots) && r in roots && Conn(g, Nodes(g), r, x) && x < |g| && num[x] != 0
    ensures r <= x
  {
    hide Conn;
  }

  lemma RootIsFirst(g: Graph, num: seq<nat>, cells: seq<Cell>, roots: set<nat>, x: nat)
    requires Finished(g, num, cells, roots) && x < |g|
    ensures x in roots <==> FirstOfComponent(g, x)
  {
    hide Conn, RootsOk, CellsOk, Closed, InOne;
    if x in roots {
      RootFirst(g, num, roots, x);
    } else {
      var r := HasRoot(g, num, cells, roots, x);
      ConnSym(g, Nodes(g), x, r);
      RootLeast(g, num, roots, r, x);
    }
  }

  // Of a single edge, the first end is marked, and it is no articulation point.
  lemma MarkedEnd()
    ensures var g := [[1], [0]];
            Undirected(g) && !Articulation(g, 0) && FirstOfComponent(g, 0) && HasNeighbour(g, 0)
  {
    var g: Graph := [[1], [0]];
    assert forall u: nat, v: nat :: Edge(g, u, v) <==> (u == 0 && v == 1) || (u == 1 && v == 0);
    assert Edge(g, 0, 1);
    forall a: nat, b: nat | a != 0 && b != 0 && Conn(g, Nodes(g), a, b)
      ensures Conn(g, Nodes(g) - {0}, a, b)
    {
      var p :| Walk(g, Nodes(g), p) && p[0] == a && p[|p| - 1] == b;
      assert p[0] in Nodes(g) && p[|p| - 1] in Nodes(g);
      assert a == 1 && b == 1;
      ConnRefl(g, Nodes(g) - {0}, 1);
    }
  }

  // -------------------------------------------------------------- the main result

  // The blocks of a graph: biconnected sets of at least two nodes, sharing at most
  // one node two by two, with every edge in one of them.
  ghost predicate AreBlocks(g: Graph, blks: seq<set<nat>>) {
    && (forall i :: 0 <= i < |blks| ==> blks[i] <= Nodes(g) && Biconnected(g, blks[i]) && HasTwo(blks[i]))
    && (forall i, j, y, z ::
         0 <= i < j < |blks| && y in blks[i] && y in blks[j] && z in blks[i] && z in blks[j] ==> y == z)
    && (forall y: nat, w: nat :: Edge(g, y, w) && y != w ==> Together(blks, y, w))
  }

  ghost predicate HasTwo(s: set<nat>) {
    exists y, z :: y in s && z in s && y != z
  }

  ghost predicate Together(blks: seq<set<nat>>, y: nat, w: nat) {
    exists i :: 0 <= i < |blks| && y in blks[i] && w in blks[i]
  }

  // No biconnected set is split between blocks, so that they are the maximal ones.
  ghost predicate AreMaximal(g: Graph, blks: seq<set<nat>>) {
    forall s: set<nat> :: s <= Nodes(g) && Biconnected(g, s) && HasTwo(s) ==> WithinOne(blks, s)
  }

  ghost predicate WithinOne(blks: seq<set<nat>>, s: set<nat>) {
    exists i :: 0 <= i < |blks| && s <= blks[i]
  }

  // An edge that is not a loop lies in exactly one block.
  lemma EdgeInOne(g: Graph, blks: seq<set<nat>>, y: nat, w: nat, i: nat, j: nat)
    requires AreBlocks(g, blks) && Edge(g, y, w) && y != w
    requires i < |blks| && j < |blks| && y in blks[i] && w in blks[i] && y in blks[j] && w in blks[j]
    ensures i == j
  {
  }

  lemma BlocksCorrect(g: Graph, num: seq<nat>, cells: seq<Cell>, roots: set<nat>, blks: seq<set<nat>>)
    requires Finished(g, num, cells, roots)
    requires |blks| == |cells| && forall i :: 0 <= i < |blks| ==> blks[i] == cells[i].nodes
    ensures AreBlocks(g, blks)
  {
    forall i | 0 <= i < |blks|
      ensures blks[i] <= Nodes(g) && Biconnected(g, blks[i]) && HasTwo(blks[i])
    {
      assert CellOk(g, num, cells[i]);
      CellInGraph(g, num, cells[i]);
    }
    forall i, j, y, z | 0 <= i < j < |blks| && y in blks[i] && y in blks[j] && z in blks[i] && z in blks[j]
      ensures y == z
    {
      ShareOne(g, num, cells, i, j, y, z);
    }
    forall y: nat, w: nat | Edge(g, y, w) && y != w
      ensures Together(blks, y, w)
    {
      assert InOne(cells, y, w);
    }
  }

  // An edge within a biconnected set that leaves a part of it.
  lemma LeavingEdge(g: Graph, s: set<nat>, part: set<nat>, y: nat, t: nat) returns (p: nat, q: nat)
    requires s <= Nodes(g) && Biconnected(g, s) && y in s && y in part && t in s && t !in part
    ensures p in part && p in s && q !in part && q in s && Edge(g, p, q)
  {
    assert s - {|g|} == s;
    assert Conn(g, s - {|g|}, y, t);
    ConnLeaves(g, s, part, y, t);
    p, q :| p in part && p in s && q !in part && q in s && Edge(g, p, q);
  }

  // A biconnected set that has two nodes of a block lies in it.
  lemma MaximalStep(g: Graph, num: seq<nat>, cells: seq<Cell>, roots: set<nat>, s: set<nat>, c: nat, y: nat, w: nat,
                    t: nat)
    requires Finished(g, num, cells, roots) && s <= Nodes(g) && Biconnected(g, s)
    requires c < |cells| && y in cells[c].nodes && w in cells[c].nodes && y in s && w in s && y != w && t in s
    ensures t in cells[c].nodes
  {
    hide Conn, CellsOk, CellOk, Undirected, Edge;
    if t !in cells[c].nodes {
      var p, q := LeavingEdge(g, s, cells[c].nodes, y, t);
      var a := if p == y then w else y;
      assert Conn(g, s - {p}, a, q);
      hide Biconnected;
      assert InOne(cells, p, q);
      var d: nat :| 0 <= d < |cells| && p in cells[d].nodes && q in cells[d].nodes;
      SeparateAny(g, num, cells, c, d, p, a, q);
      ConnWider(g, s - {p}, Nodes(g) - {p}, a, q);
    }
  }

  lemma MaximalOne(g: Graph, num: seq<nat>, cells: seq<Cell>, roots: set<nat>, s: set<nat>)
    returns (c: nat)
    requires Finished(g, num, cells, roots) && s <= Nodes(g) && Biconnected(g, s) && HasTwo(s)
    ensures c < |cells| && s <= cells[c].nodes
  {
    var y, z :| y in s && z in s && y != z;
    var y', w := LeavingEdge(g, s, {y}, y, z);
    assert InOne(cells, y, w);
    c :| 0 <= c < |cells| && y in cells[c].nodes && w in cells[c].nodes;
    hide Finished, Biconnected, Conn, Nodes;
    forall t | t in s
      ensures t in cells[c].nodes
    {
      MaximalStep(g, num, cells, roots, s, c, y, w, t);
    }
  }

  lemma BlocksMaximal(g: Graph, num: seq<nat>, cells: seq<Cell>, roots: set<nat>, blks: seq<set<nat>>)
    requires Finished(g, num, cells, roots)
    requires |blks| == |cells| && forall i :: 0 <= i < |blks| ==> blks[i] == cells[i].nodes
    ensures AreMaximal(g, blks)
  {
    forall s: set<nat> | s <= Nodes(g) && Biconnected(g, s) && HasTwo(s)
      ensures WithinOne(blks, s)
    {
      var c := MaximalOne(g, num, cells, roots, s);
      assert s <= blks[c];
    }
  }

  lemma NoRoots(g: Graph, num: seq<nat>)
    requires |num| == |g|
    ensures RootsOk(g, num, {})
  {
  }

  lemma RootStart(g: Graph, num: seq<nat>, count: nat, roots: set<nat>, cells: seq<Cell>, cut: seq<bool>, n: nat)
    requires Invariant(g, num, count, {}, roots, cells, cut, []) && n < |g| && |num| == |g| && num[n] == 0
    ensures Invariant(g, num[n := count + 1], count + 1, {} + {n}, roots + {n}, cells, cut, [])
    ensures Active(g, num[n := count + 1], {}, None, n)
    ensures forall x :: 0 <= x < |num| ==> num[x] <= count
  {
    EnterRoot(g, num, count, roots, cells, cut, [], n);
    assert {} + {n} == {n};
    hide CellsOk, Colored, StackOk, EdgesCovered, Homed, CutOk, Undirected, Ends;
  }

  lemma RootEnd(g: Graph, num0: seq<nat>, count0: nat, roots0: set<nat>, cells0: seq<Cell>, low0: seq<nat>,
                cut0: seq<bool>,
                num: seq<nat>, count: nat, cells: seq<Cell>, low: seq<nat>, stk: seq<HalfEdge>, n: nat)
    requires Invariant(g, num0, count0, {}, roots0, cells0, cut0, []) && RootsOk(g, num0, roots0)
    requires n < |g| && |num0| == |g| && num0[n] == 0 && forall y :: 0 <= y < n ==> num0[y] > 0
    requires Grown(num0, count0, cells0, low0, num, count, cells, low, n)
    requires Searched(g, num, stk, {}, None, low[n], n, |g[n]|)
    ensures stk == [] && RootsOk(g, num, roots0 + {n}) && |num| == |g|
    ensures forall y :: 0 <= y <= n ==> num[y] > 0
  {
    RootsGrow(g, num0, count0, num, roots0, n);
    hide CellsOk, Colored, StackOk, EdgesCovered, Homed, CutOk, Undirected, Ends, RootsOk;
  }

  lemma CutFinal(g: Graph, num: seq<nat>, count: nat, roots: set<nat>, cells: seq<Cell>, cut: seq<bool>)
    requires Invariant(g, num, count, {}, roots, cells, cut, []) && Finished(g, num, cells, roots)
    ensures |cut| == |g|
    ensures forall x :: 0 <= x < |g| ==>
              (cut[x] <==> Articulation(g, x) || (FirstOfComponent(g, x) && HasNeighbour(g, x)))
  {
    forall x | 0 <= x < |g|
      ensures IsTop(cells, x) <==> Articulation(g, x) || (FirstOfComponent(g, x) && HasNeighbour(g, x))
    {
      CutExact(g, num, cells, roots, x);
    }
  }
}
