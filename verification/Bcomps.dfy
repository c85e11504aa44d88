// bcomps: the biconnected blocks of an undirected graph, found in one depth-first
// search with a stack of edges.
module Bcomps {
  import opened Wrappers
  import opened Digraph
  import opened BlockSearch
  import opened Blocks

  class BcState {
    const g: Graph
    var num: seq<nat>
    var low: seq<nat>
    var cut: seq<bool>
    var count: nat
    var nComp: nat
    var stk: seq<HalfEdge>
    // The node sets of the blocks, the latest last.
    var blks: seq<set<nat>>
    ghost var cells: seq<Cell>
    ghost var roots: set<nat>

    ghost predicate Blocks()
      reads this
    {
      && nComp == |blks| == |cells| && |low| == |g|
      && forall i :: 0 <= i < |blks| ==> blks[i] == cells[i].nodes
    }

    ghost predicate Valid(gray: set<nat>)
      reads this
    {
      Blocks() && Invariant(g, num, count, gray, roots, cells, cut, stk)
    }

    constructor (g: Graph)
      requires Undirected(g)
      ensures this.g == g && Valid({}) && stk == [] && roots == {} && |num| == |g|
      ensures forall v :: 0 <= v < |g| ==> num[v] == 0
    {
      this.g := g;
      num, low, cut := seq(|g|, _ => 0), seq(|g|, _ => 0), seq(|g|, _ => false);
      count, nComp, stk, blks, cells, roots := 0, 0, [], [], [], {};
      new;
      assert Ends(g, []) == {};
    }

    // Pops the edges from e on, and collects their ends.
    method PopEdges(e: HalfEdge, ghost base: seq<HalfEdge>, ghost seg: seq<HalfEdge>) returns (sg: set<nat>)
      requires stk == base + [e] + seg && e !in seg
      requires IsEdge(g, e) && forall f :: f in seg ==> IsEdge(g, f)
      modifies this`stk
      ensures stk == base && sg == Ends(g, [e] + seg)
    {
      sg := {};
      ghost var j := |seg|;
      while true
        invariant 0 <= j <= |seg| && stk == base + [e] + seg[..j]
        invariant sg == Ends(g, seg[j..])
        decreases |stk|
      {
        var ep := stk[|stk| - 1];
        assert ep == if j == 0 then e else seg[j - 1];
        assert IsEdge(g, ep);
        stk := stk[..|stk| - 1];
        sg := sg + {ep.0, g[ep.0][ep.1]};
        EndsOne(g, ep);
        if ep == e {
          assert seg[0..] == seg;
          EndsSplit(g, [e], seg);
          break;
        }
        j := j - 1;
        assert seg[j..] == [ep] + seg[j + 1..];
        EndsSplit(g, [ep], seg[j + 1..]);
      }
    }

    // Emits the block of e = (u, k) and the edges above it.
    method EmitBlock(e: HalfEdge, ghost base: seq<HalfEdge>, ghost seg: seq<HalfEdge>, ghost gray: set<nat>,
                     ghost b: Cell)
      requires Valid(gray) && stk == base + ([e] + seg) && e !in seg && b.top == e.0
      requires IsEdge(g, e) && forall f :: f in seg ==> IsEdge(g, f)
      requires Popped(g, num, base, [e] + seg, gray, roots, cells, b)
      modifies this`stk, this`cut, this`nComp, this`blks, this`cells
      ensures Valid(gray) && stk == base && cells == old(cells) + [b]
      ensures blks == old(blks) + [Ends(g, [e] + seg)] && cut == old(cut)[e.0 := true]
    {
      hide Invariant, Ends;
      PopTop(g, num, count, base, [e] + seg, gray, roots, cells, cut, b);
      Pop(g, num, count, base, [e] + seg, gray, roots, cells, cut, b);
      assert base + ([e] + seg) == base + [e] + seg;
      cut := cut[e.0 := true];
      nComp := nComp + 1;
      var sg := PopEdges(e, base, seg);
      blks := blks + [sg];
      cells := cells + [b];
    }

    method Dfs(u: nat, parent: Option<nat>, ghost gray: set<nat>)
      requires u < |g| && |num| == |low| == |g| && num[u] == 0 && u !in gray
      requires Blocks() && Invariant(g, num[u := count + 1], count + 1, gray + {u}, roots, cells, cut, stk)
      requires Active(g, num[u := count + 1], gray, parent, u)
      requires u in roots || u in Ends(g, stk)
      requires parent.Some? ==> Covered(g, cells, stk, u, parent.value)
      requires forall x :: 0 <= x < |num| ==> num[x] <= count
      modifies this
      ensures Valid(gray) && roots == old(roots)
      ensures Grown(old(num), old(count), old(cells), old(low), num, count, cells, low, u)
      ensures old(stk) <= stk
      ensures Searched(g, num, stk[|old(stk)|..], gray, parent, low[u], u, |g[u]|)
      decreases White(num)
    {
      hide Invariant, Searched, Ends, Active, SlotsDone, Covered, Grown, White;
      ghost var num0, count0, cells0, low0, stk0 := num, count, cells, low, stk;
      count := count + 1;
      num := num[u := count];
      low := low[u := count];
      CallStart(g, num0, count0, cells0, low0, stk0, gray, parent, u);
      ghost var seg: seq<HalfEdge> := [];
      for k := 0 to |g[u]|
        invariant Valid(gray + {u}) && roots == old(roots)
        invariant Active(g, num, gray, parent, u)
        invariant stk == stk0 + seg && Searched(g, num, seg, gray, parent, low[u], u, k)
        invariant SlotsDone(g, num, cells, stk, u, k)
        invariant Grown(num0, count0, cells0, low0, num, count, cells, low, u)
      {
        seg := Step(u, k, parent, gray, stk0, seg, num0, count0, cells0, low0);
      }
      assert stk[|stk0|..] == seg;
      CallEnd(g, num, count, gray, roots, cells, cut, stk, parent, u);
    }

    // One edge of u.
    method Step(u: nat, k: nat, parent: Option<nat>, ghost gray: set<nat>, ghost stk0: seq<HalfEdge>,
                ghost seg0: seq<HalfEdge>,
                ghost num0: seq<nat>, ghost count0: nat, ghost cells0: seq<Cell>, ghost low0: seq<nat>)
      returns (ghost seg: seq<HalfEdge>)
      requires u < |g| && k < |g[u]|
      requires Valid(gray + {u})
      requires Active(g, num, gray, parent, u)
      requires stk == stk0 + seg0 && Searched(g, num, seg0, gray, parent, low[u], u, k)
      requires SlotsDone(g, num, cells, stk, u, k)
      requires Grown(num0, count0, cells0, low0, num, count, cells, low, u)
      requires u in roots || u in Ends(g, stk0)
      requires parent.Some? ==> Covered(g, cells0, stk0, u, parent.value)
      modifies this
      ensures Valid(gray + {u}) && roots == old(roots)
      ensures Active(g, num, gray, parent, u)
      ensures stk == stk0 + seg && u < |low| && Searched(g, num, seg, gray, parent, low[u], u, k + 1)
      ensures SlotsDone(g, num, cells, stk, u, k + 1)
      ensures Grown(num0, count0, cells0, low0, num, count, cells, low, u)
      decreases White(num0), 0
    {
      hide Invariant, Searched, Ends, Active, SlotsDone, Covered, Grown, White;
      var e: HalfEdge, v := (u, k), g[u][k];
      seg := seg0;
      StepFacts(g, num, count, gray, roots, cells, cut, stk, parent, u, k, seg0, low[u],
                num0, count0, cells0, low0, low);
      if v == u {
        StepSkip(g, num, cells0, stk0, cells, stk, seg, gray, parent, low[u], u, k);
      } else if num[v] == 0 {
        seg := TreeEdge(u, k, parent, gray, stk0, seg0, num0, count0, cells0, low0);
      } else if parent != Some(v) {
        if num[v] < num[u] {
          StepBack(g, num, count, gray, roots, cells, cut, stk, seg, parent, low[u], u, k);
          seg := seg0 + [e];
        } else {
          StepSkip(g, num, cells0, stk0, cells, stk, seg, gray, parent, low[u], u, k);
        }
        ghost var l := low;
        low := low[u := if low[u] < num[v] then low[u] else num[v]];
        GrownLow(num0, count0, cells0, low0, num, count, cells, l, low, u);
        if num[v] < num[u] {
          stk := stk + [e];
        }
      } else {
        StepSkip(g, num, cells0, stk0, cells, stk, seg, gray, parent, low[u], u, k);
      }
    }

    // An edge of u to a node that has not been visited.
    method TreeEdge(u: nat, k: nat, parent: Option<nat>, ghost gray: set<nat>, ghost stk0: seq<HalfEdge>,
                    ghost seg0: seq<HalfEdge>,
                    ghost num0: seq<nat>, ghost count0: nat, ghost cells0: seq<Cell>, ghost low0: seq<nat>)
      returns (ghost seg: seq<HalfEdge>)
      requires u < |g| == |num| && k < |g[u]| && g[u][k] < |g| && num[g[u][k]] == 0
      requires Valid(gray + {u})
      requires Active(g, num, gray, parent, u)
      requires stk == stk0 + seg0 && Searched(g, num, seg0, gray, parent, low[u], u, k)
      requires SlotsDone(g, num, cells, stk, u, k)
      requires Grown(num0, count0, cells0, low0, num, count, cells, low, u)
      requires u in roots || u in Ends(g, stk0)
      modifies this
      ensures Valid(gray + {u}) && roots == old(roots)
      ensures Active(g, num, gray, parent, u)
      ensures stk == stk0 + seg && u < |low| && Searched(g, num, seg, gray, parent, low[u], u, k + 1)
      ensures SlotsDone(g, num, cells, stk, u, k + 1)
      ensures Grown(num0, count0, cells0, low0, num, count, cells, low, u)
      decreases White(num0), -1
    {
      hide Invariant, Searched, Ends, Active, SlotsDone, Covered, Grown, White;
      var e: HalfEdge, v := (u, k), g[u][k];
      ghost var num1, count1, cells1, cut1, low1, base := num, count, cells, cut, low, stk;
      ChildStart(g, num, count, gray, roots, cells, cut, stk, parent, u, k);
      WhiteLess(num0, count0, cells0, low0, num, count, cells, low, u);
      stk := stk + [e];
      Dfs(v, Some(u), gray + {u});
      ghost var seg2 := stk[|base + [e]|..];
      ghost var low2 := low;
      assert stk == base + [e] + seg2;
      EndsSplit(g, stk0, seg0);
      GrownTrans(num0, count0, cells0, low0, num1, count1, cells1, low1, num, count, cells, low, u, v);
      low := low[u := if low[u] < low[v] then low[u] else low[v]];
      GrownLow(num0, count0, cells0, low0, num, count, cells, low2, low, u);
      ChildReturns(g, num1, count1, cells1, cut1, low1, base, num, count, cells, cut, low2, seg2, gray, roots, parent,
                   u, k);
      ActiveLater(g, num1, count1, num, gray, parent, u);
      if low[v] >= num[u] {
        seg := seg0;
        ghost var b := NewCell(g, num, seg2, u, v);
        ChildPops(g, num1, count1, cells1, base, num, count, cells, cut, seg, seg2, gray, roots, parent, low1[u],
                  low[v], u, k);
        SegmentEdges(g, num, seg2, gray + {u}, Some(u), low[v], v, |g[v]|);
        GrownBlock(num0, count0, cells0, low0, num, count, cells, low, b, u);
        assert stk == base + ([e] + seg2);
        EmitBlock(e, base, seg2, gray + {u}, b);
      } else {
        seg := seg0 + [e] + seg2;
        ChildStays(g, num1, count1, cells1, base, num, count, cells, cut, seg0, seg2, gray, roots, parent, low1[u],
                   low[v], u, k);
        assert stk == stk0 + seg;
      }
      SlotsChild(g, num1, count1, cells1, base, num, cells, stk, u, k);
    }
  }

  // The driver loop: searches from every node not visited yet. The edge stack is
  // empty after each search.
  method Process(g: Graph) returns (blks: seq<set<nat>>, cut: seq<bool>)
    requires Undirected(g)
    ensures AreBlocks(g, blks) && AreMaximal(g, blks)
    ensures |cut| == |g|
    ensures forall x :: 0 <= x < |g| ==>
              (cut[x] <==> Articulation(g, x) || (FirstOfComponent(g, x) && HasNeighbour(g, x)))
  {
    hide Invariant, Searched, Ends, Grown, Active, RootsOk;
    hide Finished, AreBlocks, AreMaximal, Articulation, FirstOfComponent, HasNeighbour;
    var st := new BcState(g);
    NoRoots(g, st.num);
    for n := 0 to |g|
      invariant st.g == g && st.Valid({}) && st.stk == []
      invariant |st.num| == |g| && RootsOk(g, st.num, st.roots)
      invariant forall y :: 0 <= y < n ==> st.num[y] > 0
    {
      if st.num[n] == 0 {
        RootStart(g, st.num, st.count, st.roots, st.cells, st.cut, n);
        ghost var num0, count0, roots0, cells0, low0 := st.num, st.count, st.roots, st.cells, st.low;
        ghost var cut0 := st.cut;
        st.roots := st.roots + {n};
        st.Dfs(n, None, {});
        assert st.stk[0..] == st.stk;
        RootEnd(g, num0, count0, roots0, cells0, low0, cut0, st.num, st.count, st.cells, st.low, st.stk, n);
      }
    }
    AllFinished(g, st.num, st.count, st.roots, st.cells, st.cut);
    blks, cut := st.blks, st.cut;
    BlocksCorrect(g, st.num, st.cells, st.roots, blks);
    BlocksMaximal(g, st.num, st.cells, st.roots, blks);
    CutFinal(g, st.num, st.count, st.roots, st.cells, cut);
  }
}
