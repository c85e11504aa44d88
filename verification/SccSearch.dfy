// The invariant of the depth-first search in sccmap: what the single field val,
// which is both visit number and "finished" mark, says about reachability.
module SccSearch {
  import opened Digraph
  import opened Finite

  // val of a node: 0 before it is visited, its visit number while it is on the
  // stack, INF once its component is known.
  const INF: nat := 0xFFFF_FFFF

  ghost function White(val: seq<nat>): set<nat> {
    set v: nat | 0 <= v < |val| && val[v] == 0
  }

  ghost function Visited(val: seq<nat>): set<nat> {
    set v: nat | 0 <= v < |val| && val[v] != 0
  }

  // The stack holds exactly the visited, unfinished nodes, in visit order.
  ghost predicate Stacked(g: Graph, val: seq<nat>, stack: seq<nat>, id: nat) {
    && |val| == |g| < INF
    && id == |Visited(val)|
    && (forall v :: 0 <= v < |val| ==> val[v] <= id || val[v] == INF)
    && (forall i :: 0 <= i < |stack| ==> stack[i] < |val| && 0 < val[stack[i]] <= id)
    && (forall i, j :: 0 <= i < j < |stack| ==> val[stack[i]] < val[stack[j]])
    && (forall v :: 0 <= v < |val| && 0 < val[v] < INF ==> v in stack)
  }

  ghost predicate InRange(val: seq<nat>, stack: seq<nat>) {
    forall i :: 0 <= i < |stack| ==> stack[i] < |val|
  }

  // Only active (gray) nodes have unvisited heads, and finished nodes have
  // finished heads only.
  ghost predicate Colored(g: Graph, val: seq<nat>, gray: set<nat>)
    requires |val| == |g|
  {
    && DoneClosed(g, val)
    && (forall u: nat, v: nat :: Edge(g, u, v) && v < |g| && val[u] != 0 && u !in gray ==> val[v] != 0)
  }

  ghost predicate DoneClosed(g: Graph, val: seq<nat>)
    requires |val| == |g|
  {
    forall u: nat, v: nat :: Edge(g, u, v) && v < |g| && val[u] == INF ==> val[v] == INF
  }

  ghost predicate BackTo(g: Graph, stack: seq<nat>, gray: set<nat>, j: nat)
    requires j < |stack|
  {
    exists i :: 0 <= i <= j && stack[i] in gray && Reach(g, stack[j], stack[i])
  }

  // Lower stack entries reach higher ones, and every entry reaches an active
  // node that is not above it.
  ghost predicate Linked(g: Graph, stack: seq<nat>, gray: set<nat>) {
    && (forall x :: x in gray ==> x in stack)
    && (forall i, j :: 0 <= i <= j < |stack| ==> Reach(g, stack[i], stack[j]))
    && (forall j :: 0 <= j < |stack| ==> BackTo(g, stack, gray, j))
  }

  ghost predicate Invariant(g: Graph, val: seq<nat>, stack: seq<nat>, id: nat, gray: set<nat>) {
    && WellFormed(g)
    && |val| == |g|
    && InRange(val, stack)
    && Stacked(g, val, stack, id)
    && Colored(g, val, gray)
    && Linked(g, stack, gray)
  }

  // A later state of the search keeps the old stack as a prefix and every
  // number already given.
  ghost predicate Extends(val0: seq<nat>, stack0: seq<nat>, val: seq<nat>, stack: seq<nat>) {
    && |val| == |val0|
    && stack0 <= stack
    && (forall v :: 0 <= v < |val| && val0[v] != 0 ==> val[v] == val0[v])
  }

  // m bounds from below the numbers met by edges from stack[from..] to stack[..upto].
  ghost predicate LowBound(g: Graph, val: seq<nat>, stack: seq<nat>, from: nat, upto: nat, m: nat)
    requires InRange(val, stack)
  {
    forall i, j :: from <= i < |stack| && 0 <= j < upto && j < |stack| && Edge(g, stack[i], stack[j])
      ==> m <= val[stack[j]]
  }

  // m is the number of a node at or below position upto that n reaches.
  ghost predicate LowWitness(g: Graph, val: seq<nat>, stack: seq<nat>, n: nat, upto: nat, m: nat)
    requires InRange(val, stack)
  {
    exists j :: 0 <= j < upto && j < |stack| && val[stack[j]] == m && Reach(g, n, stack[j])
  }

  // What a call of visit on n returns in m, given the state before it.
  ghost predicate VisitResult(g: Graph, val0: seq<nat>, stack0: seq<nat>, id0: nat,
                              val: seq<nat>, stack: seq<nat>, n: nat, m: nat)
    requires |val| == |g| && n < |g|
    requires InRange(val, stack)
  {
    && Extends(val0, stack0, val, stack)
    && val[n] != 0
    && if |stack| == |stack0| then val[n] == INF && m == id0 + 1
       else
         && stack[|stack0|] == n
         && LowWitness(g, val, stack, n, |stack0|, m)
         && LowBound(g, val, stack, |stack0|, |stack0|, m)
  }

  // ---------------------------------------------------------------- entering

  lemma VisitedBound(val: seq<nat>)
    ensures |Visited(val)| <= |val|
    ensures White(val) != {} ==> |Visited(val)| < |val|
  {
    SubsetSize(Visited(val), Below(|val|));
    if v :| v in White(val) {
      SubsetSize(Visited(val) + {v}, Below(|val|));
    }
  }

  lemma VisitedStep(val: seq<nat>, n: nat, m: nat)
    requires n < |val| && val[n] == 0 && m != 0
    ensures |Visited(val[n := m])| == |Visited(val)| + 1
    ensures White(val[n := m]) == White(val) - {n}
  {
    assert Visited(val[n := m]) == Visited(val) + {n};
  }

  lemma EnterStacked(g: Graph, val: seq<nat>, stack: seq<nat>, id: nat, n: nat)
    requires Stacked(g, val, stack, id) && n < |g| && val[n] == 0
    ensures id + 1 < INF
    ensures Stacked(g, val[n := id + 1], stack + [n], id + 1)
    ensures White(val[n := id + 1]) == White(val) - {n}
  {
    VisitedBound(val);
    assert n in White(val);
    var val' := val[n := id + 1];
    VisitedStep(val, n, id + 1);
    forall v | 0 <= v < |val'| && 0 < val'[v] < INF
      ensures v in stack + [n]
    {
      if v != n { assert v in stack; }
    }
  }

  lemma EnterLinked(g: Graph, stack: seq<nat>, gray: set<nat>, n: nat)
    requires Linked(g, stack, gray)
    requires forall x :: x in gray ==> Reach(g, x, n)
    ensures Linked(g, stack + [n], gray + {n})
  {
    var s := stack + [n];
    ReachRefl(g, n);
    forall i, j | 0 <= i <= j < |s|
      ensures Reach(g, s[i], s[j])
    {
      if j == |stack| && i < j {
        assert BackTo(g, stack, gray, i);
        var k :| 0 <= k <= i && stack[k] in gray && Reach(g, stack[i], stack[k]);
        ReachTrans(g, stack[i], stack[k], n);
      }
    }
    forall j | 0 <= j < |s|
      ensures BackTo(g, s, gray + {n}, j)
    {
      if j < |stack| {
        assert BackTo(g, stack, gray, j);
        var k :| 0 <= k <= j && stack[k] in gray && Reach(g, stack[j], stack[k]);
        assert s[k] in gray + {n};
      } else {
        assert s[j] in gray + {n};
      }
    }
  }

  lemma Enter(g: Graph, val: seq<nat>, stack: seq<nat>, id: nat, gray: set<nat>, n: nat)
    requires Invariant(g, val, stack, id, gray) && n < |g| && val[n] == 0
    requires forall x :: x in gray ==> Reach(g, x, n)
    ensures id + 1 < INF
    ensures n !in gray && forall x :: x in gray ==> x in stack
    ensures Invariant(g, val[n := id + 1], stack + [n], id + 1, gray + {n})
    ensures White(val[n := id + 1]) == White(val) - {n}
  {
    EnterStacked(g, val, stack, id, n);
    EnterLinked(g, stack, gray, n);
  }

  // ----------------------------------------------------------------- leaving

  // n turns black but stays on the stack, because it reaches an entry below it.
  lemma StayLinked(g: Graph, val: seq<nat>, stack: seq<nat>, id: nat, gray: set<nat>, b: nat)
    requires Stacked(g, val, stack, id)
    requires b < |stack| && stack[b] !in gray
    requires Linked(g, stack, gray + {stack[b]})
    requires exists j :: 0 <= j < b && Reach(g, stack[b], stack[j])
    ensures Linked(g, stack, gray)
  {
    var n := stack[b];
    var low :| 0 <= low < b && Reach(g, n, stack[low]);
    forall j | 0 <= j < |stack|
      ensures BackTo(g, stack, gray, j)
    {
      assert BackTo(g, stack, gray + {n}, j);
      var i :| 0 <= i <= j && stack[i] in gray + {n} && Reach(g, stack[j], stack[i]);
      if stack[i] == n {
        assert i == b;
        assert BackTo(g, stack, gray + {n}, low);
        var k :| 0 <= k <= low && stack[k] in gray + {n} && Reach(g, stack[low], stack[k]);
        assert stack[k] != n;
        ReachTrans(g, stack[j], n, stack[low]);
        ReachTrans(g, stack[j], stack[low], stack[k]);
        assert 0 <= k <= j && stack[k] in gray;
      }
    }
  }

  lemma Stay(g: Graph, val: seq<nat>, stack: seq<nat>, id: nat, gray: set<nat>, b: nat)
    requires b < |stack| && stack[b] !in gray
    requires Invariant(g, val, stack, id, gray + {stack[b]})
    requires forall v: nat :: Edge(g, stack[b], v) && v < |g| ==> val[v] != 0
    requires exists j :: 0 <= j < b && Reach(g, stack[b], stack[j])
    ensures Invariant(g, val, stack, id, gray)
  {
    StayLinked(g, val, stack, id, gray, b);
  }

  // val with every node of seg marked finished.
  ghost function Finish(val: seq<nat>, seg: seq<nat>): (r: seq<nat>)
    ensures |r| == |val|
  {
    seq(|val|, v requires 0 <= v < |val| => if v in seg then INF else val[v])
  }

  lemma LeaveStacked(g: Graph, val: seq<nat>, stack: seq<nat>, id: nat, b: nat)
    requires Stacked(g, val, stack, id) && b < |stack|
    ensures Stacked(g, Finish(val, stack[b..]), stack[..b], id)
  {
    var val' := Finish(val, stack[b..]);
    assert Visited(val') == Visited(val);
    VisitedBound(val);
    forall i | 0 <= i < b
      ensures stack[i] !in stack[b..]
    {
    }
    forall v | 0 <= v < |val'| && 0 < val'[v] < INF
      ensures v in stack[..b]
    {
      assert val'[v] == val[v] && v in stack;
    }
  }

  lemma LeaveLinked(g: Graph, val: seq<nat>, stack: seq<nat>, id: nat, gray: set<nat>, b: nat)
    requires Stacked(g, val, stack, id)
    requires b < |stack| && stack[b] !in gray
    requires forall x :: x in gray ==> x in stack[..b]
    requires Linked(g, stack, gray + {stack[b]})
    ensures Linked(g, stack[..b], gray)
  {
    var s := stack[..b];
    forall j | 0 <= j < |s|
      ensures BackTo(g, s, gray, j)
    {
      assert BackTo(g, stack, gray + {stack[b]}, j);
      var i :| 0 <= i <= j && stack[i] in gray + {stack[b]} && Reach(g, stack[j], stack[i]);
      assert s[i] == stack[i] && s[j] == stack[j];
      assert s[i] in gray && Reach(g, s[j], s[i]);
    }
  }

  // Every edge out of the segment above position b stays in it or ends in a
  // finished node, when the low value equals the number of stack[b].
  lemma SegmentClosed(g: Graph, val: seq<nat>, stack: seq<nat>, id: nat, gray: set<nat>, b: nat, u: nat, v: nat)
    requires b < |stack| && stack[b] !in gray
    requires forall x :: x in gray ==> x in stack[..b]
    requires Invariant(g, val, stack, id, gray + {stack[b]})
    requires forall v: nat :: Edge(g, stack[b], v) && v < |g| ==> val[v] != 0
    requires LowBound(g, val, stack, b, b, val[stack[b]])
    requires u in stack[b..] && Edge(g, u, v)
    ensures v < |g| && (v in stack[b..] || val[v] == INF)
  {
    VisitedBound(val);
    var i :| b <= i < |stack| && stack[i] == u;
    forall k | 0 <= k < b
      ensures stack[k] != u
    {
      assert val[stack[k]] < val[stack[i]];
    }
    assert v < |g| && val[v] != 0;
    if val[v] != INF {
      assert v in stack;
      var j :| 0 <= j < |stack| && stack[j] == v;
    }
  }

  lemma Leave(g: Graph, val: seq<nat>, stack: seq<nat>, id: nat, gray: set<nat>, b: nat)
    requires b < |stack| && stack[b] !in gray
    requires forall x :: x in gray ==> x in stack[..b]
    requires Invariant(g, val, stack, id, gray + {stack[b]})
    requires forall v: nat :: Edge(g, stack[b], v) && v < |g| ==> val[v] != 0
    requires LowBound(g, val, stack, b, b, val[stack[b]])
    ensures Invariant(g, Finish(val, stack[b..]), stack[..b], id, gray)
  {
    LeaveStacked(g, val, stack, id, b);
    LeaveLinked(g, val, stack, id, gray, b);
    var val' := Finish(val, stack[b..]);
    forall u: nat, v: nat | Edge(g, u, v) && v < |g|
      ensures val'[u] == INF ==> val'[v] == INF
      ensures val'[u] != 0 && u !in gray ==> val'[v] != 0
    {
      if u in stack[b..] {
        SegmentClosed(g, val, stack, id, gray, b, u, v);
      }
    }
  }

  // The segment above position b is one whole strongly connected component.
  lemma SegmentIsComponent(g: Graph, val: seq<nat>, stack: seq<nat>, id: nat, gray: set<nat>, b: nat, u: nat, v: nat)
    requires b < |stack| && stack[b] !in gray
    requires forall x :: x in gray ==> x in stack[..b]
    requires Invariant(g, val, stack, id, gray + {stack[b]})
    requires forall v: nat :: Edge(g, stack[b], v) && v < |g| ==> val[v] != 0
    requires LowBound(g, val, stack, b, b, val[stack[b]])
    requires u in stack[b..]
    ensures Mutual(g, u, v) <==> v in stack[b..]
  {
    if v in stack[b..] {
      SegmentMutual(g, val, stack, id, gray, b, u, v);
      SegmentMutual(g, val, stack, id, gray, b, v, u);
    } else if Mutual(g, u, v) {
      VisitedBound(val);
      var done := set x: nat | 0 <= x < |g| && val[x] == INF;
      var seg := set x | x in stack[b..];
      forall x: nat, y: nat | x in done && Edge(g, x, y)
        ensures y in done
      {
      }
      forall x: nat, y: nat | x in seg + done && Edge(g, x, y)
        ensures y in seg + done
      {
        if x in seg { SegmentClosed(g, val, stack, id, gray, b, x, y); }
      }
      ReachClosed(g, seg + done, u, v);
      ReachClosed(g, done, v, u);
      assert false;
    }
  }

  ghost predicate Distinct(s: seq<nat>) {
    forall i, j :: 0 <= i < j < |s| ==> s[i] != s[j]
  }

  // The segment seg above the active nodes is one component, all on the stack.
  ghost predicate IsClass(g: Graph, val: seq<nat>, seg: seq<nat>) {
    && seg != []
    && Distinct(seg)
    && (forall x :: x in seg ==> x < |g| && x < |val| && 0 < val[x] < INF)
    && (forall u: nat, v: nat :: u in seg ==> (Mutual(g, u, v) <==> v in seg))
  }

  lemma SegmentIsClass(g: Graph, val: seq<nat>, stack: seq<nat>, id: nat, gray: set<nat>, b: nat)
    requires b < |stack| && stack[b] !in gray
    requires forall x :: x in gray ==> x in stack[..b]
    requires Invariant(g, val, stack, id, gray + {stack[b]})
    requires forall v: nat :: Edge(g, stack[b], v) && v < |g| ==> val[v] != 0
    requires LowBound(g, val, stack, b, b, val[stack[b]])
    ensures Distinct(stack) && IsClass(g, val, stack[b..])
  {
    VisitedBound(val);
    forall u: nat, v: nat | u in stack[b..]
      ensures Mutual(g, u, v) <==> v in stack[b..]
    {
      SegmentIsComponent(g, val, stack, id, gray, b, u, v);
    }
    assert stack[b..][0] == stack[b];
  }

  // An active entry is at or below position b.
  lemma ActiveBelow(g: Graph, val: seq<nat>, stack: seq<nat>, id: nat, gray: set<nat>, b: nat, k: nat)
    requires b < |stack| && Stacked(g, val, stack, id) && k < |stack|
    requires forall x :: x in gray ==> x in stack[..b]
    requires stack[k] in gray + {stack[b]}
    ensures k <= b
  {
    forall k' | 0 <= k' <= b && k' < k
      ensures stack[k'] != stack[k]
    {
      assert val[stack[k']] < val[stack[k]];
    }
  }

  lemma SegmentMutual(g: Graph, val: seq<nat>, stack: seq<nat>, id: nat, gray: set<nat>, b: nat, u: nat, v: nat)
    requires b < |stack| && Stacked(g, val, stack, id)
    requires forall x :: x in gray ==> x in stack[..b]
    requires Linked(g, stack, gray + {stack[b]})
    requires u in stack[b..] && v in stack[b..]
    ensures Reach(g, u, v)
  {
    hide Stacked, Reach;
    var i :| b <= i < |stack| && stack[i] == u;
    var j :| b <= j < |stack| && stack[j] == v;
    assert BackTo(g, stack, gray + {stack[b]}, i);
    var k :| 0 <= k <= i && stack[k] in gray + {stack[b]} && Reach(g, u, stack[k]);
    ActiveBelow(g, val, stack, id, gray, b, k);
    ReachTrans(g, u, stack[k], v);
  }

  // ---------------------------------------------------------------- scanning

  // The first k out-edges of n = stack[b] have been looked at and m is the
  // running minimum.
  ghost predicate Scanned(g: Graph, val: seq<nat>, stack: seq<nat>, b: nat, n: nat, k: nat, m: nat)
    requires n < |g| && |val| == |g|
    requires InRange(val, stack)
  {
    && b < |stack| && stack[b] == n
    && LowWitness(g, val, stack, n, b + 1, m)
    && LowBound(g, val, stack, b + 1, b + 1, m)
    && (forall i :: 0 <= i < k && i < |g[n]| ==> g[n][i] < |val| && val[g[n][i]] != 0)
    && (forall i, j :: 0 <= i < k && i < |g[n]| && 0 <= j <= b && stack[j] == g[n][i] ==> m <= val[stack[j]])
  }

  ghost predicate Numbered(g: Graph, val: seq<nat>, stack: seq<nat>, id: nat) {
    WellFormed(g) && Stacked(g, val, stack, id)
  }

  lemma ScanStart(g: Graph, val: seq<nat>, stack: seq<nat>, id: nat, n: nat)
    requires Numbered(g, val, stack + [n], id) && n < |g|
    ensures Scanned(g, val, stack + [n], |stack|, n, 0, val[n])
  {
    ReachRefl(g, n);
    assert (stack + [n])[|stack|] == n;
  }

  // The head of out-edge k already has a number.
  lemma ScanVisited(g: Graph, val: seq<nat>, stack: seq<nat>, id: nat, b: nat, n: nat, k: nat, m: nat)
    requires Numbered(g, val, stack, id) && n < |g| && k < |g[n]|
    requires Scanned(g, val, stack, b, n, k, m)
    requires val[g[n][k]] != 0
    ensures Scanned(g, val, stack, b, n, k + 1, if val[g[n][k]] < m then val[g[n][k]] else m)
  {
    var t := g[n][k];
    VisitedBound(val);
    ReachEdge(g, n, t);
    if val[t] < m {
      assert t in stack;
      var j :| 0 <= j < |stack| && stack[j] == t;
      assert j < b + 1;
    }
  }

  // The head t of out-edge k was unvisited, and visiting it returned r.
  lemma ScanChild(g: Graph, val0: seq<nat>, stack0: seq<nat>, id0: nat,
                  val: seq<nat>, stack: seq<nat>, id: nat, b: nat, n: nat, k: nat, m: nat, r: nat)
    requires Numbered(g, val0, stack0, id0) && Numbered(g, val, stack, id)
    requires n < |g| && k < |g[n]|
    requires Scanned(g, val0, stack0, b, n, k, m)
    requires VisitResult(g, val0, stack0, id0, val, stack, g[n][k], r)
    ensures Scanned(g, val, stack, b, n, k + 1, if r < m then r else m)
  {
    ScanChildWitness(g, val0, stack0, id0, val, stack, id, b, n, k, m, r);
    ScanChildBound(g, val0, stack0, id0, val, stack, id, b, n, g[n][k], m, r);
    ScanChildHeads(g, val0, stack0, id0, val, stack, id, b, n, k, m, r);
    hide Stacked, LowWitness, LowBound;
  }

  lemma ScanChildWitness(g: Graph, val0: seq<nat>, stack0: seq<nat>, id0: nat,
                  val: seq<nat>, stack: seq<nat>, id: nat, b: nat, n: nat, k: nat, m: nat, r: nat)
    requires Numbered(g, val0, stack0, id0) && Numbered(g, val, stack, id)
    requires n < |g| && k < |g[n]|
    requires Scanned(g, val0, stack0, b, n, k, m)
    requires VisitResult(g, val0, stack0, id0, val, stack, g[n][k], r)
    ensures LowWitness(g, val, stack, n, b + 1, if r < m then r else m)
  {
    var t := g[n][k];
    ReachEdge(g, n, t);
    SameBelow(g, val0, stack0, id0, val, stack, id);
    if r < m {
      VisitedBound(val0);
      assert m <= val0[stack0[b]] <= id0;
      var j :| 0 <= j < |stack0| && val[stack[j]] == r && Reach(g, t, stack[j]);
      ReachTrans(g, n, t, stack[j]);
      assert j < b + 1;
    } else {
      var j :| 0 <= j < b + 1 && val0[stack0[j]] == m && Reach(g, n, stack0[j]);
      assert val[stack[j]] == m && Reach(g, n, stack[j]);
    }
  }

  lemma ScanChildHeads(g: Graph, val0: seq<nat>, stack0: seq<nat>, id0: nat,
                  val: seq<nat>, stack: seq<nat>, id: nat, b: nat, n: nat, k: nat, m: nat, r: nat)
    requires Numbered(g, val0, stack0, id0) && Numbered(g, val, stack, id)
    requires n < |g| && k < |g[n]|
    requires Scanned(g, val0, stack0, b, n, k, m)
    requires VisitResult(g, val0, stack0, id0, val, stack, g[n][k], r)
    ensures forall i :: 0 <= i < k + 1 ==> g[n][i] < |val| && val[g[n][i]] != 0
    ensures forall i, j :: 0 <= i < k + 1 && 0 <= j <= b && stack[j] == g[n][i] ==>
              (if r < m then r else m) <= val[stack[j]]
  {
    var t := g[n][k];
    SameBelow(g, val0, stack0, id0, val, stack, id);
    forall j | 0 <= j <= b
      ensures stack[j] != t
    {
      ChildNotBelow(g, val0, stack0, id0, val, stack, id, t, j, r);
    }
    hide Stacked, LowWitness, LowBound;
    forall i | 0 <= i < k
      ensures g[n][i] < |val| && val[g[n][i]] != 0
      ensures forall j :: 0 <= j <= b && stack[j] == g[n][i] ==> m <= val[stack[j]]
    {
      assert g[n][i] < |val0| && val0[g[n][i]] != 0;
      forall j | 0 <= j <= b && stack[j] == g[n][i]
        ensures m <= val[stack[j]]
      {
        assert stack0[j] == g[n][i];
      }
    }
  }

  lemma SameBelow(g: Graph, val0: seq<nat>, stack0: seq<nat>, id0: nat, val: seq<nat>, stack: seq<nat>, id: nat)
    requires Numbered(g, val0, stack0, id0) && Numbered(g, val, stack, id)
    requires Extends(val0, stack0, val, stack)
    ensures InRange(val0, stack0) && InRange(val, stack)
    ensures forall j :: 0 <= j < |stack0| ==> stack[j] == stack0[j] && val[stack[j]] == val0[stack0[j]]
  {
  }

  // A node visited later is not among the old stack entries.
  lemma ChildNotBelow(g: Graph, val0: seq<nat>, stack0: seq<nat>, id0: nat,
                      val: seq<nat>, stack: seq<nat>, id: nat, t: nat, j: nat, r: nat)
    requires Numbered(g, val0, stack0, id0) && Numbered(g, val, stack, id)
    requires t < |g| && j < |stack0|
    requires VisitResult(g, val0, stack0, id0, val, stack, t, r)
    ensures stack[j] != t
  {
    VisitedBound(val0);
    VisitedBound(val);
    if |stack| > |stack0| {
      assert val[stack[j]] < val[stack[|stack0|]];
    } else {
      assert val[stack[j]] <= id < INF;
    }
  }

  lemma ScanChildBound(g: Graph, val0: seq<nat>, stack0: seq<nat>, id0: nat,
                       val: seq<nat>, stack: seq<nat>, id: nat, b: nat, n: nat, t: nat, m: nat, r: nat)
    requires Numbered(g, val0, stack0, id0) && Numbered(g, val, stack, id)
    requires b < |stack0| && t < |g| && LowBound(g, val0, stack0, b + 1, b + 1, m)
    requires VisitResult(g, val0, stack0, id0, val, stack, t, r)
    ensures LowBound(g, val, stack, b + 1, b + 1, if r < m then r else m)
  {
    var m' := if r < m then r else m;
    forall i, j | b + 1 <= i < |stack| && 0 <= j < b + 1 && j < |stack| && Edge(g, stack[i], stack[j])
      ensures m' <= val[stack[j]]
    {
      assert stack[j] == stack0[j] && val[stack[j]] == val0[stack0[j]];
      if i < |stack0| {
        assert stack[i] == stack0[i];
        assert m <= val0[stack0[j]];
      } else {
        assert r <= val[stack[j]];
      }
    }
  }

  lemma WhiteShrinks(val0: seq<nat>, stack0: seq<nat>, val: seq<nat>, stack: seq<nat>, n: nat)
    requires Extends(val0, stack0, val, stack)
    requires n < |val| && val0[n] == 0 && val[n] != 0
    ensures White(val) < White(val0)
  {
    assert n in White(val0) && n !in White(val);
  }

  // Finishing the part of the stack above the old one touches no node that had
  // a number before.
  lemma FinishExtends(g: Graph, val0: seq<nat>, stack0: seq<nat>, id0: nat, val: seq<nat>, stack: seq<nat>, id: nat)
    requires Numbered(g, val0, stack0, id0) && Numbered(g, val, stack, id)
    requires Extends(val0, stack0, val, stack)
    ensures Extends(val0, stack0, Finish(val, stack[|stack0|..]), stack[..|stack0|])
  {
    VisitedBound(val0);
    VisitedBound(val);
    forall v | 0 <= v < |val| && val0[v] != 0
      ensures v !in stack[|stack0|..]
    {
      if val0[v] < INF {
        assert v in stack0;
        var j :| 0 <= j < |stack0| && stack0[j] == v;
        forall i | |stack0| <= i < |stack|
          ensures stack[i] != v
        {
          assert val[stack[j]] < val[stack[i]];
        }
      }
    }
  }

  // All out-edges of n have been looked at.
  lemma ScanEnd(g: Graph, val: seq<nat>, stack: seq<nat>, id: nat, b: nat, n: nat, m: nat)
    requires Numbered(g, val, stack, id) && n < |g|
    requires Scanned(g, val, stack, b, n, |g[n]|, m)
    ensures m <= val[n]
    ensures forall v: nat :: Edge(g, n, v) && v < |g| ==> val[v] != 0
    ensures LowBound(g, val, stack, b, b, m)
    ensures m != val[n] ==> LowWitness(g, val, stack, n, b, m) && exists j :: 0 <= j < b && Reach(g, n, stack[j])
  {
    var j :| 0 <= j < b + 1 && j < |stack| && val[stack[j]] == m && Reach(g, n, stack[j]);
    assert j < b ==> val[stack[j]] < val[stack[b]];
    forall i, j | b <= i < |stack| && 0 <= j < b && j < |stack| && Edge(g, stack[i], stack[j])
      ensures m <= val[stack[j]]
    {
      if i == b {
        var k :| 0 <= k < |g[n]| && g[n][k] == stack[j];
      }
    }
  }
}
