// graphviz_acyclic: a depth-first search that reverses or drops the back edges
// of the very graph it is walking.
module Acyclic {
  import opened Wrappers
  import opened Digraph

  // An out-edge: its creation number, which orders every out-list, its head and
  // its name, if it has one.
  datatype OutEdge = OutEdge(seqno: nat, head: nat, key: Option<string>)

  type EdgeLists = seq<seq<OutEdge>>

  ghost predicate Sorted(out: EdgeLists, next: nat) {
    && (forall u, e :: 0 <= u < |out| && e in out[u] ==> e.head < |out| && e.seqno < next)
    && (forall u :: 0 <= u < |out| ==> InOrder(out[u]))
  }

  ghost predicate InOrder(list: seq<OutEdge>) {
    forall i, j :: 0 <= i < j < |list| ==> list[i].seqno < list[j].seqno
  }

  // The graph of heads, in which cycles are looked for.
  ghost function Heads(out: EdgeLists): (g: Graph)
    ensures |g| == |out|
    ensures forall u, v: nat :: 0 <= u < |g| ==> (v in g[u] <==> exists e :: e in out[u] && e.head == v)
  {
    var g := seq(|out|, u requires 0 <= u < |out| => HeadsOf(out[u]));
    assert forall u, v: nat :: 0 <= u < |g| ==> (v in g[u] <==> v in HeadsOf(out[u]));
    g
  }

  ghost function HeadsOf(list: seq<OutEdge>): (h: seq<nat>)
    ensures forall v: nat :: v in h <==> exists e :: e in list && e.head == v
  {
    var h := seq(|list|, i requires 0 <= i < |list| => list[i].head);
    assert forall i :: 0 <= i < |list| ==> h[i] == list[i].head;
    assert forall e :: e in list ==> e.head in h;
    h
  }

  // Some cycle runs through two or more nodes.
  ghost predicate Cyclic(g: Graph) {
    exists u: nat, v: nat :: u != v && Mutual(g, u, v)
  }

  // ------------------------------------------------------- walking a changing list

  // agfstout and agnxtout: the edge with the least number, and the one with the
  // least number above that of e.
  function First(list: seq<OutEdge>): Option<OutEdge> {
    if list == [] then None else Some(list[0])
  }

  function Next(list: seq<OutEdge>, e: OutEdge): Option<OutEdge> {
    if list == [] then None
    else if e.seqno < list[0].seqno then Some(list[0])
    else Next(list[1..], e)
  }

  lemma {:induction false} NextAt(list: seq<OutEdge>, i: nat)
    requires InOrder(list) && i < |list|
    ensures Next(list, list[i]) == if i + 1 < |list| then Some(list[i + 1]) else None
  {
    if i == 0 {
      if |list| > 1 {
        assert list[1..][0] == list[1];
      }
    } else {
      NextAt(list[1..], i - 1);
    }
  }

  // agdelete on an out-list.
  function Remove(list: seq<OutEdge>, e: OutEdge): seq<OutEdge> {
    if list == [] then []
    else if list[0] == e then list[1..]
    else [list[0]] + Remove(list[1..], e)
  }

  lemma {:induction false} RemoveIs(list: seq<OutEdge>, i: nat)
    requires InOrder(list) && i < |list|
    ensures Remove(list, list[i]) == list[..i] + list[i + 1..]
  {
    if i > 0 {
      assert list[0] != list[i];
      RemoveIs(list[1..], i - 1);
      assert list[1..][i - 1] == list[i];
      assert list[..i] + list[i + 1..] == [list[0]] + (list[1..][..i - 1] + list[1..][i..]);
    }
  }

  // An ordered list without entry i.
  lemma TakenOut(list: seq<OutEdge>, i: nat, r: seq<OutEdge>)
    requires InOrder(list) && i < |list| && r == list[..i] + list[i + 1..]
    ensures InOrder(r) && list[i] !in r
    ensures forall e :: e in r <==> e in list && e != list[i]
  {
    forall j | 0 <= j < |r|
      ensures r[j] == list[if j < i then j else j + 1] && r[j] != list[i]
    {
    }
    forall e | e in list && e != list[i]
      ensures e in r
    {
      var j :| 0 <= j < |list| && list[j] == e;
      assert r[if j < i then j else j - 1] == e;
    }
  }

  lemma RemoveAt(list: seq<OutEdge>, i: nat)
    requires InOrder(list) && i < |list|
    ensures Remove(list, list[i]) == list[..i] + list[i + 1..]
    ensures list[i] !in Remove(list, list[i])
    ensures forall e :: e in Remove(list, list[i]) <==> e in list && e != list[i]
    ensures InOrder(Remove(list, list[i]))
  {
    hide Remove, InOrder;
    RemoveIs(list, i);
    TakenOut(list, i, Remove(list, list[i]));
  }

  lemma RemoveFrom(out: EdgeLists, next: nat, t: nat, e: OutEdge)
    requires Sorted(out, next) && t < |out| && e in out[t]
    ensures forall f :: f in Remove(out[t], e) <==> f in out[t] && f != e
  {
    var i :| 0 <= i < |out[t]| && out[t][i] == e;
    RemoveAt(out[t], i);
  }

  // agedge without creation: is there an edge to head v, with this key if one
  // is asked for?
  predicate HasEdge(list: seq<OutEdge>, v: nat, key: Option<string>) {
    exists e :: e in list && e.head == v && (key.None? || e.key == key)
  }

  // ------------------------------------------------------------ the back-edge step

  // Whether the back edge e out of t gets a reversed copy.
  predicate Reverses(strict: bool, out: EdgeLists, t: nat, e: OutEdge)
    requires e.head < |out|
  {
    if strict then !HasEdge(out[e.head], t, None)
    else e.key.None? || !HasEdge(out[e.head], t, e.key)
  }

  function WithReverse(strict: bool, out: EdgeLists, next: nat, t: nat, e: OutEdge): (r: EdgeLists)
    requires e.head < |out|
  {
    if Reverses(strict, out, t, e)
    then out[e.head := out[e.head] + [OutEdge(next, t, e.key)]]
    else out
  }

  function AfterBack(strict: bool, out: EdgeLists, next: nat, t: nat, e: OutEdge): (r: EdgeLists)
    requires e.head < |out| && t < |out|
  {
    var a := WithReverse(strict, out, next, t, e);
    a[t := Remove(a[t], e)]
  }

  // u and v are joined by an edge in one of the two directions; in a graph that
  // is not strict, by one with name k.
  ghost predicate Joined(strict: bool, out: EdgeLists, u: nat, v: nat, k: Option<string>) {
    u < |out| && v < |out| && exists e :: Joins(strict, out, u, v, k, e)
  }

  ghost predicate Joins(strict: bool, out: EdgeLists, u: nat, v: nat, k: Option<string>, e: OutEdge)
    requires u < |out| && v < |out|
  {
    (strict || e.key == k) && ((e in out[u] && e.head == v) || (e in out[v] && e.head == u))
  }

  // out has the joined pairs of out0, and each of its edges is an edge of out0
  // or the reverse of one that was deleted.
  ghost predicate Derived(strict: bool, out0: EdgeLists, next0: nat, out: EdgeLists) {
    && |out| == |out0|
    && (forall u: nat, v: nat, k :: Joined(strict, out0, u, v, k) <==> Joined(strict, out, u, v, k))
    && (forall u, e :: 0 <= u < |out| && e in out0[u] && e.head == u ==> e in out[u])
    && (forall u, e :: 0 <= u < |out| && e in out[u] ==> e in out0[u] || Reversed(out0, next0, out, u, e))
  }

  ghost predicate Reversed(out0: EdgeLists, next0: nat, out: EdgeLists, u: nat, e: OutEdge)
    requires |out| == |out0|
  {
    && next0 <= e.seqno
    && e.head < |out|
    && exists e0 :: e0 in out0[e.head] && e0 !in out[e.head] && e0.head == u && e0.key == e.key
  }

  lemma ReverseMember(strict: bool, out: EdgeLists, next: nat, t: nat, e: OutEdge, u: nat, f: OutEdge)
    requires Sorted(out, next) && t < |out| && e in out[t] && e.head != t && u < |out|
    ensures f in AfterBack(strict, out, next, t, e)[u] <==>
      || (f in out[u] && !(u == t && f == e))
      || (Reverses(strict, out, t, e) && u == e.head && f == OutEdge(next, t, e.key))
  {
    var i :| 0 <= i < |out[t]| && out[t][i] == e;
    RemoveAt(out[t], i);
  }

  lemma AppendOrder(list: seq<OutEdge>, e: OutEdge)
    requires InOrder(list)
    requires forall f :: f in list ==> f.seqno < e.seqno
    ensures InOrder(list + [e])
  {
  }

  lemma BackSorted(strict: bool, out: EdgeLists, next: nat, t: nat, e: OutEdge)
    requires Sorted(out, next) && t < |out| && e in out[t] && e.head != t
    ensures Sorted(AfterBack(strict, out, next, t, e), next + 1)
    ensures !Reverses(strict, out, t, e) ==> Sorted(AfterBack(strict, out, next, t, e), next)
  {
    var out' := AfterBack(strict, out, next, t, e);
    forall u, f: OutEdge | 0 <= u < |out'| && f in out'[u]
      ensures f.head < |out'| && f.seqno < next + 1
      ensures !Reverses(strict, out, t, e) ==> f.seqno < next
    {
      ReverseMember(strict, out, next, t, e, u, f);
    }
    forall u | 0 <= u < |out'|
      ensures InOrder(out'[u])
    {
      if u == t {
        var i :| 0 <= i < |out[t]| && out[t][i] == e;
        RemoveAt(out[t], i);
      } else if u == e.head {
        AppendOrder(out[u], OutEdge(next, t, e.key));
      }
    }
  }

  // The step keeps every joined pair, because the reversed edge is there when
  // the back edge goes.
  lemma BackJoined(strict: bool, out: EdgeLists, next: nat, t: nat, e: OutEdge, u: nat, v: nat, k: Option<string>)
    requires Sorted(out, next) && t < |out| && e in out[t] && e.head != t
    ensures Joined(strict, out, u, v, k) <==> Joined(strict, AfterBack(strict, out, next, t, e), u, v, k)
  {
    var out' := AfterBack(strict, out, next, t, e);
    hide AfterBack, Reverses, Sorted;
    if Joined(strict, out, u, v, k) {
      var f :| Joins(strict, out, u, v, k, f);
      ReverseMember(strict, out, next, t, e, u, f);
      ReverseMember(strict, out, next, t, e, v, f);
      var r := BackWitness(strict, out, next, t, e);
      assert Joins(strict, out', u, v, k, f) || Joins(strict, out', u, v, k, r);
    }
    if Joined(strict, out', u, v, k) {
      var f :| Joins(strict, out', u, v, k, f);
      ReverseMember(strict, out, next, t, e, u, f);
      ReverseMember(strict, out, next, t, e, v, f);
      assert Joins(strict, out, u, v, k, f) || Joins(strict, out, u, v, k, e);
    }
  }

  lemma BackWitness(strict: bool, out: EdgeLists, next: nat, t: nat, e: OutEdge) returns (r: OutEdge)
    requires Sorted(out, next) && t < |out| && e in out[t] && e.head != t
    ensures r in AfterBack(strict, out, next, t, e)[e.head] && r.head == t
    ensures strict || r.key == e.key
  {
    if Reverses(strict, out, t, e) {
      r := OutEdge(next, t, e.key);
    } else {
      r :| r in out[e.head] && r.head == t && (strict || r.key == e.key);
    }
    ReverseMember(strict, out, next, t, e, e.head, r);
  }

  lemma BackDerived(strict: bool, out0: EdgeLists, next0: nat, out: EdgeLists, next: nat, t: nat, e: OutEdge)
    requires Sorted(out0, next0) && next0 <= next
    requires Derived(strict, out0, next0, out)
    requires Sorted(out, next) && t < |out| && e in out[t] && e.head != t && e in out0[t]
    ensures Derived(strict, out0, next0, AfterBack(strict, out, next, t, e))
  {
    var out' := AfterBack(strict, out, next, t, e);
    forall u: nat, v: nat, k
      ensures Joined(strict, out0, u, v, k) <==> Joined(strict, out', u, v, k)
    {
      BackJoined(strict, out, next, t, e, u, v, k);
    }
    forall u, f | 0 <= u < |out| && f in out0[u] && f.head == u
      ensures f in out'[u]
    {
      ReverseMember(strict, out, next, t, e, u, f);
    }
    forall u, f | 0 <= u < |out| && f in out'[u]
      ensures f in out0[u] || Reversed(out0, next0, out', u, f)
    {
      ReverseMember(strict, out, next, t, e, u, f);
      if f in out[u] {
        if f !in out0[u] {
          var f0 :| f0 in out0[f.head] && f0 !in out[f.head] && f0.head == u && f0.key == f.key;
          ReverseMember(strict, out, next, t, e, f.head, f0);
        }
      } else {
        ReverseMember(strict, out, next, t, e, t, e);
      }
    }
  }

  // ------------------------------------------------------------------ the search

  // rank is 0 before a node is finished and then its finishing time; the active
  // nodes are the ones on the stack.
  ghost predicate Marks(n: nat, mark: seq<bool>, onstack: seq<bool>, stack: seq<nat>, rank: seq<nat>, clock: nat) {
    && |mark| == |onstack| == |rank| == n
    && (forall i :: 0 <= i < |stack| ==> stack[i] < n && mark[stack[i]] && onstack[stack[i]] && rank[stack[i]] == 0)
    && (forall i, j :: 0 <= i < j < |stack| ==> stack[i] != stack[j])
    && (forall v :: 0 <= v < n && onstack[v] ==> v in stack)
    && (forall v :: 0 <= v < n && mark[v] && !onstack[v] ==> rank[v] > 0)
    && (forall v :: 0 <= v < n && rank[v] > 0 ==> mark[v])
    && (forall v :: 0 <= v < n ==> rank[v] <= clock)
  }

  // Edges out of finished nodes, loops aside, go to nodes finished earlier.
  ghost predicate Finished(out: EdgeLists, rank: seq<nat>)
    requires |rank| == |out|
  {
    forall u: nat, e :: u < |out| && rank[u] > 0 && e in out[u] && e.head != u && e.head < |out| ==>
      0 < rank[e.head] < rank[u]
  }

  ghost predicate Above(stack: seq<nat>, rank: seq<nat>, p: nat, v: nat) {
    v < |rank| && (rank[v] > 0 || exists q :: p < q < |stack| && stack[q] == v)
  }

  // An unmarked node has its edges untouched; an edge added to an active node
  // leads to a finished node or to one above it on the stack.
  ghost predicate Pending(out0: EdgeLists, out: EdgeLists, mark: seq<bool>, stack: seq<nat>, rank: seq<nat>)
    requires |out| == |out0| == |mark|
  {
    && (forall u :: 0 <= u < |out| && !mark[u] ==> out[u] == out0[u])
    && (forall p, e :: 0 <= p < |stack| && stack[p] < |out| && e in out[stack[p]] ==>
         e in out0[stack[p]] || Above(stack, rank, p, e.head))
  }

  // Neighbours on the stack are joined by original edges.
  ghost predicate Chain(out0: EdgeLists, stack: seq<nat>) {
    forall p :: 0 <= p < |stack| - 1 ==> Edge(Heads(out0), stack[p], stack[p + 1])
  }

  ghost predicate Search(strict: bool, out0: EdgeLists, next0: nat, out: EdgeLists, next: nat,
                         mark: seq<bool>, onstack: seq<bool>, stack: seq<nat>, rank: seq<nat>, clock: nat) {
    && Sorted(out0, next0) && Sorted(out, next) && next0 <= next
    && Derived(strict, out0, next0, out)
    && |out| == |out0| == |mark| == |onstack| == |rank|
    && Marks(|out|, mark, onstack, stack, rank, clock)
    && Finished(out, rank)
    && Pending(out0, out, mark, stack, rank)
    && Chain(out0, stack)
  }

  lemma EnterSearch(strict: bool, out0: EdgeLists, next0: nat, out: EdgeLists, next: nat,
                    mark: seq<bool>, onstack: seq<bool>, stack: seq<nat>, rank: seq<nat>, clock: nat, t: nat)
    requires Search(strict, out0, next0, out, next, mark, onstack, stack, rank, clock)
    requires t < |out| && !mark[t]
    requires stack != [] ==> Edge(Heads(out0), stack[|stack| - 1], t)
    ensures Search(strict, out0, next0, out, next, mark[t := true], onstack[t := true], stack + [t], rank, clock)
    ensures out[t] == out0[t] && !onstack[t] && rank[t] == 0
  {
    hide Derived, Sorted, Finished;
    EnterMarks(|out|, mark, onstack, stack, rank, clock, t);
    EnterChain(out0, stack, t);
    var stack' := stack + [t];
    forall p, e | 0 <= p < |stack'| && e in out[stack'[p]]
      ensures e in out0[stack'[p]] || Above(stack', rank, p, e.head)
    {
      if p < |stack| && e !in out0[stack'[p]] {
        assert Above(stack, rank, p, e.head);
        if rank[e.head] == 0 {
          var q :| p < q < |stack| && stack[q] == e.head;
          assert stack'[q] == e.head;
        }
      }
    }
  }

  lemma EnterMarks(n: nat, mark: seq<bool>, onstack: seq<bool>, stack: seq<nat>, rank: seq<nat>, clock: nat, t: nat)
    requires Marks(n, mark, onstack, stack, rank, clock) && t < n && !mark[t]
    ensures Marks(n, mark[t := true], onstack[t := true], stack + [t], rank, clock)
  {
    forall v | 0 <= v < n && v != t && onstack[v]
      ensures v in stack + [t]
    {
      assert v in stack;
    }
  }

  lemma EnterChain(out0: EdgeLists, stack: seq<nat>, t: nat)
    requires Chain(out0, stack)
    requires stack != [] ==> Edge(Heads(out0), stack[|stack| - 1], t)
    ensures Chain(out0, stack + [t])
  {
  }

  // A node leaves the stack once all its edges lead to finished nodes.
  lemma LeaveSearch(strict: bool, out0: EdgeLists, next0: nat, out: EdgeLists, next: nat,
                    mark: seq<bool>, onstack: seq<bool>, stack: seq<nat>, rank: seq<nat>, clock: nat, t: nat)
    requires Search(strict, out0, next0, out, next, mark, onstack, stack + [t], rank, clock)
    requires t < |out|
    requires forall e :: e in out[t] && e.head != t ==> e.head < |out| && rank[e.head] > 0
    ensures Search(strict, out0, next0, out, next, mark, onstack[t := false], stack, rank[t := clock + 1], clock + 1)
  {
    var stack', rank' := stack + [t], rank[t := clock + 1];
    assert stack'[|stack|] == t;
    assert forall p :: 0 <= p < |stack| ==> stack'[p] == stack[p];
    forall p, e | 0 <= p < |stack| && e in out[stack[p]]
      ensures e in out0[stack[p]] || Above(stack, rank', p, e.head)
    {
      if e !in out0[stack[p]] {
        assert Above(stack', rank, p, e.head);
      }
    }
    LeaveMarks(|out|, mark, onstack, stack, rank, clock, t);
    forall p | 0 <= p < |stack| - 1
      ensures Edge(Heads(out0), stack[p], stack[p + 1])
    {
      assert Edge(Heads(out0), stack'[p], stack'[p + 1]);
    }
  }

  lemma LeaveMarks(n: nat, mark: seq<bool>, onstack: seq<bool>, stack: seq<nat>, rank: seq<nat>, clock: nat, t: nat)
    requires Marks(n, mark, onstack, stack + [t], rank, clock)
    ensures t < n
    ensures Marks(n, mark, onstack[t := false], stack, rank[t := clock + 1], clock + 1)
  {
    var stack' := stack + [t];
    assert stack'[|stack|] == t;
    assert forall p :: 0 <= p < |stack| ==> stack'[p] == stack[p];
    forall v | 0 <= v < n && v != t && onstack[v]
      ensures v in stack
    {
      assert v in stack';
    }
  }

  // An edge from the top of the stack back into it is an original edge and
  // closes a cycle of original edges.
  lemma BackEdgeCycle(strict: bool, out0: EdgeLists, next0: nat, out: EdgeLists, next: nat,
                      mark: seq<bool>, onstack: seq<bool>, stack: seq<nat>, rank: seq<nat>, clock: nat, e: OutEdge)
    requires Search(strict, out0, next0, out, next, mark, onstack, stack, rank, clock)
    requires stack != []
    requires e in out[stack[|stack| - 1]] && e.head != stack[|stack| - 1]
    requires e.head < |out| && onstack[e.head]
    ensures e in out0[stack[|stack| - 1]]
    ensures Cyclic(Heads(out0))
  {
    var t := stack[|stack| - 1];
    var p :| 0 <= p < |stack| && stack[p] == e.head;
    assert rank[e.head] == 0;
    ReachEdge(Heads(out0), t, e.head);
    StackReach(out0, stack, p);
    assert Mutual(Heads(out0), t, e.head);
  }

  lemma {:induction false} StackReach(out0: EdgeLists, stack: seq<nat>, p: nat)
    requires Chain(out0, stack) && p < |stack|
    ensures Reach(Heads(out0), stack[p], stack[|stack| - 1])
    decreases |stack| - p
  {
    if p == |stack| - 1 {
      ReachRefl(Heads(out0), stack[p]);
    } else {
      ReachEdge(Heads(out0), stack[p], stack[p + 1]);
      StackReach(out0, stack, p + 1);
      ReachTrans(Heads(out0), stack[p], stack[p + 1], stack[|stack| - 1]);
    }
  }

  // Reversing or dropping a back edge keeps the search invariant.
  lemma BackSearch(strict: bool, out0: EdgeLists, next0: nat, out: EdgeLists, next: nat,
                   mark: seq<bool>, onstack: seq<bool>, stack: seq<nat>, rank: seq<nat>, clock: nat, t: nat, e: OutEdge)
    requires Search(strict, out0, next0, out, next, mark, onstack, stack + [t], rank, clock)
    requires t < |out| && e in out[t] && e.head != t && e.head < |out| && onstack[e.head]
    ensures Search(strict, out0, next0, AfterBack(strict, out, next, t, e),
                   next + (if Reverses(strict, out, t, e) then 1 else 0), mark, onstack, stack + [t], rank, clock)
  {
    var stack' := stack + [t];
    var out' := AfterBack(strict, out, next, t, e);
    assert stack'[|stack|] == t;
    BackEdgeCycle(strict, out0, next0, out, next, mark, onstack, stack', rank, clock, e);
    BackSorted(strict, out, next, t, e);
    BackDerived(strict, out0, next0, out, next, t, e);
    forall u: nat, f: OutEdge | u < |out| && rank[u] > 0 && f in out'[u] && f.head != u && f.head < |out|
      ensures 0 < rank[f.head] < rank[u]
    {
      ReverseMember(strict, out, next, t, e, u, f);
    }
    BackPending(strict, out0, next0, out, next, mark, onstack, stack, rank, clock, t, e);
  }

  lemma BackPending(strict: bool, out0: EdgeLists, next0: nat, out: EdgeLists, next: nat,
                    mark: seq<bool>, onstack: seq<bool>, stack: seq<nat>,
                    rank: seq<nat>, clock: nat, t: nat, e: OutEdge)
    requires Search(strict, out0, next0, out, next, mark, onstack, stack + [t], rank, clock)
    requires t < |out| && e in out[t] && e.head != t && e.head < |out| && onstack[e.head]
    ensures Pending(out0, AfterBack(strict, out, next, t, e), mark, stack + [t], rank)
  {
    var stack' := stack + [t];
    var out' := AfterBack(strict, out, next, t, e);
    assert stack'[|stack|] == t;
    forall u | 0 <= u < |out| && !mark[u]
      ensures out'[u] == out0[u]
    {
      assert u != t && u != e.head;
    }
    forall p, f | 0 <= p < |stack'| && f in out'[stack'[p]]
      ensures f in out0[stack'[p]] || Above(stack', rank, p, f.head)
    {
      ReverseMember(strict, out, next, t, e, stack'[p], f);
      if f !in out[stack'[p]] {
        assert p < |stack|;
        assert Above(stack', rank, p, f.head);
      }
    }
  }

  // ------------------------------------------------------------ the books

  // The edges from u to v, those with the key if one is asked for. Their numbers tell
  // parallel edges apart.
  ghost function Between(out: EdgeLists, u: nat, v: nat, key: Option<Option<string>>): set<OutEdge>
    requires u < |out|
  {
    set e | e in out[u] && e.head == v && (key.None? || e.key == key.value)
  }

  ghost function Gone(out0: EdgeLists, out: EdgeLists, u: nat, v: nat, key: Option<Option<string>>): set<OutEdge>
    requires u < |out0| == |out|
  {
    Between(out0, u, v, key) - Between(out, u, v, key)
  }

  ghost function Added(out0: EdgeLists, out: EdgeLists, u: nat, v: nat, key: Option<Option<string>>): set<OutEdge>
    requires u < |out0| == |out|
  {
    Between(out, u, v, key) - Between(out0, u, v, key)
  }

  // One edge is there for those that are gone the other way, unless there was one.
  ghost predicate Replaced(out0: EdgeLists, out: EdgeLists, u: nat, v: nat, key: Option<Option<string>>)
    requires u < |out0| == |out| && v < |out0|
  {
    |Added(out0, out, u, v, key)| ==
    if Gone(out0, out, v, u, key) != {} && Between(out0, u, v, key) == {} then 1 else 0
  }

  // In a strict graph one edge replaces all those of the other direction, and so it does
  // for each name in a graph that is not strict. There the edges without a name are
  // replaced one for one.
  ghost predicate Balanced(strict: bool, out0: EdgeLists, out: EdgeLists) {
    && |out| == |out0|
    && (strict ==> forall u, v :: 0 <= u < |out| && 0 <= v < |out| && u != v ==> Replaced(out0, out, u, v, None))
    && (!strict ==> forall u, v :: 0 <= u < |out| && 0 <= v < |out| && u != v ==>
          |Added(out0, out, u, v, Some(None))| == |Gone(out0, out, v, u, Some(None))|)
    && (!strict ==> forall u, v, k :: 0 <= u < |out| && 0 <= v < |out| && u != v ==>
          Replaced(out0, out, u, v, Some(Some(k))))
  }

  // v is finished before u, or is above it on the stack.
  ghost predicate Later(stack: seq<nat>, rank: seq<nat>, u: nat, v: nat) {
    && u < |rank| && v < |rank|
    && ((rank[v] > 0 && (rank[u] == 0 || rank[v] < rank[u])) || AboveOn(stack, u, v))
  }

  ghost predicate AboveOn(stack: seq<nat>, u: nat, v: nat) {
    exists p, q :: 0 <= p < q < |stack| && stack[p] == u && stack[q] == v
  }

  // An edge is gone only from a node that comes later than its head.
  ghost predicate GoneLater(out0: EdgeLists, out: EdgeLists, stack: seq<nat>, rank: seq<nat>) {
    |out| == |out0| && forall v, e :: 0 <= v < |out| && e in out0[v] && e !in out[v] ==> Later(stack, rank, e.head, v)
  }

  // Each number given out since is that of one edge.
  ghost predicate Numbers(out: EdgeLists, next0: nat, next: nat) {
    && (forall n :: next0 <= n < next ==> Numbered(out, n))
    && (forall u, v, e, f :: 0 <= u < |out| && 0 <= v < |out| && e in out[u] && f in out[v] && SameNew(e, f, next0) ==>
         u == v && e == f)
  }

  ghost predicate Numbered(out: EdgeLists, n: nat) {
    exists u, e :: 0 <= u < |out| && e in out[u] && e.seqno == n
  }

  ghost predicate SameNew(e: OutEdge, f: OutEdge, next0: nat) {
    e.seqno == f.seqno >= next0
  }

  ghost predicate Accounts(strict: bool, out0: EdgeLists, next0: nat, out: EdgeLists, next: nat,
                           stack: seq<nat>, rank: seq<nat>) {
    Balanced(strict, out0, out) && GoneLater(out0, out, stack, rank) && Numbers(out, next0, next)
  }

  lemma StartAccounts(strict: bool, out: EdgeLists, next: nat, rank: seq<nat>)
    requires Sorted(out, next)
    ensures Accounts(strict, out, next, out, next, [], rank)
  {
  }

  lemma EnterLater(out0: EdgeLists, out: EdgeLists, stack: seq<nat>, rank: seq<nat>, t: nat)
    requires GoneLater(out0, out, stack, rank)
    ensures GoneLater(out0, out, stack + [t], rank)
  {
    forall v, e | 0 <= v < |out| && e in out0[v] && e !in out[v]
      ensures Later(stack + [t], rank, e.head, v)
    {
      assert Later(stack, rank, e.head, v);
      if AboveOn(stack, e.head, v) {
        var p, q :| 0 <= p < q < |stack| && stack[p] == e.head && stack[q] == v;
        assert (stack + [t])[p] == e.head && (stack + [t])[q] == v;
      }
    }
  }

  lemma LeaveLater(out0: EdgeLists, out: EdgeLists, n: nat, mark: seq<bool>, onstack: seq<bool>, stack: seq<nat>,
                   rank: seq<nat>, clock: nat, t: nat)
    requires GoneLater(out0, out, stack + [t], rank) && Marks(n, mark, onstack, stack + [t], rank, clock) && t < n
    ensures GoneLater(out0, out, stack, rank[t := clock + 1])
  {
    var stack', rank' := stack + [t], rank[t := clock + 1];
    assert stack'[|stack|] == t;
    forall v, e | 0 <= v < |out| && e in out0[v] && e !in out[v]
      ensures Later(stack, rank', e.head, v)
    {
      var u := e.head;
      assert Later(stack', rank, u, v);
      if AboveOn(stack', u, v) {
        var p, q :| 0 <= p < q < |stack'| && stack'[p] == u && stack'[q] == v;
        assert stack[p] == u;
        if q < |stack| {
          assert stack[q] == v;
          assert AboveOn(stack, u, v);
        } else {
          assert u != t && rank'[u] == 0 && rank'[v] > 0;
        }
      }
    }
  }

  lemma BackLater(strict: bool, out0: EdgeLists, next0: nat, out: EdgeLists, next: nat,
                  mark: seq<bool>, onstack: seq<bool>, stack: seq<nat>, rank: seq<nat>, clock: nat, t: nat, e: OutEdge)
    requires Search(strict, out0, next0, out, next, mark, onstack, stack + [t], rank, clock)
    requires t < |out| && e in out[t] && e.head != t && e.head < |out| && onstack[e.head]
    requires GoneLater(out0, out, stack + [t], rank)
    ensures GoneLater(out0, AfterBack(strict, out, next, t, e), stack + [t], rank)
  {
    var stack', out' := stack + [t], AfterBack(strict, out, next, t, e);
    assert stack'[|stack|] == t;
    var p :| 0 <= p < |stack'| && stack'[p] == e.head;
    assert AboveOn(stack', e.head, t);
    hide Derived, Finished, Pending, Chain, AfterBack, Reverses;
    forall v, f | 0 <= v < |out| && f in out0[v] && f !in out'[v]
      ensures Later(stack', rank, f.head, v)
    {
      ReverseMember(strict, out, next, t, e, v, f);
      if f in out[v] {
        assert v == t && f == e;
      }
    }
  }

  // None of the edges from the head of a back edge to its tail is gone.
  lemma NoneBack(strict: bool, out0: EdgeLists, next0: nat, out: EdgeLists, next: nat,
                 mark: seq<bool>, onstack: seq<bool>, stack: seq<nat>, rank: seq<nat>, clock: nat, t: nat, h: nat)
    requires Search(strict, out0, next0, out, next, mark, onstack, stack + [t], rank, clock)
    requires t < |out| && h < |out| && onstack[h] && h != t && GoneLater(out0, out, stack + [t], rank)
    ensures forall key :: Gone(out0, out, h, t, key) == {}
  {
    var stack' := stack + [t];
    assert stack'[|stack|] == t;
    hide Derived, Sorted, Finished, Pending, Chain;
    assert !AboveOn(stack', t, h) && rank[h] == 0;
    assert !Later(stack', rank, t, h);
  }

  // The edges between two nodes after a back edge has been dealt with.
  lemma BackBetween(strict: bool, out: EdgeLists, next: nat, t: nat, e: OutEdge, u: nat, v: nat,
                    key: Option<Option<string>>)
    requires Sorted(out, next) && t < |out| && e in out[t] && e.head != t && u < |out|
    ensures var hit := key.None? || e.key == key.value;
            Between(AfterBack(strict, out, next, t, e), u, v, key) ==
            if u == t && v == e.head && hit then Between(out, u, v, key) - {e}
            else if u == e.head && v == t && hit && Reverses(strict, out, t, e)
              then Between(out, u, v, key) + {OutEdge(next, t, e.key)}
            else Between(out, u, v, key)
  {
    forall f
      ensures f in AfterBack(strict, out, next, t, e)[u] <==>
              || (f in out[u] && !(u == t && f == e))
              || (Reverses(strict, out, t, e) && u == e.head && f == OutEdge(next, t, e.key))
    {
      ReverseMember(strict, out, next, t, e, u, f);
    }
    hide AfterBack, Reverses, Sorted;
  }

  // What that does to the edges gone and added between them.
  lemma BackGone(strict: bool, out0: EdgeLists, next0: nat, out: EdgeLists, next: nat, t: nat, e: OutEdge, u: nat,
                 v: nat, key: Option<Option<string>>)
    requires Sorted(out0, next0) && next0 <= next && |out| == |out0|
    requires Sorted(out, next) && t < |out| && e in out[t] && e.head != t && e in out0[t] && u < |out|
    ensures var hit, out' := key.None? || e.key == key.value, AfterBack(strict, out, next, t, e);
            && Gone(out0, out', u, v, key) ==
               (if u == t && v == e.head && hit then Gone(out0, out, u, v, key) + {e} else Gone(out0, out, u, v, key))
            && Added(out0, out', u, v, key) ==
               (if u == e.head && v == t && hit && Reverses(strict, out, t, e)
                then Added(out0, out, u, v, key) + {OutEdge(next, t, e.key)} else Added(out0, out, u, v, key))
            && OutEdge(next, t, e.key) !in Added(out0, out, u, v, key)
            && e !in Gone(out0, out, t, v, key)
  {
    BackBetween(strict, out, next, t, e, u, v, key);
    assert OutEdge(next, t, e.key) !in out0[u] && OutEdge(next, t, e.key) !in out[u];
    hide AfterBack, Reverses, Sorted;
  }

  // A key has an edge exactly if there was one that is not gone, or one was added.
  lemma HasBetween(out0: EdgeLists, out: EdgeLists, h: nat, t: nat, key: Option<string>)
    requires h < |out0| == |out|
    requires Gone(out0, out, h, t, if key.None? then None else Some(key)) == {}
    ensures var k := if key.None? then None else Some(key);
            HasEdge(out[h], t, key) <==> Between(out0, h, t, k) != {} || Added(out0, out, h, t, k) != {}
  {
    var k := if key.None? then None else Some(key);
    if e :| e in out[h] && e.head == t && (key.None? || e.key == key) {
      assert e in Between(out, h, t, k);
    }
    if e :| e in Between(out0, h, t, k) {
      assert e !in Gone(out0, out, h, t, k);
      assert e in Between(out, h, t, k);
    }
    if e :| e in Added(out0, out, h, t, k) {
      assert e in out[h];
    }
  }

  lemma BackReplaced(strict: bool, out0: EdgeLists, next0: nat, out: EdgeLists, next: nat, t: nat, e: OutEdge, u: nat,
                     v: nat, key: Option<string>)
    requires Sorted(out0, next0) && next0 <= next && |out| == |out0|
    requires Sorted(out, next) && t < |out| && e in out[t] && e.head != t && e in out0[t]
    requires u < |out| && v < |out| && u != v && (strict <==> key.None?)
    requires var k := if key.None? then None else Some(key);
             Replaced(out0, out, u, v, k) && Gone(out0, out, e.head, t, k) == {}
    ensures Replaced(out0, AfterBack(strict, out, next, t, e), u, v, if key.None? then None else Some(key))
  {
    var k := if key.None? then None else Some(key);
    BackGone(strict, out0, next0, out, next, t, e, u, v, k);
    BackGone(strict, out0, next0, out, next, t, e, v, u, k);
    HasBetween(out0, out, e.head, t, key);
    hide AfterBack, Sorted, Between, Gone, Added, HasEdge;
  }

  lemma BackCounted(out0: EdgeLists, next0: nat, out: EdgeLists, next: nat, t: nat, e: OutEdge, u: nat, v: nat)
    requires Sorted(out0, next0) && next0 <= next && |out| == |out0|
    requires Sorted(out, next) && t < |out| && e in out[t] && e.head != t && e in out0[t]
    requires u < |out| && v < |out| && u != v
    requires |Added(out0, out, u, v, Some(None))| == |Gone(out0, out, v, u, Some(None))|
    ensures var out' := AfterBack(false, out, next, t, e);
            |Added(out0, out', u, v, Some(None))| == |Gone(out0, out', v, u, Some(None))|
  {
    BackGone(false, out0, next0, out, next, t, e, u, v, Some(None));
    BackGone(false, out0, next0, out, next, t, e, v, u, Some(None));
    hide AfterBack, Sorted, Between, Gone, Added, HasEdge;
  }

  lemma BackBalanced(strict: bool, out0: EdgeLists, next0: nat, out: EdgeLists, next: nat, t: nat, e: OutEdge)
    requires Sorted(out0, next0) && next0 <= next && Balanced(strict, out0, out)
    requires Sorted(out, next) && t < |out| && e in out[t] && e.head != t && e in out0[t]
    requires forall key :: Gone(out0, out, e.head, t, key) == {}
    ensures Balanced(strict, out0, AfterBack(strict, out, next, t, e))
  {
    var out' := AfterBack(strict, out, next, t, e);
    hide AfterBack, Sorted, Between, Gone, Added, Replaced;
    if strict {
      forall u, v | 0 <= u < |out| && 0 <= v < |out| && u != v
        ensures Replaced(out0, out', u, v, None)
      {
        BackReplaced(strict, out0, next0, out, next, t, e, u, v, None);
      }
    } else {
      forall u, v | 0 <= u < |out| && 0 <= v < |out| && u != v
        ensures |Added(out0, out', u, v, Some(None))| == |Gone(out0, out', v, u, Some(None))|
      {
        BackCounted(out0, next0, out, next, t, e, u, v);
      }
      forall u, v, k | 0 <= u < |out| && 0 <= v < |out| && u != v
        ensures Replaced(out0, out', u, v, Some(Some(k)))
      {
        BackReplaced(strict, out0, next0, out, next, t, e, u, v, Some(k));
      }
    }
  }

  lemma BackNumbers(strict: bool, out0: EdgeLists, next0: nat, out: EdgeLists, next: nat, t: nat, e: OutEdge)
    requires Sorted(out0, next0) && next0 <= next && Numbers(out, next0, next) && |out| == |out0|
    requires Sorted(out, next) && t < |out| && e in out[t] && e.head != t && e in out0[t]
    ensures Numbers(AfterBack(strict, out, next, t, e), next0, next + if Reverses(strict, out, t, e) then 1 else 0)
  {
    var out' := AfterBack(strict, out, next, t, e);
    var next' := next + if Reverses(strict, out, t, e) then 1 else 0;
    assert e.seqno < next0;
    forall u, f: OutEdge | 0 <= u < |out|
      ensures f in out'[u] <==>
              || (f in out[u] && !(u == t && f == e))
              || (Reverses(strict, out, t, e) && u == e.head && f == OutEdge(next, t, e.key))
    {
      ReverseMember(strict, out, next, t, e, u, f);
    }
    hide AfterBack, Reverses;
    forall n | next0 <= n < next'
      ensures Numbered(out', n)
    {
      if n < next {
        assert Numbered(out, n);
        var u, f: OutEdge :| 0 <= u < |out| && f in out[u] && f.seqno == n;
        assert f in out'[u];
      } else {
        assert OutEdge(next, t, e.key) in out'[e.head];
      }
    }
  }

  lemma EnterAccounts(strict: bool, out0: EdgeLists, next0: nat, out: EdgeLists, next: nat, stack: seq<nat>,
                      rank: seq<nat>, t: nat)
    requires Accounts(strict, out0, next0, out, next, stack, rank)
    ensures Accounts(strict, out0, next0, out, next, stack + [t], rank)
  {
    EnterLater(out0, out, stack, rank, t);
    hide Balanced, GoneLater, Numbers;
  }

  lemma LeaveAccounts(strict: bool, out0: EdgeLists, next0: nat, out: EdgeLists, next: nat,
                      mark: seq<bool>, onstack: seq<bool>, stack: seq<nat>, rank: seq<nat>, clock: nat, t: nat)
    requires Search(strict, out0, next0, out, next, mark, onstack, stack + [t], rank, clock) && t < |out|
    requires Accounts(strict, out0, next0, out, next, stack + [t], rank)
    ensures Accounts(strict, out0, next0, out, next, stack, rank[t := clock + 1])
  {
    LeaveLater(out0, out, |out|, mark, onstack, stack, rank, clock, t);
    hide Balanced, GoneLater, Numbers;
  }

  lemma BackAccounts(strict: bool, out0: EdgeLists, next0: nat, out: EdgeLists, next: nat,
                     mark: seq<bool>, onstack: seq<bool>, stack: seq<nat>, rank: seq<nat>, clock: nat, t: nat,
                     e: OutEdge)
    requires Search(strict, out0, next0, out, next, mark, onstack, stack + [t], rank, clock)
    requires t < |out| && e in out[t] && e.head != t && e.head < |out| && onstack[e.head]
    requires Accounts(strict, out0, next0, out, next, stack + [t], rank)
    ensures Accounts(strict, out0, next0, AfterBack(strict, out, next, t, e),
                     next + (if Reverses(strict, out, t, e) then 1 else 0), stack + [t], rank)
  {
    assert (stack + [t])[|stack|] == t;
    BackEdgeCycle(strict, out0, next0, out, next, mark, onstack, stack + [t], rank, clock, e);
    NoneBack(strict, out0, next0, out, next, mark, onstack, stack, rank, clock, t, e.head);
    BackLater(strict, out0, next0, out, next, mark, onstack, stack, rank, clock, t, e);
    hide Sorted, Derived, Finished, Pending, Chain, Marks, Balanced, GoneLater, Numbers, Reverses, AfterBack;
    BackBalanced(strict, out0, next0, out, next, t, e);
    BackNumbers(strict, out0, next0, out, next, t, e);
  }

  // --------------------------------------------------------------- the imperative walk

  ghost function Unmarked(mark: seq<bool>): set<nat> {
    set v: nat | 0 <= v < |mark| && !mark[v]
  }

  // What a call leaves behind: marks and finishing times stay, and the list of
  // an active node only grows, by edges to nodes finished or in open.
  ghost predicate Grows(out: EdgeLists, mark: seq<bool>, rank: seq<nat>, stack: seq<nat>, open: set<nat>,
                        out': EdgeLists, mark': seq<bool>, rank': seq<nat>) {
    && |out'| == |out| && |mark'| == |mark| && |rank'| == |rank|
    && (forall v :: 0 <= v < |mark| && mark[v] ==> mark'[v])
    && (forall v :: 0 <= v < |rank| && rank[v] > 0 ==> rank'[v] == rank[v])
    && (forall p :: 0 <= p < |stack| && stack[p] < |out| ==> Longer(out[stack[p]], out'[stack[p]], rank', open))
  }

  ghost predicate Longer(list: seq<OutEdge>, list': seq<OutEdge>, rank: seq<nat>, open: set<nat>) {
    && list <= list'
    && forall j :: |list| <= j < |list'| ==>
         list'[j].head in open || (list'[j].head < |rank| && rank[list'[j].head] > 0)
  }

  ghost predicate Done(rank: seq<nat>, t: nat, e: OutEdge) {
    e.head == t || (e.head < |rank| && rank[e.head] > 0)
  }

  // The walk over t's list stands at e, at position i, with all before it done.
  ghost predicate At(list: seq<OutEdge>, rank: seq<nat>, t: nat, e: Option<OutEdge>, i: nat) {
    if e.Some? then i < |list| && list[i] == e.value && (forall j :: 0 <= j < i ==> Done(rank, t, list[j]))
    else forall j :: 0 <= j < |list| ==> Done(rank, t, list[j])
  }

  lemma GrowsTrans(out: EdgeLists, mark: seq<bool>, rank: seq<nat>, stack: seq<nat>, open: set<nat>,
                   out1: EdgeLists, mark1: seq<bool>, rank1: seq<nat>,
                   out2: EdgeLists, mark2: seq<bool>, rank2: seq<nat>)
    requires Grows(out, mark, rank, stack, open, out1, mark1, rank1)
    requires Grows(out1, mark1, rank1, stack, open, out2, mark2, rank2)
    requires |rank| == |out|
    ensures Grows(out, mark, rank, stack, open, out2, mark2, rank2)
  {
    forall p | 0 <= p < |stack| && stack[p] < |out|
      ensures Longer(out[stack[p]], out2[stack[p]], rank2, open)
    {
      var u := stack[p];
      assert Longer(out[u], out1[u], rank1, open) && Longer(out1[u], out2[u], rank2, open);
      forall j | |out[u]| <= j < |out2[u]|
        ensures out2[u][j].head in open || (out2[u][j].head < |rank2| && rank2[out2[u][j].head] > 0)
      {
        if j < |out1[u]| {
          assert out2[u][j] == out1[u][j];
        }
      }
    }
  }

  // A call one level deeper, seen from this level.
  lemma GrowsBelow(out: EdgeLists, mark: seq<bool>, rank: seq<nat>, stack: seq<nat>, t: nat,
                   out': EdgeLists, mark': seq<bool>, rank': seq<nat>)
    requires Grows(out, mark, rank, stack + [t], {}, out', mark', rank')
    ensures Grows(out, mark, rank, stack, {t}, out', mark', rank')
    ensures t < |out| ==> Longer(out[t], out'[t], rank', {})
  {
    var stack' := stack + [t];
    assert stack'[|stack|] == t;
    forall p | 0 <= p < |stack| && stack[p] < |out|
      ensures Longer(out[stack[p]], out'[stack[p]], rank', {t})
    {
      assert stack'[p] == stack[p];
      assert Longer(out[stack[p]], out'[stack[p]], rank', {});
    }
  }

  // Once t is finished too, the lists have grown by edges to finished nodes only.
  lemma GrowsClose(out: EdgeLists, mark: seq<bool>, rank: seq<nat>, stack: seq<nat>, t: nat,
                   out': EdgeLists, mark': seq<bool>, rank': seq<nat>, r: nat)
    requires Grows(out, mark, rank, stack, {t}, out', mark', rank')
    requires t < |rank| && rank[t] == 0 && r > 0
    ensures Grows(out, mark, rank, stack, {}, out', mark', rank'[t := r])
  {
    forall p | 0 <= p < |stack| && stack[p] < |out|
      ensures Longer(out[stack[p]], out'[stack[p]], rank'[t := r], {})
    {
      assert Longer(out[stack[p]], out'[stack[p]], rank', {t});
    }
  }

  // A call made on the edge at position i moves the walk to what came next.
  lemma AtAfterCall(list: seq<OutEdge>, rank: seq<nat>, t: nat, i: nat, list': seq<OutEdge>, rank': seq<nat>)
    requires InOrder(list) && i < |list| && At(list, rank, t, Some(list[i]), i)
    requires |rank| == |rank'| && (forall v :: 0 <= v < |rank| && rank[v] > 0 ==> rank'[v] == rank[v])
    requires Longer(list, list', rank', {}) && Done(rank', t, list[i])
    ensures At(list', rank', t, Next(list, list[i]), i + 1)
  {
    NextAt(list, i);
    forall j | 0 <= j <= i
      ensures Done(rank', t, list'[j])
    {
      assert Done(rank, t, list[j]) || j == i;
    }
  }

  lemma AtAfterRemove(list: seq<OutEdge>, rank: seq<nat>, t: nat, i: nat)
    requires InOrder(list) && i < |list| && At(list, rank, t, Some(list[i]), i)
    ensures At(Remove(list, list[i]), rank, t, Next(list, list[i]), i)
    ensures |Remove(list, list[i])| == |list| - 1
  {
    NextAt(list, i);
    RemoveAt(list, i);
  }

  lemma BackGrows(strict: bool, out0: EdgeLists, next0: nat, out: EdgeLists, next: nat,
                  mark: seq<bool>, onstack: seq<bool>, stack: seq<nat>, rank: seq<nat>, clock: nat, t: nat, e: OutEdge)
    requires Search(strict, out0, next0, out, next, mark, onstack, stack + [t], rank, clock)
    requires t < |out| && e in out[t] && e.head != t && e.head < |out|
    ensures Grows(out, mark, rank, stack, {t}, AfterBack(strict, out, next, t, e), mark, rank)
    ensures AfterBack(strict, out, next, t, e)[t] == Remove(out[t], e)
  {
    hide Derived, Sorted, Finished, Pending, Chain, Remove;
    var stack' := stack + [t];
    assert stack'[|stack|] == t;
    assert forall p :: 0 <= p < |stack| ==> stack'[p] == stack[p];
  }

  // What the invariant says about the edge the walk stands at.
  lemma AtEdge(strict: bool, out0: EdgeLists, next0: nat, out: EdgeLists, next: nat,
               mark: seq<bool>, onstack: seq<bool>, stack: seq<nat>,
               rank: seq<nat>, clock: nat, t: nat, e: OutEdge, i: nat)
    requires Search(strict, out0, next0, out, next, mark, onstack, stack + [t], rank, clock)
    requires t < |out| && At(out[t], rank, t, Some(e), i)
    ensures i < |out[t]| && out[t][i] == e && e in out[t] && InOrder(out[t]) && e.head < |out|
    ensures mark[e.head] && !onstack[e.head] ==> rank[e.head] > 0
    ensures !mark[e.head] ==> e.head != t && Edge(Heads(out0), t, e.head)
  {
    var stack' := stack + [t];
    assert stack'[|stack|] == t;
    assert e in out0[t] || Above(stack', rank, |stack|, e.head);
  }

  lemma AtStart(out: EdgeLists, mark: seq<bool>, rank: seq<nat>, stack: seq<nat>, t: nat)
    requires t < |out| == |mark| && t < |rank|
    ensures At(out[t], rank, t, First(out[t]), 0)
    ensures Grows(out, mark, rank, stack, {t}, out, mark[t := true], rank)
  {
  }

  lemma AtEnd(list: seq<OutEdge>, rank: seq<nat>, t: nat, i: nat)
    requires At(list, rank, t, None, i)
    ensures forall e :: e in list && e.head != t ==> e.head < |rank| && rank[e.head] > 0
  {
    forall e | e in list && e.head != t
      ensures e.head < |rank| && rank[e.head] > 0
    {
      var j :| 0 <= j < |list| && list[j] == e;
      assert Done(rank, t, list[j]);
    }
  }

  // Moving past an edge without touching anything.
  lemma AtSkip(list: seq<OutEdge>, rank: seq<nat>, t: nat, i: nat)
    requires InOrder(list) && i < |list| && At(list, rank, t, Some(list[i]), i)
    requires Done(rank, t, list[i])
    ensures At(list, rank, t, Next(list, list[i]), i + 1)
  {
    AtAfterCall(list, rank, t, i, list, rank);
  }

  lemma FewerUnmarked(out: EdgeLists, mark: seq<bool>, rank: seq<nat>, stack: seq<nat>, open: set<nat>,
                      out': EdgeLists, mark': seq<bool>, rank': seq<nat>, v: nat)
    requires Grows(out, mark, rank, stack, open, out', mark', rank')
    requires v < |mark| && !mark[v] && mark'[v]
    ensures Unmarked(mark') < Unmarked(mark)
    ensures forall u :: 0 <= u < |mark| && mark[u] ==> mark'[u]
  {
    assert v in Unmarked(mark) && v !in Unmarked(mark');
  }

  // The state of the walk after a back edge has been dealt with.
  lemma AfterBackBranch(strict: bool, out0: EdgeLists, next0: nat, out: EdgeLists, next: nat,
                        mark: seq<bool>, onstack: seq<bool>, stack: seq<nat>, rank: seq<nat>, clock: nat,
                        t: nat, e: OutEdge, i: nat, outA: EdgeLists, markA: seq<bool>, rankA: seq<nat>)
    requires Search(strict, out0, next0, out, next, mark, onstack, stack + [t], rank, clock)
    requires t < |out| && e.head != t && e.head < |out| && onstack[e.head]
    requires At(out[t], rank, t, Some(e), i) && |rankA| == |outA|
    requires Grows(outA, markA, rankA, stack, {t}, out, mark, rank)
    ensures e in out[t] && Cyclic(Heads(out0))
    ensures Grows(outA, markA, rankA, stack, {t}, AfterBack(strict, out, next, t, e), mark, rank)
    ensures At(AfterBack(strict, out, next, t, e)[t], rank, t, Next(out[t], e), i)
    ensures |AfterBack(strict, out, next, t, e)[t]| < |out[t]|
  {
    AtEdge(strict, out0, next0, out, next, mark, onstack, stack, rank, clock, t, e, i);
    hide Sorted, Derived, Finished, Pending, Chain, Marks, Grows, Heads, Cyclic, Remove, At, InOrder;
    BackEdgeCycle(strict, out0, next0, out, next, mark, onstack, stack + [t], rank, clock, e);
    BackGrows(strict, out0, next0, out, next, mark, onstack, stack, rank, clock, t, e);
    GrowsTrans(outA, markA, rankA, stack, {t}, out, mark, rank,
               AfterBack(strict, out, next, t, e), mark, rank);
    AtAfterRemove(out[t], rank, t, i);
  }

  // The state of the walk after the head of edge e has been searched.
  lemma AfterCallBranch(outA: EdgeLists, markA: seq<bool>, rankA: seq<nat>,
                        out: EdgeLists, mark: seq<bool>, rank: seq<nat>, stack: seq<nat>, t: nat, e: OutEdge, i: nat,
                        out': EdgeLists, mark': seq<bool>, rank': seq<nat>)
    requires |rankA| == |outA| == |out| == |rank| && t < |out| && InOrder(out[t])
    requires At(out[t], rank, t, Some(e), i)
    requires Grows(outA, markA, rankA, stack, {t}, out, mark, rank)
    requires Grows(out, mark, rank, stack + [t], {}, out', mark', rank')
    requires Done(rank', t, e)
    ensures Grows(outA, markA, rankA, stack, {t}, out', mark', rank')
    ensures At(out'[t], rank', t, Next(out[t], e), i + 1)
  {
    GrowsBelow(out, mark, rank, stack, t, out', mark', rank');
    GrowsTrans(outA, markA, rankA, stack, {t}, out, mark, rank, out', mark', rank');
    AtAfterCall(out[t], rank, t, i, out'[t], rank');
  }

  class AcyclicWalk {
    const strict: bool
    ghost const out0: EdgeLists
    ghost const next0: nat
    var out: EdgeLists
    var next: nat
    var mark: seq<bool>
    var onstack: seq<bool>
    var numRev: nat
    ghost var rank: seq<nat>
    ghost var clock: nat

    constructor (strict: bool, out: EdgeLists, next: nat)
      requires Sorted(out, next)
      ensures this.strict == strict && out0 == out && next0 == next && this.out == out
      ensures Valid([]) && numRev == 0
      ensures forall v :: 0 <= v < |out| ==> !mark[v]
    {
      this.strict, out0, next0 := strict, out, next;
      this.out, this.next, numRev := out, next, 0;
      mark, onstack := seq(|out|, _ => false), seq(|out|, _ => false);
      rank, clock := seq(|out|, _ => 0), 0;
      StartAccounts(strict, out, next, seq(|out|, _ => 0));
      hide Accounts;
    }

    ghost predicate Valid(stack: seq<nat>)
      reads this
    {
      && Search(strict, out0, next0, out, next, mark, onstack, stack, rank, clock)
      && Accounts(strict, out0, next0, out, next, stack, rank)
      && next == next0 + numRev
    }

    // The body of the loop for a head that is on the stack.
    method ReverseBack(t: nat, e: OutEdge, ghost stack: seq<nat>)
      requires Valid(stack + [t])
      requires t < |out| && e in out[t] && e.head != t && e.head < |out| && onstack[e.head]
      modifies this`out, this`next, this`numRev
      ensures Valid(stack + [t])
      ensures out == AfterBack(strict, old(out), old(next), t, e)
      ensures |out| == |old(out)| && forall u :: 0 <= u < |out| && u != t && u != e.head ==> out[u] == old(out)[u]
      ensures forall f :: f in out[t] <==> f in old(out)[t] && f != e
      ensures var had := exists f :: f in old(out)[e.head] && f.head == t
                                     && (strict || (e.key.Some? && f.key == e.key));
              out[e.head] == if had then old(out)[e.head] else old(out)[e.head] + [OutEdge(old(next), t, e.key)]
    {
      hide Sorted, Derived, Finished, Pending, Chain, Accounts;
      BackSearch(strict, out0, next0, out, next, mark, onstack, stack, rank, clock, t, e);
      BackAccounts(strict, out0, next0, out, next, mark, onstack, stack, rank, clock, t, e);
      RemoveFrom(out, next, t, e);
      var h := e.head;
      if strict {
        if !HasEdge(out[h], t, None) {
          AddRevEdge(t, e);
        }
      } else {
        if e.key.None? || !HasEdge(out[h], t, e.key) {
          AddRevEdge(t, e);
        }
      }
      out := out[t := Remove(out[t], e)];
    }

    method AddRevEdge(t: nat, e: OutEdge)
      requires e.head < |out|
      modifies this`out, this`next, this`numRev
      ensures out == old(out)[e.head := old(out)[e.head] + [OutEdge(old(next), t, e.key)]]
      ensures next == old(next) + 1 && numRev == old(numRev) + 1
    {
      out := out[e.head := out[e.head] + [OutEdge(next, t, e.key)]];
      next := next + 1;
      numRev := numRev + 1;
    }

    method Dfs(t: nat, hasCycle0: bool, ghost stack: seq<nat>) returns (hasCycle: bool)
      requires Valid(stack) && t < |out| && !mark[t]
      requires stack != [] ==> Edge(Heads(out0), stack[|stack| - 1], t)
      modifies this
      ensures Valid(stack) && onstack == old(onstack) && mark[t] && rank[t] > 0
      ensures Grows(old(out), old(mark), old(rank), stack, {}, out, mark, rank)
      ensures hasCycle ==> hasCycle0 || Cyclic(Heads(out0))
      ensures !hasCycle ==> !hasCycle0 && out == old(out)
      decreases Unmarked(mark)
    {
      hide Sorted, Derived, Finished, Pending, Chain, Marks, Grows, Heads, Cyclic, Remove, At, Longer, InOrder, Edge;
      hide Accounts, Balanced, GoneLater, Numbers, AfterBack, Reverses;
      EnterAccounts(strict, out0, next0, out, next, stack, rank, t);
      EnterSearch(strict, out0, next0, out, next, mark, onstack, stack, rank, clock, t);
      AtStart(out, mark, rank, stack, t);
      hasCycle := hasCycle0;
      mark := mark[t := true];
      onstack := onstack[t := true];
      var e := First(out[t]);
      ghost var i := 0;
      while e.Some?
        invariant Valid(stack + [t]) && mark[t] && |out| == |old(out)|
        invariant Grows(old(out), old(mark), old(rank), stack, {t}, out, mark, rank)
        invariant onstack == old(onstack)[t := true]
        invariant At(out[t], rank, t, e, i)
        invariant hasCycle ==> hasCycle0 || Cyclic(Heads(out0))
        invariant !hasCycle ==> !hasCycle0 && out == old(out)
        decreases Unmarked(mark), if e.Some? then 1 + |out[t]| - i else 0
      {
        AtEdge(strict, out0, next0, out, next, mark, onstack, stack, rank, clock, t, e.value, i);
        var f := Next(out[t], e.value);
        var h := e.value.head;
        if h == t {
          AtSkip(out[t], rank, t, i);
          i := i + 1;
        } else if onstack[h] {
          AfterBackBranch(strict, out0, next0, out, next, mark, onstack, stack, rank, clock,
                          t, e.value, i, old(out), old(mark), old(rank));
          ReverseBack(t, e.value, stack);
          hasCycle := true;
        } else if !mark[h] {
          FewerUnmarked(old(out), old(mark), old(rank), stack, {t}, out, mark, rank, t);
          ghost var out1, mark1, rank1 := out, mark, rank;
          var r := Dfs(h, hasCycle, stack + [t]);
          FewerUnmarked(out1, mark1, rank1, stack + [t], {}, out, mark, rank, h);
          AfterCallBranch(old(out), old(mark), old(rank), out1, mark1, rank1, stack, t, e.value, i, out, mark, rank);
          hasCycle := hasCycle || r;
          i := i + 1;
        } else {
          AtSkip(out[t], rank, t, i);
          i := i + 1;
        }
        e := f;
      }
      AtEnd(out[t], rank, t, i);
      LeaveSearch(strict, out0, next0, out, next, mark, onstack, stack, rank, clock, t);
      LeaveAccounts(strict, out0, next0, out, next, mark, onstack, stack, rank, clock, t);
      GrowsClose(old(out), old(mark), old(rank), stack, t, out, mark, rank, clock + 1);
      onstack := onstack[t := false];
      rank, clock := rank[t := clock + 1], clock + 1;
    }
  }

  // When every edge but a loop goes to a node finished earlier there is no cycle.
  lemma RanksForbidCycles(out: EdgeLists, rank: seq<nat>)
    requires |rank| == |out| && Finished(out, rank)
    requires forall u :: 0 <= u < |out| ==> rank[u] > 0
    requires forall u, e :: 0 <= u < |out| && e in out[u] ==> e.head < |out|
    ensures !Cyclic(Heads(out))
  {
    var g := Heads(out);
    forall u: nat, v: nat | u != v && Reach(g, u, v)
      ensures u < |g| && v < |g| && rank[v] < rank[u]
    {
      ReachInside(g, u, v);
      var lower := set x: nat | 0 <= x < |g| && (x == u || rank[x] < rank[u]);
      forall x: nat, y: nat | x in lower && Edge(g, x, y)
        ensures y in lower
      {
        var e :| e in out[x] && e.head == y;
      }
      ReachClosed(g, lower, u, v);
    }
  }

  // A node that reaches another one has an out-edge.
  lemma ReachInside(g: Graph, u: nat, v: nat)
    requires Reach(g, u, v) && u != v
    ensures u < |g|
  {
    var p :| Path(g, p) && p[0] == u && p[|p| - 1] == v;
    assert Edge(g, p[0], p[1]);
  }

  // Makes the graph acyclic in place. What is left has the same joined pairs and
  // the same loops, and the result says whether there was a cycle to break. There is an
  // order of the nodes, rank, such that just the edges against it are gone; those added
  // balance them, and are counted.
  method GraphvizAcyclic(strict: bool, out: EdgeLists, next: nat) returns (hasCycle: bool, w: AcyclicWalk)
    requires Sorted(out, next)
    ensures fresh(w) && w.strict == strict
    ensures !Cyclic(Heads(w.out))
    ensures hasCycle <==> Cyclic(Heads(out))
    ensures !hasCycle ==> w.out == out
    ensures Derived(strict, out, next, w.out)
    ensures w.next == next + w.numRev && Sorted(w.out, w.next)
    ensures Balanced(strict, out, w.out) && Numbers(w.out, next, w.next)
    ensures |w.rank| == |out| && forall v, e :: 0 <= v < |out| && e in out[v] && e.head != v ==>
              e.head < |out| && (e in w.out[v] <==> w.rank[e.head] < w.rank[v])
  {
    hide Sorted, Derived, Finished, Pending, Chain, Grows, Heads, Cyclic, InOrder, Edge, Balanced, GoneLater, Numbers;
    w := new AcyclicWalk(strict, out, next);
    hasCycle := false;
    for n := 0 to |out|
      invariant fresh(w) && w.strict == strict && w.out0 == out && w.next0 == next
      invariant w.Valid([])
      invariant forall v :: 0 <= v < n ==> w.mark[v]
      invariant hasCycle ==> Cyclic(Heads(out))
      invariant !hasCycle ==> w.out == out
    {
      if !w.mark[n] {
        ghost var out1, mark1, rank1 := w.out, w.mark, w.rank;
        var r := w.Dfs(n, false, []);
        FewerUnmarked(out1, mark1, rank1, [], {}, w.out, w.mark, w.rank, n);
        hasCycle := hasCycle || r;
      }
    }
    AllFinished(out, w);
  }

  lemma AllFinished(out: EdgeLists, w: AcyclicWalk)
    requires w.Valid([]) && w.out0 == out
    requires forall v :: 0 <= v < |out| ==> w.mark[v]
    ensures !Cyclic(Heads(w.out))
    ensures w.out == out ==> !Cyclic(Heads(out))
    ensures |w.rank| == |w.out| == |out| && Balanced(w.strict, out, w.out) && Numbers(w.out, w.next0, w.next)
    ensures forall v, e :: 0 <= v < |out| && e in out[v] && e.head != v ==>
              e.head < |out| && (e in w.out[v] <==> w.rank[e.head] < w.rank[v])
  {
    RanksForbidCycles(w.out, w.rank);
    ByRank(out, w);
    hide Finished, Pending, Chain, Heads, Cyclic, Balanced, GoneLater, Numbers;
  }

  // Just the edges against the order in which the nodes are finished are gone.
  lemma ByRank(out: EdgeLists, w: AcyclicWalk)
    requires w.Valid([]) && w.out0 == out
    requires forall v :: 0 <= v < |out| ==> w.mark[v]
    ensures |w.rank| == |w.out| == |out|
    ensures forall v, e :: 0 <= v < |out| && e in out[v] && e.head != v ==>
              e.head < |out| && (e in w.out[v] <==> w.rank[e.head] < w.rank[v])
  {
    hide Derived, Pending, Chain, Heads, Balanced, Numbers;
    forall v, e | 0 <= v < |out| && e in out[v] && e.head != v
      ensures e.head < |out| && (e in w.out[v] <==> w.rank[e.head] < w.rank[v])
    {
      assert w.rank[v] > 0 && w.rank[e.head] > 0;
      if e !in w.out[v] {
        assert Later([], w.rank, e.head, v);
      }
    }
  }
}
