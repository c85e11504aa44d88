// Single-source shortest paths over an ordered queue. A stored distance is one
// more than the real one, so that zero can mean "not seen".
module Dijkstra {
  import opened Wrappers

  // An edge as the search meets it at one end: the node at the other end and
  // the value of its len attribute, if it has a numeric one.
  datatype Arc = Arc(head: nat, len: Option<real>)

  // adj[u] lists the edges at u: the out-edges when directed paths are wanted,
  // else all incident edges.
  type Adjacency = seq<seq<Arc>>

  ghost predicate WellFormed(adj: Adjacency) {
    forall u, k :: 0 <= u < |adj| && 0 <= k < |adj[u]| ==> adj[u][k].head < |adj|
  }

  // A missing, unreadable or negative length counts as one.
  function GetLength(a: Arc): (l: real)
    ensures l >= 0.0
  {
    if a.len.Some? && a.len.value >= 0.0 then a.len.value else 1.0
  }

  // ------------------------------------------------------------------ routes

  // A route is the start node, or a route extended by edge k of node u.
  datatype Route = Start | Via(route: Route, u: nat, k: nat)

  // r leads from s to v and is w long: each edge adds its len if that is a number
  // and not negative, and one otherwise.
  ghost predicate Leads(adj: Adjacency, s: nat, r: Route, v: nat, w: real) {
    match r
    case Start => v == s && w == 0.0
    case Via(r0, u, k) =>
      && u < |adj| && k < |adj[u]| && adj[u][k].head == v
      && match adj[u][k].len
         case None => Leads(adj, s, r0, u, w - 1.0)
         case Some(l) => Leads(adj, s, r0, u, if l < 0.0 then w - 1.0 else w - l)
  }

  ghost predicate HasRoute(adj: Adjacency, s: nat, v: nat, w: real) {
    exists r :: Leads(adj, s, r, v, w)
  }

  ghost predicate Reachable(adj: Adjacency, s: nat, v: nat) {
    exists r, w :: Leads(adj, s, r, v, w)
  }

  // w is the length of a shortest route from s to v.
  ghost predicate IsDistance(adj: Adjacency, s: nat, v: nat, w: real) {
    && HasRoute(adj, s, v, w)
    && (forall r, w' :: Leads(adj, s, r, v, w') ==> w <= w')
  }

  // --------------------------------------------------------------- the queue

  // An entry of the queue: a node under the distance it was filed with.
  type Entry = (real, nat)

  type Queue = set<Entry>

  // The order of the queue: by distance, then by node.
  predicate Less(a: Entry, b: Entry) {
    a.0 < b.0 || (a.0 == b.0 && a.1 < b.1)
  }

  ghost predicate IsFirst(q: Queue, e: Entry) {
    e in q && forall f :: f in q && f != e ==> Less(e, f)
  }

  lemma {:induction false} FirstExists(q: Queue)
    requires q != {}
    ensures exists e :: IsFirst(q, e)
  {
    var x :| x in q;
    if q - {x} == {} {
      assert q == {x};
      assert IsFirst(q, x);
    } else {
      FirstExists(q - {x});
      var e :| IsFirst(q - {x}, e);
      var least := if Less(x, e) then x else e;
      forall f | f in q && f != least
        ensures Less(least, f)
      {
        assert f == x || f == e || Less(e, f);
      }
      assert IsFirst(q, least);
    }
  }

  // ---------------------------------------------------------- the invariant

  // done nodes are settled; seen ones that are not done are in the queue, under
  // the distance they have now.
  ghost predicate Queued(n: nat, dist: seq<real>, done: seq<bool>, q: Queue) {
    && |dist| == |done| == n
    && (forall e :: e in q ==> e.1 < n && e.0 == dist[e.1])
    && (forall v :: 0 <= v < n ==> dist[v] == 0.0 || dist[v] >= 1.0)
    && (forall v :: 0 <= v < n ==> ((dist[v], v) in q <==> dist[v] != 0.0 && !done[v]))
    && (forall v :: 0 <= v < n && done[v] ==> dist[v] != 0.0)
  }

  ghost predicate Settled(n: nat, dist: seq<real>, done: seq<bool>)
    requires |dist| == |done| == n
  {
    forall u, v :: 0 <= u < n && 0 <= v < n && done[u] && !done[v] && dist[v] != 0.0 ==> dist[u] <= dist[v]
  }

  ghost predicate RelaxedArc(dist: seq<real>, u: nat, a: Arc)
    requires u < |dist| && a.head < |dist|
  {
    dist[a.head] != 0.0 && dist[a.head] <= dist[u] + GetLength(a)
  }

  // Every edge of a done node has been taken into account, of node cur only the first upto.
  ghost predicate Relaxed(adj: Adjacency, dist: seq<real>, done: seq<bool>, cur: nat, upto: nat)
    requires WellFormed(adj) && |dist| == |done| == |adj|
  {
    forall u, k :: 0 <= u < |adj| && done[u] && 0 <= k < |adj[u]| && (u != cur || k < upto) ==>
      RelaxedArc(dist, u, adj[u][k])
  }

  ghost predicate Witnessed(adj: Adjacency, s: nat, dist: seq<real>)
    requires |dist| == |adj|
  {
    forall v :: 0 <= v < |adj| && dist[v] != 0.0 ==> HasRoute(adj, s, v, dist[v] - 1.0)
  }

  // prev[v] is a node settled before v, with an edge that accounts for dist[v].
  ghost predicate Linked(adj: Adjacency, s: nat, dist: seq<real>, done: seq<bool>, prev: seq<Option<nat>>,
                         rank: seq<nat>)
    requires |dist| == |done| == |prev| == |rank| == |adj|
  {
    && (forall v :: 0 <= v < |adj| && dist[v] != 0.0 && v != s ==>
         prev[v].Some? && LinkedBy(adj, dist, done, rank, v, prev[v].value))
    && (forall v :: 0 <= v < |adj| && (v == s || dist[v] == 0.0) ==> prev[v].None?)
  }

  ghost predicate LinkedBy(adj: Adjacency, dist: seq<real>, done: seq<bool>, rank: seq<nat>, v: nat, u: nat)
    requires |dist| == |done| == |rank| == |adj| && v < |adj|
  {
    && u < |adj| && done[u]
    && (done[v] ==> rank[u] < rank[v])
    && exists k :: 0 <= k < |adj[u]| && adj[u][k].head == v && dist[v] == dist[u] + GetLength(adj[u][k])
  }

  // Whatever a route reaches is done at no greater distance, or something at no
  // greater distance is still in the queue.
  lemma {:induction false} RouteBound(adj: Adjacency, s: nat, dist: seq<real>, done: seq<bool>, q: Queue, r: Route,
                                      v: nat, w: real)
    requires WellFormed(adj) && Queued(|adj|, dist, done, q) && Relaxed(adj, dist, done, |adj|, 0)
    requires s < |adj| && dist[s] == 1.0
    requires Leads(adj, s, r, v, w)
    ensures v < |adj|
    ensures (done[v] && dist[v] - 1.0 <= w) || exists e :: e in q && e.0 - 1.0 <= w
  {
    match r
    case Start =>
      assert done[s] || (dist[s], s) in q;
    case Via(r0, u, k) =>
      var w0 := w - GetLength(adj[u][k]);
      RouteBound(adj, s, dist, done, q, r0, u, w0);
      if e :| e in q && e.0 - 1.0 <= w0 {
        assert e.0 - 1.0 <= w;
      } else {
        assert RelaxedArc(dist, u, adj[u][k]);
        assert done[v] || (dist[v], v) in q;
      }
  }

  // The whole invariant; cur is the node whose edges are being relaxed, of which
  // the first upto have been.
  ghost predicate Valid(adj: Adjacency, s: nat, dist: seq<real>, prev: seq<Option<nat>>, done: seq<bool>, q: Queue,
                        rank: seq<nat>, clock: nat, cur: nat, upto: nat) {
    && WellFormed(adj) && s < |adj|
    && |dist| == |done| == |prev| == |rank| == |adj|
    && dist[s] == 1.0
    && Queued(|adj|, dist, done, q)
    && Settled(|adj|, dist, done)
    && Relaxed(adj, dist, done, cur, upto)
    && Witnessed(adj, s, dist)
    && Linked(adj, s, dist, done, prev, rank)
    && (forall v :: 0 <= v < |adj| && done[v] ==> rank[v] < clock)
  }

  // No settled node is farther than u.
  ghost predicate Greatest(dist: seq<real>, done: seq<bool>, u: nat)
    requires |dist| == |done| && u < |dist|
  {
    forall v :: 0 <= v < |done| && done[v] ==> dist[v] <= dist[u]
  }

  ghost function Refiled(q: Queue, d0: real, v: nat, d: real): Queue {
    q - {(d0, v)} + {(d, v)}
  }

  // The first node of the queue is settled next.
  lemma SettleFirst(adj: Adjacency, s: nat, dist: seq<real>, prev: seq<Option<nat>>, done: seq<bool>, q: Queue,
                    rank: seq<nat>, clock: nat, u: nat)
    requires u < |dist| && Valid(adj, s, dist, prev, done, q, rank, clock, |adj|, 0) && IsFirst(q, (dist[u], u))
    requires done[s] || q == {(dist[s], s)}
    ensures u < |adj|
    ensures Valid(adj, s, dist, prev, done[u := true], q - {(dist[u], u)}, rank[u := clock], clock + 1, u, 0)
    ensures done[u := true][s]
    ensures Greatest(dist, done[u := true], u)
  {
    FirstIsSeen(adj, dist, done, q, u);
    SettleQueued(|adj|, dist, done, q, u);
    SettleOrder(|adj|, dist, done, q, u);
    SettleLinked(adj, s, dist, done, prev, rank, clock, u);
    SettleStart(s, dist, done, q, u);
    hide Queued, Settled, Linked, LinkedBy, Witnessed, IsFirst, Greatest;
  }

  lemma FirstIsSeen(adj: Adjacency, dist: seq<real>, done: seq<bool>, q: Queue, u: nat)
    requires Queued(|adj|, dist, done, q) && u < |dist| && IsFirst(q, (dist[u], u))
    ensures u < |adj| && dist[u] != 0.0 && !done[u]
  {
  }

  lemma SettleQueued(n: nat, dist: seq<real>, done: seq<bool>, q: Queue, u: nat)
    requires Queued(n, dist, done, q) && u < n && dist[u] != 0.0
    ensures Queued(n, dist, done[u := true], q - {(dist[u], u)})
  {
  }

  lemma SettleOrder(n: nat, dist: seq<real>, done: seq<bool>, q: Queue, u: nat)
    requires Queued(n, dist, done, q) && Settled(n, dist, done) && u < n && IsFirst(q, (dist[u], u))
    ensures Settled(n, dist, done[u := true])
    ensures Greatest(dist, done[u := true], u)
  {
    forall v | 0 <= v < n && !done[v] && dist[v] != 0.0
      ensures dist[u] <= dist[v]
    {
      assert (dist[v], v) in q;
    }
  }

  lemma SettleLinked(adj: Adjacency, s: nat, dist: seq<real>, done: seq<bool>, prev: seq<Option<nat>>,
                     rank: seq<nat>, clock: nat, u: nat)
    requires |dist| == |done| == |prev| == |rank| == |adj| && u < |adj| && !done[u]
    requires Linked(adj, s, dist, done, prev, rank)
    requires forall v :: 0 <= v < |adj| && done[v] ==> rank[v] < clock
    ensures Linked(adj, s, dist, done[u := true], prev, rank[u := clock])
  {
    var done', rank' := done[u := true], rank[u := clock];
    forall v | 0 <= v < |adj| && dist[v] != 0.0 && v != s
      ensures prev[v].Some? && LinkedBy(adj, dist, done', rank', v, prev[v].value)
    {
      assert LinkedBy(adj, dist, done, rank, v, prev[v].value);
    }
  }

  lemma SettleStart(s: nat, dist: seq<real>, done: seq<bool>, q: Queue, u: nat)
    requires s < |dist| == |done| && u < |dist| && IsFirst(q, (dist[u], u))
    requires done[s] || q == {(dist[s], s)}
    ensures done[u := true][s]
  {
    assert (dist[u], u) in q;
  }

  // What update does to the record of dest, which is not settled.
  ghost predicate Better(dist: seq<real>, u: nat, a: Arc)
    requires u < |dist| && a.head < |dist|
  {
    dist[a.head] == 0.0 || dist[u] + GetLength(a) < dist[a.head]
  }

  lemma ImproveRoute(adj: Adjacency, s: nat, dist: seq<real>, u: nat, k: nat)
    requires WellFormed(adj) && |dist| == |adj| && u < |adj| && k < |adj[u]|
    requires Witnessed(adj, s, dist) && dist[u] != 0.0
    ensures HasRoute(adj, s, adj[u][k].head, dist[u] + GetLength(adj[u][k]) - 1.0)
  {
    var r :| Leads(adj, s, r, u, dist[u] - 1.0);
    assert Leads(adj, s, Via(r, u, k), adj[u][k].head, dist[u] + GetLength(adj[u][k]) - 1.0);
  }

  lemma RelaxBetter(adj: Adjacency, s: nat, dist: seq<real>, prev: seq<Option<nat>>, done: seq<bool>, q: Queue,
                    rank: seq<nat>, clock: nat, u: nat, k: nat)
    requires Valid(adj, s, dist, prev, done, q, rank, clock, u, k)
    requires u < |adj| && k < |adj[u]| && done[u] && !done[adj[u][k].head] && done[s]
    requires Better(dist, u, adj[u][k]) && Greatest(dist, done, u)
    ensures var v, d := adj[u][k].head, dist[u] + GetLength(adj[u][k]);
            Valid(adj, s, dist[v := d], prev[v := Some(u)], done, Refiled(q, dist[v], v, d), rank, clock, u, k + 1)
  {
    hide Queued, Settled, Relaxed, Linked, Witnessed, HasRoute, Greatest, Better;
    var v, d := adj[u][k].head, dist[u] + GetLength(adj[u][k]);
    SeenDone(|adj|, dist, done, q, u);
    RelaxQueue(|adj|, dist, done, q, u, v, d);
    RelaxArcs(adj, s, dist, prev, done, q, rank, clock, u, k);
    RelaxLinks(adj, s, dist, prev, done, q, rank, clock, u, k);
    ImproveRoute(adj, s, dist, u, k);
    RelaxWitness(adj, s, dist, v, d);
    assert dist[v := d][s] == 1.0 by { assert v != s; }
  }

  lemma RelaxWitness(adj: Adjacency, s: nat, dist: seq<real>, v: nat, d: real)
    requires |dist| == |adj| && v < |adj| && Witnessed(adj, s, dist) && HasRoute(adj, s, v, d - 1.0)
    ensures Witnessed(adj, s, dist[v := d])
  {
  }

  lemma SeenDone(n: nat, dist: seq<real>, done: seq<bool>, q: Queue, u: nat)
    requires Queued(n, dist, done, q) && u < n && done[u]
    ensures dist[u] != 0.0
  {
  }

  lemma RelaxArcs(adj: Adjacency, s: nat, dist: seq<real>, prev: seq<Option<nat>>, done: seq<bool>, q: Queue,
                    rank: seq<nat>, clock: nat, u: nat, k: nat)
    requires Valid(adj, s, dist, prev, done, q, rank, clock, u, k)
    requires u < |adj| && k < |adj[u]| && done[u] && !done[adj[u][k].head] && done[s]
    requires Better(dist, u, adj[u][k]) && Greatest(dist, done, u)
    ensures Relaxed(adj, dist[adj[u][k].head := dist[u] + GetLength(adj[u][k])], done, u, k + 1)
  {
    var v, d := adj[u][k].head, dist[u] + GetLength(adj[u][k]);
    forall x, i | 0 <= x < |adj| && done[x] && 0 <= i < |adj[x]| && (x != u || i < k + 1)
      ensures RelaxedArc(dist[v := d], x, adj[x][i])
    {
      assert (x != u || i < k) ==> RelaxedArc(dist, x, adj[x][i]);
    }
  }

  lemma RelaxLinks(adj: Adjacency, s: nat, dist: seq<real>, prev: seq<Option<nat>>, done: seq<bool>, q: Queue,
                    rank: seq<nat>, clock: nat, u: nat, k: nat)
    requires Valid(adj, s, dist, prev, done, q, rank, clock, u, k)
    requires u < |adj| && k < |adj[u]| && done[u] && !done[adj[u][k].head] && done[s]
    requires Better(dist, u, adj[u][k]) && Greatest(dist, done, u)
    ensures var v, d := adj[u][k].head, dist[u] + GetLength(adj[u][k]);
            Linked(adj, s, dist[v := d], done, prev[v := Some(u)], rank)
  {
    hide Queued, Settled, Relaxed, Witnessed, LinkedBy, Better, Greatest;
    var v, d := adj[u][k].head, dist[u] + GetLength(adj[u][k]);
    var dist', prev' := dist[v := d], prev[v := Some(u)];
    NotStart(adj, dist, done, u, k, s);
    DoneFar(|adj|, dist, done, q, u);
    forall x | 0 <= x < |adj| && dist'[x] != 0.0 && x != s
      ensures prev'[x].Some? && LinkedBy(adj, dist', done, rank, x, prev'[x].value)
    {
      if x == v {
        LinkedNow(adj, dist, done, rank, u, k);
      } else {
        LinkedStill(adj, dist, done, rank, x, prev[x].value, v, d);
      }
    }
  }

  lemma DoneFar(n: nat, dist: seq<real>, done: seq<bool>, q: Queue, u: nat)
    requires Queued(n, dist, done, q) && u < n && done[u]
    ensures dist[u] >= 1.0
  {
  }

  lemma NotStart(adj: Adjacency, dist: seq<real>, done: seq<bool>, u: nat, k: nat, s: nat)
    requires WellFormed(adj) && |dist| == |done| == |adj| && u < |adj| && k < |adj[u]| && s < |adj|
    requires done[s] && !done[adj[u][k].head]
    ensures adj[u][k].head < |adj| && adj[u][k].head != s
  {
  }

  lemma LinkedNow(adj: Adjacency, dist: seq<real>, done: seq<bool>, rank: seq<nat>, u: nat, k: nat)
    requires |dist| == |done| == |rank| == |adj| && u < |adj| && k < |adj[u]| && adj[u][k].head < |adj|
    requires done[u] && !done[adj[u][k].head]
    ensures var v, d := adj[u][k].head, dist[u] + GetLength(adj[u][k]); LinkedBy(adj, dist[v := d], done, rank, v, u)
  {
  }

  lemma LinkedStill(adj: Adjacency, dist: seq<real>, done: seq<bool>, rank: seq<nat>, x: nat, w: nat, v: nat, d: real)
    requires |dist| == |done| == |rank| == |adj| && x < |adj| && v < |adj|
    requires LinkedBy(adj, dist, done, rank, x, w) && x != v && !done[v]
    ensures LinkedBy(adj, dist[v := d], done, rank, x, w)
  {
  }

  lemma RelaxQueue(n: nat, dist: seq<real>, done: seq<bool>, q: Queue, u: nat, v: nat, d: real)
    requires Queued(n, dist, done, q) && Settled(n, dist, done)
    requires u < n && v < n && done[u] && !done[v] && d >= dist[u] && Greatest(dist, done, u)
    ensures Queued(n, dist[v := d], done, Refiled(q, dist[v], v, d)) && Settled(n, dist[v := d], done)
    ensures Greatest(dist[v := d], done, u)
  {
  }

  lemma RelaxSame(adj: Adjacency, s: nat, dist: seq<real>, prev: seq<Option<nat>>, done: seq<bool>, q: Queue,
                  rank: seq<nat>, clock: nat, u: nat, k: nat)
    requires Valid(adj, s, dist, prev, done, q, rank, clock, u, k)
    requires u < |adj| && k < |adj[u]| && done[u]
    requires done[adj[u][k].head] || !Better(dist, u, adj[u][k])
    requires Greatest(dist, done, u)
    ensures Valid(adj, s, dist, prev, done, q, rank, clock, u, k + 1)
  {
    assert RelaxedArc(dist, u, adj[u][k]);
  }

  lemma UnseenNotQueued(n: nat, dist: seq<real>, done: seq<bool>, q: Queue, v: nat)
    requires Queued(n, dist, done, q) && v < n
    ensures dist[v] == 0.0 ==> (0.0, v) !in q
  {
  }

  lemma StillGreatest(dist: seq<real>, done: seq<bool>, u: nat, v: nat, d: real)
    requires |dist| == |done| && u < |dist| && v < |dist| && done[u] && !done[v] && Greatest(dist, done, u)
    ensures Greatest(dist[v := d], done, u)
  {
  }

  lemma RelaxedAll(adj: Adjacency, dist: seq<real>, done: seq<bool>, u: nat)
    requires WellFormed(adj) && |dist| == |done| == |adj| && u < |adj|
    requires Relaxed(adj, dist, done, u, |adj[u]|)
    ensures Relaxed(adj, dist, done, |adj|, 0)
  {
  }

  ghost function Unsettled(done: seq<bool>): set<nat> {
    set v: nat | 0 <= v < |done| && !done[v]
  }

  lemma FewerUnsettled(done: seq<bool>, u: nat)
    requires u < |done| && !done[u]
    ensures Unsettled(done[u := true]) < Unsettled(done)
  {
    assert u in Unsettled(done) && u !in Unsettled(done[u := true]);
  }

  // ------------------------------------------------------------- the search

  class Search {
    const adj: Adjacency
    const s: nat
    const doPath: bool
    var dist: seq<real>
    var prev: seq<Option<nat>>
    var done: seq<bool>
    var queue: Queue
    // What prev would be if paths were recorded, and when nodes were settled.
    ghost var link: seq<Option<nat>>
    ghost var rank: seq<nat>
    ghost var clock: nat

    constructor (adj: Adjacency, s: nat, doPath: bool)
      requires WellFormed(adj) && s < |adj|
      ensures this.adj == adj && this.s == s && this.doPath == doPath
      ensures Inv(|adj|, 0) && queue == {(1.0, s)}
    {
      this.adj, this.s, this.doPath := adj, s, doPath;
      dist := seq(|adj|, _ => 0.0)[s := 1.0];
      prev := seq(|adj|, _ => None);
      done := seq(|adj|, _ => false);
      queue := {(1.0, s)};
      link, rank, clock := seq(|adj|, _ => None), seq(|adj|, _ => 0), 0;
      new;
      assert Leads(adj, s, Start, s, 0.0);
      assert HasRoute(adj, s, s, 0.0);
    }

    ghost predicate Inv(cur: nat, upto: nat)
      reads this
    {
      && Valid(adj, s, dist, link, done, queue, rank, clock, cur, upto)
      && |prev| == |adj|
      && (if doPath then prev == link else forall v :: 0 <= v < |adj| ==> prev[v] == None)
    }

    // dtinsert and dtdelete, which find an entry by the distance a node has now.
    method Insert(v: nat)
      requires v < |dist|
      modifies this`queue
      ensures queue == old(queue) + {(dist[v], v)}
    {
      queue := queue + {(dist[v], v)};
    }

    method Remove(v: nat)
      requires v < |dist|
      modifies this`queue
      ensures queue == old(queue) - {(dist[v], v)}
    {
      queue := queue - {(dist[v], v)};
    }

    // Takes out the first entry and returns its node, or nothing if the queue is empty.
    method ExtractMin() returns (u: Option<nat>)
      requires forall e :: e in queue ==> e.1 < |dist| && e.0 == dist[e.1]
      modifies this`queue
      ensures u == None <==> old(queue) == {}
      ensures u == None ==> queue == old(queue)
      ensures u.Some? ==> u.value < |dist| && IsFirst(old(queue), (dist[u.value], u.value))
      ensures u.Some? ==> queue == old(queue) - {(dist[u.value], u.value)}
    {
      if queue == {} {
        return None;
      }
      FirstExists(queue);
      var e: Entry :| e in queue && forall f :: f in queue && f != e ==> Less(e, f);
      Remove(e.1);
      u := Some(e.1);
    }

    method Update(dest: nat, src: nat, len: real)
      requires dest < |dist| && src < |dist| && |prev| == |dist| && |link| == |dist|
      requires dist[dest] == 0.0 ==> (0.0, dest) !in queue
      modifies this`queue, this`dist, this`prev, this`link
      ensures var d, better := old(dist[src]) + len, old(dist[dest]) == 0.0 || old(dist[src]) + len < old(dist[dest]);
              if better then
                && dist == old(dist)[dest := d] && queue == Refiled(old(queue), old(dist[dest]), dest, d)
                && link == old(link)[dest := Some(src)]
                && prev == (if doPath then old(prev)[dest := Some(src)] else old(prev))
              else dist == old(dist) && queue == old(queue) && link == old(link) && prev == old(prev)
    {
      var newlen := dist[src] + len;
      var oldlen := dist[dest];
      if oldlen == 0.0 {
        dist := dist[dest := newlen];
        if doPath { prev := prev[dest := Some(src)]; }
        link := link[dest := Some(src)];
        Insert(dest);
      } else if newlen < oldlen {
        Remove(dest);
        dist := dist[dest := newlen];
        if doPath { prev := prev[dest := Some(src)]; }
        link := link[dest := Some(src)];
        Insert(dest);
      }
    }

    // Settles u and relaxes all its edges.
    method Settle(u: nat)
      requires u < |adj| && |dist| == |adj| && u < |done|
      requires |rank| == |adj| == |done|
      requires !done[u]
      requires Valid(adj, s, dist, link, done[u := true], queue, rank[u := clock], clock + 1, u, 0)
      requires done[u := true][s] && Greatest(dist, done[u := true], u)
      requires |prev| == |adj| && if doPath then prev == link else forall v :: 0 <= v < |adj| ==> prev[v] == None
      modifies this
      ensures Inv(|adj|, 0) && done == old(done)[u := true] && done[s]
    {
      hide Queued, Settled, Relaxed, Linked, Witnessed, Greatest;
      done := done[u := true];
      rank, clock := rank[u := clock], clock + 1;
      var k := 0;
      while k < |adj[u]|
        invariant 0 <= k <= |adj[u]|
        invariant Inv(u, k) && done == old(done)[u := true] && done[s]
        invariant Greatest(dist, done, u)
      {
        var a := adj[u][k];
        if !done[a.head] {
          UnseenNotQueued(|adj|, dist, done, queue, a.head);
          if Better(dist, u, a) {
            RelaxBetter(adj, s, dist, link, done, queue, rank, clock, u, k);
            StillGreatest(dist, done, u, a.head, dist[u] + GetLength(a));
          } else {
            RelaxSame(adj, s, dist, link, done, queue, rank, clock, u, k);
          }
          Update(a.head, u, GetLength(a));
        } else {
          RelaxSame(adj, s, dist, link, done, queue, rank, clock, u, k);
        }
        k := k + 1;
      }
      RelaxedAll(adj, dist, done, u);
    }

    method Run()
      requires Inv(|adj|, 0) && queue == {(1.0, s)}
      modifies this
      ensures Inv(|adj|, 0) && queue == {}
    {
      hide Settled, Relaxed, Linked, Witnessed, Greatest;
      var u := None;
      while true
        invariant Inv(|adj|, 0) && (done[s] || queue == {(dist[s], s)})
        decreases Unsettled(done)
      {
        u := ExtractMin();
        if u == None { break; }
        SettleFirst(adj, s, dist, link, done, queue + {(dist[u.value], u.value)}, rank, clock, u.value);
        FewerUnsettled(done, u.value);
        Settle(u.value);
      }
    }
  }

  // ------------------------------------------------------------- the results

  // Every step of the route follows a prev entry.
  ghost predicate Follows(adj: Adjacency, prev: seq<Option<nat>>, r: Route) {
    match r
    case Start => true
    case Via(r0, u, k) =>
      && u < |adj| && k < |adj[u]| && adj[u][k].head < |prev| && prev[adj[u][k].head] == Some(u)
      && Follows(adj, prev, r0)
  }

  ghost predicate Traced(adj: Adjacency, s: nat, prev: seq<Option<nat>>, v: nat, w: real) {
    exists r :: Leads(adj, s, r, v, w) && Follows(adj, prev, r)
  }

  // With an empty queue, stored distances are one more than the true ones and
  // zero exactly at the nodes that cannot be reached.
  lemma DistancesExact(adj: Adjacency, s: nat, dist: seq<real>, prev: seq<Option<nat>>, done: seq<bool>,
                       rank: seq<nat>, clock: nat, v: nat)
    requires Valid(adj, s, dist, prev, done, {}, rank, clock, |adj|, 0) && v < |adj|
    ensures if dist[v] == 0.0 then !Reachable(adj, s, v) else IsDistance(adj, s, v, dist[v] - 1.0)
  {
    forall r, w | Leads(adj, s, r, v, w)
      ensures dist[v] != 0.0 && dist[v] - 1.0 <= w
    {
      RouteBound(adj, s, dist, done, {}, r, v, w);
    }
  }

  // The prev links lead back to the start along a shortest route.
  lemma {:induction false} PrevTraces(adj: Adjacency, s: nat, dist: seq<real>, prev: seq<Option<nat>>, done: seq<bool>,
                                      rank: seq<nat>, clock: nat, v: nat)
    requires v < |adj| == |dist| == |rank| && dist[v] != 0.0
    requires Valid(adj, s, dist, prev, done, {}, rank, clock, |adj|, 0)
    ensures Traced(adj, s, prev, v, dist[v] - 1.0)
    decreases rank[v]
  {
    hide Valid, Leads, Follows;
    if v == s {
      TraceStart(adj, s, prev);
      LinkOfStart(adj, s, dist, prev, done, rank, clock);
    } else {
      var u, k := LinkOf(adj, s, dist, prev, done, rank, clock, v);
      PrevTraces(adj, s, dist, prev, done, rank, clock, u);
      TraceStep(adj, s, prev, u, k, dist[u] - 1.0);
      assert dist[u] - 1.0 + GetLength(adj[u][k]) == dist[v] - 1.0;
    }
  }

  lemma TraceStart(adj: Adjacency, s: nat, prev: seq<Option<nat>>)
    ensures Traced(adj, s, prev, s, 0.0)
  {
    assert Leads(adj, s, Start, s, 0.0) && Follows(adj, prev, Start);
  }

  lemma LinkOfStart(adj: Adjacency, s: nat, dist: seq<real>, prev: seq<Option<nat>>, done: seq<bool>,
                    rank: seq<nat>, clock: nat)
    requires Valid(adj, s, dist, prev, done, {}, rank, clock, |adj|, 0)
    ensures s < |dist| && dist[s] == 1.0
  {
  }

  lemma LinkOf(adj: Adjacency, s: nat, dist: seq<real>, prev: seq<Option<nat>>, done: seq<bool>,
               rank: seq<nat>, clock: nat, v: nat) returns (u: nat, k: nat)
    requires Valid(adj, s, dist, prev, done, {}, rank, clock, |adj|, 0)
    requires v < |adj| && dist[v] != 0.0 && v != s
    ensures |dist| == |prev| == |rank| == |adj| && u < |adj| && dist[u] != 0.0 && rank[u] < rank[v]
    ensures k < |adj[u]| && adj[u][k].head == v && prev[v] == Some(u)
    ensures dist[v] == dist[u] + GetLength(adj[u][k])
  {
    AllSettled(|adj|, dist, done);
    u := prev[v].value;
    assert LinkedBy(adj, dist, done, rank, v, u);
    k :| 0 <= k < |adj[u]| && adj[u][k].head == v && dist[v] == dist[u] + GetLength(adj[u][k]);
  }

  lemma AllSettled(n: nat, dist: seq<real>, done: seq<bool>)
    requires Queued(n, dist, done, {})
    ensures forall v :: 0 <= v < n && dist[v] != 0.0 ==> done[v]
  {
    forall v | 0 <= v < n && dist[v] != 0.0
      ensures done[v]
    {
      var none: Queue := {};
      assert (dist[v], v) !in none;
    }
  }

  lemma TraceStep(adj: Adjacency, s: nat, prev: seq<Option<nat>>, u: nat, k: nat, w: real)
    requires u < |adj| && k < |adj[u]| && adj[u][k].head < |prev| && prev[adj[u][k].head] == Some(u)
    requires Traced(adj, s, prev, u, w)
    ensures Traced(adj, s, prev, adj[u][k].head, w + GetLength(adj[u][k]))
  {
    var r :| Leads(adj, s, r, u, w) && Follows(adj, prev, r);
    var l := GetLength(adj[u][k]);
    assert w + l - l == w;
    assert Leads(adj, s, Via(r, u, k), adj[u][k].head, w + l) && Follows(adj, prev, Via(r, u, k));
  }

  method RunDijkstra(adj: Adjacency, s: nat, doPath: bool) returns (dist: seq<real>, prev: seq<Option<nat>>)
    requires WellFormed(adj) && s < |adj|
    ensures |dist| == |prev| == |adj|
    ensures forall v :: 0 <= v < |adj| ==>
              if dist[v] == 0.0 then !Reachable(adj, s, v) else IsDistance(adj, s, v, dist[v] - 1.0)
    ensures doPath ==> forall v :: 0 <= v < |adj| ==>
              && (prev[v].Some? <==> dist[v] != 0.0 && v != s)
              && (dist[v] != 0.0 ==> Traced(adj, s, prev, v, dist[v] - 1.0))
    ensures !doPath ==> forall v :: 0 <= v < |adj| ==> prev[v] == None
  {
    var q := new Search(adj, s, doPath);
    q.Run();
    dist, prev := q.dist, q.prev;
    forall v | 0 <= v < |adj|
      ensures if dist[v] == 0.0 then !Reachable(adj, s, v) else IsDistance(adj, s, v, dist[v] - 1.0)
      ensures dist[v] != 0.0 ==> Traced(adj, s, q.link, v, dist[v] - 1.0)
      ensures q.link[v].Some? <==> dist[v] != 0.0 && v != s
    {
      DistancesExact(adj, s, dist, q.link, q.done, q.rank, q.clock, v);
      if dist[v] != 0.0 {
        PrevTraces(adj, s, dist, q.link, q.done, q.rank, q.clock, v);
      }
      hide Queued, Settled, Relaxed, Witnessed;
    }
  }
}
