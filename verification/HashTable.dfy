// The chains of a hash table: links on the heap, hanging from the slots of a table,
// and the table's growth in place.
module HashTable {

  import opened Links

  // ------------------------------------------------------------ table indices

  const HSLOT: nat := 256

  function HResize(n: nat): nat { 2 * n }

  function HLoad(n: nat): nat { 2 * n }

  function BitAnd(a: nat, b: nat): nat
    decreases a
  {
    if a == 0 then 0 else (a % 2) * (b % 2) + 2 * BitAnd(a / 2, b / 2)
  }

  ghost predicate PowerOfTwo(n: nat) {
    n == 1 || (n > 1 && n % 2 == 0 && PowerOfTwo(n / 2))
  }

  // The slot for a hash value: the low bits of it.
  function HIndex(n: nat, h: nat): (s: nat)
    requires n > 0
  {
    BitAnd(n - 1, h)
  }

  // In a larger table an element stays in its slot or goes beyond the old ones.
  lemma {:induction false} IndexGrows(m: nat, n: nat, h: nat)
    requires PowerOfTwo(m) && PowerOfTwo(n) && m <= n
    ensures HIndex(n, h) < n
    ensures HIndex(n, h) == HIndex(m, h) || HIndex(n, h) >= m
    decreases n
  {
    if n > 1 {
      assert (n - 1) / 2 == n / 2 - 1 && (n - 1) % 2 == 1;
      if m > 1 {
        assert (m - 1) / 2 == m / 2 - 1 && (m - 1) % 2 == 1;
        IndexGrows(m / 2, n / 2, h / 2);
      } else {
        IndexGrows(1, n / 2, h / 2);
      }
    }
  }

  // It is the rest of the hash value when divided by the size of the table.
  lemma {:induction false} IndexIsRest(n: nat, h: nat) returns (q: nat)
    requires PowerOfTwo(n)
    ensures h == q * n + HIndex(n, h) && HIndex(n, h) < n
    decreases n
  {
    if n == 1 {
      q := h;
    } else {
      IndexByHalves(n, h);
      hide HIndex, BitAnd;
      q := IndexIsRest(n / 2, h / 2);
      RestByHalves(n / 2, h, q, HIndex(n / 2, h / 2));
    }
  }

  lemma IndexByHalves(n: nat, h: nat)
    requires n > 1 && n % 2 == 0
    ensures HIndex(n, h) == h % 2 + 2 * HIndex(n / 2, h / 2)
  {
    assert (n - 1) / 2 == n / 2 - 1 && (n - 1) % 2 == 1;
  }

  lemma RestByHalves(m: nat, h: nat, q: nat, r: nat)
    requires h / 2 == q * m + r
    ensures h == q * (2 * m) + (h % 2 + 2 * r)
  {
    assert q * (2 * m) == 2 * (q * m);
  }

  // -------------------------------------------------------------------- chains

  ghost function At(c: seq<Link>, i: nat): Link? {
    if i < |c| then c[i] else null
  }

  ghost function Final(c: seq<Link>): Link? {
    if c == [] then null else c[|c| - 1]
  }

  // The right fields lead from x through c to the end.
  ghost predicate Linked(x: Link?, c: seq<Link>)
    reads c
  {
    x == At(c, 0) && forall i :: 0 <= i < |c| ==> c[i].right == At(c, i + 1)
  }

  // No link is in two places.
  ghost predicate Apart(chains: seq<seq<Link>>) {
    && (forall s, i, j :: 0 <= s < |chains| && 0 <= i < j < |chains[s]| ==> chains[s][i] != chains[s][j])
    && (forall s, u, x :: 0 <= s < |chains| && 0 <= u < |chains| && x in chains[s] && x in chains[u] ==> s == u)
  }

  ghost predicate InTable(chains: seq<seq<Link>>, x: Link) {
    exists s :: 0 <= s < |chains| && x in chains[s]
  }

  // Slot s of the table holds chain s; links are the links in the chains.
  ghost predicate Shape(htab: seq<Link?>, chains: seq<seq<Link>>, links: set<Link>)
    reads links
  {
    && |htab| == |chains| && Apart(chains)
    && (forall s, x :: 0 <= s < |chains| && x in chains[s] ==> x in links)
    && (forall x :: x in links ==> InTable(chains, x))
    && (forall s :: 0 <= s < |chains| ==> Linked(htab[s], chains[s]))
  }

  ghost function RemoveAt(c: seq<Link>, i: nat): seq<Link>
    requires i < |c|
  {
    c[..i] + c[i + 1..]
  }

  // Takes link number i out of chain s, p is the one before it.
  method Unlink(htab: seq<Link?>, s: nat, p: Link?, t: Link, ghost chains: seq<seq<Link>>, ghost i: nat,
                ghost links: set<Link>)
    returns (htab': seq<Link?>)
    requires Shape(htab, chains, links) && s < |chains| && i < |chains[s]| && t == chains[s][i]
    requires p == if i == 0 then null else chains[s][i - 1]
    modifies (links - {t})`right
    ensures Shape(htab', chains[s := RemoveAt(chains[s], i)], links - {t}) && |htab'| == |htab|
  {
    ghost var c, chains' := chains[s], chains[s := RemoveAt(chains[s], i)];
    if p == null {
      htab' := htab[s := t.right];
    } else {
      p.right := t.right;
      htab' := htab;
    }
    RemoveApart(chains, s, i, links);
    assert Linked(htab'[s], chains'[s]) by {
      forall j | 0 <= j < |chains'[s]|
        ensures chains'[s][j].right == At(chains'[s], j + 1)
      {
        assert chains'[s][j] == if j < i then c[j] else c[j + 1];
      }
    }
    forall u | 0 <= u < |chains'| && u != s
      ensures Linked(htab'[u], chains'[u])
    {
      assert Linked(htab[u], chains[u]);
    }
  }

  lemma RemoveApart(chains: seq<seq<Link>>, s: nat, i: nat, links: set<Link>)
    requires Apart(chains) && s < |chains| && i < |chains[s]|
    requires forall s, x :: 0 <= s < |chains| && x in chains[s] ==> x in links
    requires forall x :: x in links ==> InTable(chains, x)
    ensures var chains', t := chains[s := RemoveAt(chains[s], i)], chains[s][i];
            && Apart(chains')
            && (forall u, x :: 0 <= u < |chains'| && x in chains'[u] ==> x in links - {t})
            && (forall x :: x in links - {t} ==> InTable(chains', x))
  {
    var c, c' := chains[s], RemoveAt(chains[s], i);
    var chains', t := chains[s := c'], c[i];
    assert forall j :: 0 <= j < |c'| ==> c'[j] == if j < i then c[j] else c[j + 1];
    forall x
      ensures x in c' <==> x in c && x != t
    {
      if x in c && x != t {
        var j :| 0 <= j < |c| && c[j] == x;
        assert c'[if j < i then j else j - 1] == x;
      }
    }
    forall x | x in links - {t}
      ensures InTable(chains', x)
    {
      var u :| 0 <= u < |chains| && x in chains[u];
      assert x in chains'[u];
    }
  }

  // Puts t at the front of chain s.
  method PushFront(htab: seq<Link?>, s: nat, t: Link, ghost chains: seq<seq<Link>>, ghost links: set<Link>)
    returns (htab': seq<Link?>)
    requires Shape(htab, chains, links) && s < |chains| && t !in links
    modifies t`right
    ensures Shape(htab', chains[s := [t] + chains[s]], links + {t}) && |htab'| == |htab|
  {
    t.right := htab[s];
    htab' := htab[s := t];
    ghost var c, chains' := chains[s], chains[s := [t] + chains[s]];
    PushApart(chains, s, t, links);
    assert Linked(htab'[s], chains'[s]) by {
      forall j | 0 <= j < |chains'[s]|
        ensures chains'[s][j].right == At(chains'[s], j + 1)
      {
        if j > 0 {
          assert chains'[s][j] == c[j - 1];
        }
      }
    }
    forall u | 0 <= u < |chains'| && u != s
      ensures Linked(htab'[u], chains'[u])
    {
      assert Linked(htab[u], chains[u]);
    }
  }

  lemma PushApart(chains: seq<seq<Link>>, s: nat, t: Link, links: set<Link>)
    requires Apart(chains) && s < |chains| && t !in links
    requires forall s, x :: 0 <= s < |chains| && x in chains[s] ==> x in links
    requires forall x :: x in links ==> InTable(chains, x)
    ensures var chains' := chains[s := [t] + chains[s]];
            && Apart(chains')
            && (forall u, x :: 0 <= u < |chains'| && x in chains'[u] ==> x in links + {t})
            && (forall x :: x in links + {t} ==> InTable(chains', x))
  {
    var c, c' := chains[s], [t] + chains[s];
    var chains' := chains[s := c'];
    assert forall x :: x in c' <==> x in c || x == t;
    forall x | x in links + {t}
      ensures InTable(chains', x)
    {
      if x == t {
        assert x in chains'[s];
      } else {
        var u :| 0 <= u < |chains| && x in chains[u];
        assert x in chains'[u];
      }
    }
  }

  // ------------------------------------------------------------- growth in place

  ghost predicate TableSize(n: nat) {
    n == 0 || (n >= HSLOT && PowerOfTwo(n))
  }

  // Every link of chain s belongs in slot s of a table of size n.
  ghost predicate Filed(chains: seq<seq<Link>>, s: nat, n: nat)
    reads (if s < |chains| then chains[s] else [])`hash
  {
    n > 0 && s < |chains| && forall x :: x in chains[s] ==> HIndex(n, x.hash) == s
  }

  ghost predicate Within(chains: seq<seq<Link>>, links: set<Link>) {
    forall s, x :: 0 <= s < |chains| && x in chains[s] ==> x in links
  }

  ghost predicate AllFiled(chains: seq<seq<Link>>, links: set<Link>)
    reads links`hash
  {
    Within(chains, links) && forall s :: 0 <= s < |chains| ==> Filed(chains, s, |chains|)
  }

  // A table of olds slots is being rehashed to its full size: slots before hs and the
  // new ones are right, the others are as they were.
  ghost predicate Rehashing(chains: seq<seq<Link>>, links: set<Link>, olds: nat, hs: nat)
    reads links`hash
  {
    && Within(chains, links) && hs <= olds <= |chains|
    && (forall s :: 0 <= s < |chains| && (s < hs || s >= olds) ==> Filed(chains, s, |chains|))
    && (forall s :: hs <= s < olds ==> Filed(chains, s, olds))
  }

  // Of chain hs, the first i links belong there in the larger table as well.
  ghost predicate RehashingChain(chains: seq<seq<Link>>, links: set<Link>, olds: nat, hs: nat, i: nat)
    reads links`hash
  {
    && Rehashing(chains, links, olds, hs)
    && hs < olds && i <= |chains[hs]|
    && (forall j :: 0 <= j < i ==> HIndex(|chains|, chains[hs][j].hash) == hs)
  }

  // The chains when link i of chain hs has moved to the front of chain to.
  ghost function Moved(chains: seq<seq<Link>>, hs: nat, i: nat, to: nat): seq<seq<Link>>
    requires hs < |chains| && i < |chains[hs]| && to < |chains|
  {
    var rest := chains[hs := RemoveAt(chains[hs], i)];
    rest[to := [chains[hs][i]] + rest[to]]
  }

  lemma MoveKeeps(chains: seq<seq<Link>>, links: set<Link>, olds: nat, hs: nat, i: nat, to: nat)
    requires RehashingChain(chains, links, olds, hs, i) && i < |chains[hs]|
    requires olds <= to < |chains| && to == HIndex(|chains|, chains[hs][i].hash)
    ensures RehashingChain(Moved(chains, hs, i, to), links, olds, hs, i)
  {
    var c, c', m := chains[hs], RemoveAt(chains[hs], i), Moved(chains, hs, i, to);
    assert forall j :: 0 <= j < |c'| ==> c'[j] == if j < i then c[j] else c[j + 1];
    forall s, x | 0 <= s < |m| && x in m[s]
      ensures x in chains[s] || (s == to && x == c[i])
    {
    }
    forall s | 0 <= s < |m| && (s < hs || s >= olds)
      ensures Filed(m, s, |m|)
    {
      assert Filed(chains, s, |chains|);
    }
    forall s | hs <= s < olds
      ensures Filed(m, s, olds)
    {
      assert Filed(chains, s, olds);
    }
  }

  method MoveOne(htab0: seq<Link?>, hs: nat, p: Link?, t: Link, to: nat,
                 ghost chains: seq<seq<Link>>, ghost i: nat, ghost links: set<Link>)
    returns (htab: seq<Link?>)
    requires Shape(htab0, chains, links) && hs < |chains| && i < |chains[hs]| && t == chains[hs][i]
    requires to < |chains|
    requires p == if i == 0 then null else chains[hs][i - 1]
    modifies links`right
    ensures Shape(htab, Moved(chains, hs, i, to), links) && |htab| == |htab0|
  {
    hide Linked, InTable, Apart;
    htab := Unlink(htab0, hs, p, t, chains, i, links);
    ghost var c1 := chains[hs := RemoveAt(chains[hs], i)];
    htab := PushFront(htab, to, t, c1, links - {t});
    assert t in links;
    assert links - {t} + {t} == links;
  }

  // The links of c that belong in slot s of a table of size n, in their order.
  ghost function Stays(c: seq<Link>, n: nat, s: nat): seq<Link>
    requires n > 0
    reads c`hash
  {
    if c == [] then []
    else Stays(c[..|c| - 1], n, s) + (if HIndex(n, c[|c| - 1].hash) == s then [c[|c| - 1]] else [])
  }

  // Of the slots, only hs and the ones from olds on have changed, and these only in
  // front.
  ghost predicate OnlyNewSlots(chains0: seq<seq<Link>>, chains: seq<seq<Link>>, olds: nat, hs: nat) {
    && |chains| == |chains0|
    && (forall u :: 0 <= u < |chains| && u < olds && u != hs ==> chains[u] == chains0[u])
    && (forall u :: olds <= u < |chains| ==> EndsWith(chains[u], chains0[u]))
  }

  ghost predicate EndsWith(c: seq<Link>, c0: seq<Link>) {
    |c0| <= |c| && c[|c| - |c0|..] == c0
  }

  // The first q links of the old chain c0 have been looked at; i of them stay.
  ghost predicate LookedAt(c0: seq<Link>, c: seq<Link>, n: nat, hs: nat, q: nat, i: nat)
    reads c0`hash
  {
    n > 0 && q <= |c0| && c == Stays(c0[..q], n, hs) + c0[q..] && i == |Stays(c0[..q], n, hs)|
  }

  lemma LookStep(c0: seq<Link>, c: seq<Link>, n: nat, hs: nat, q: nat, i: nat)
    requires LookedAt(c0, c, n, hs, q, i) && i < |c|
    ensures q < |c0| && c[i] == c0[q]
    ensures HIndex(n, c[i].hash) == hs ==> LookedAt(c0, c, n, hs, q + 1, i + 1)
    ensures HIndex(n, c[i].hash) != hs ==> LookedAt(c0, RemoveAt(c, i), n, hs, q + 1, i)
  {
    assert c0[..q + 1][..q] == c0[..q];
    var a := Stays(c0[..q], n, hs);
    assert c == a + c0[q..] && c0[q..] == [c0[q]] + c0[q + 1..];
    assert Stays(c0[..q + 1], n, hs) == a + (if HIndex(n, c0[q].hash) == hs then [c0[q]] else []);
  }

  lemma LookStart(c0: seq<Link>, n: nat, hs: nat)
    requires n > 0
    ensures LookedAt(c0, c0, n, hs, 0, 0)
  {
    assert c0[..0] == [];
  }

  lemma LookEnd(c0: seq<Link>, c: seq<Link>, n: nat, hs: nat, q: nat, i: nat)
    requires LookedAt(c0, c, n, hs, q, i) && i == |c|
    ensures c == Stays(c0, n, hs)
  {
    assert c0[..q] == c0;
  }

  lemma MovedInFront(chains0: seq<seq<Link>>, chains: seq<seq<Link>>, olds: nat, hs: nat, i: nat, to: nat)
    requires OnlyNewSlots(chains0, chains, olds, hs)
    requires hs < olds <= to < |chains| && i < |chains[hs]|
    ensures OnlyNewSlots(chains0, Moved(chains, hs, i, to), olds, hs)
  {
  }

  // Moves link number i of chain hs, which is rehashed up to there, to its new slot.
  method RehashMove(htab0: seq<Link?>, hs: nat, p: Link?, t: Link, to: nat, ghost i: nat, ghost olds: nat,
                    ghost chains0: seq<seq<Link>>, ghost chains: seq<seq<Link>>, ghost links: set<Link>)
    returns (htab: seq<Link?>, ghost now: seq<seq<Link>>)
    requires Shape(htab0, chains, links) && hs < |chains| && i < |chains[hs]| && t == chains[hs][i]
    requires RehashingChain(chains, links, olds, hs, i) && OnlyNewSlots(chains0, chains, olds, hs)
    requires hs < olds <= to < |chains| && to == HIndex(|chains|, t.hash)
    requires p == if i == 0 then null else chains[hs][i - 1]
    modifies links`right
    ensures Shape(htab, now, links) && |htab| == |htab0| && |now| == |chains|
    ensures RehashingChain(now, links, olds, hs, i) && OnlyNewSlots(chains0, now, olds, hs)
    ensures now[hs] == RemoveAt(chains[hs], i)
  {
    hide Shape, RehashingChain, HIndex, OnlyNewSlots;
    MoveKeeps(chains, links, olds, hs, i, to);
    MovedInFront(chains0, chains, olds, hs, i, to);
    htab := MoveOne(htab0, hs, p, t, to, chains, i, links);
    now := Moved(chains, hs, i, to);
  }

  // Rehashes one chain of the old table: the links that stay keep their order, the
  // others go in front of chains of the new slots.
  method RehashChain(htab0: seq<Link?>, hs: nat, olds: nat, ghost chains0: seq<seq<Link>>, ghost links: set<Link>)
    returns (htab: seq<Link?>, ghost chains: seq<seq<Link>>)
    requires Shape(htab0, chains0, links) && Rehashing(chains0, links, olds, hs) && hs < olds
    requires PowerOfTwo(olds) && PowerOfTwo(|chains0|)
    modifies links`right
    ensures Shape(htab, chains, links) && |chains| == |chains0| && Rehashing(chains, links, olds, hs + 1)
    ensures hs < |chains| && chains[hs] == Stays(chains0[hs], |chains|, hs)
    ensures OnlyNewSlots(chains0, chains, olds, hs)
  {
    hide Shape, Rehashing, RehashingChain, PowerOfTwo, HIndex, LookedAt, OnlyNewSlots, Stays;
    htab, chains := htab0, chains0;
    TableLength(htab, chains, links, olds, hs);
    RehashStarts(chains, links, olds, hs);
    NothingMoved(chains0, olds, hs);
    var n := |htab|;
    var p: Link?, t := null, htab[hs];
    ghost var i, q, c0 := 0, 0, chains0[hs];
    ChainStart(htab, chains, links, hs);
    ChainWithin(htab, chains, links, hs);
    LookStart(c0, n, hs);
    while t != null
      invariant Shape(htab, chains, links) && |htab| == |chains| == n
      invariant RehashingChain(chains, links, olds, hs, i) && i <= |chains[hs]|
      invariant t == At(chains[hs], i)
      invariant p == if i == 0 then null else chains[hs][i - 1]
      invariant LookedAt(c0, chains[hs], n, hs, q, i) && OnlyNewSlots(chains0, chains, olds, hs)
      decreases |chains[hs]| - i
    {
      NextIs(htab, chains, links, hs, i);
      RehashGoesOn(chains, links, olds, hs, i);
      var r := t.right;
      var to := HIndex(n, t.hash);
      IndexGrows(olds, n, t.hash);
      WasFiled(chains, links, olds, hs, i);
      LookStep(c0, chains[hs], n, hs, q, i);
      if to == hs {
        p := t;
        i := i + 1;
      } else {
        htab, chains := RehashMove(htab, hs, p, t, to, i, olds, chains0, chains, links);
        ShapeLength(htab, chains, links);
      }
      q := q + 1;
      t := r;
    }
    ChainEnd(chains, links, olds, hs, i);
    LookEnd(c0, chains[hs], n, hs, q, i);
  }

  lemma ShapeLength(htab: seq<Link?>, chains: seq<seq<Link>>, links: set<Link>)
    requires Shape(htab, chains, links)
    ensures |htab| == |chains|
  {
  }

  lemma RehashStarts(chains: seq<seq<Link>>, links: set<Link>, olds: nat, hs: nat)
    requires Rehashing(chains, links, olds, hs) && hs < olds
    ensures RehashingChain(chains, links, olds, hs, 0)
  {
  }

  // A link that stays has been looked at.
  lemma RehashGoesOn(chains: seq<seq<Link>>, links: set<Link>, olds: nat, hs: nat, i: nat)
    requires RehashingChain(chains, links, olds, hs, i)
    ensures Rehashing(chains, links, olds, hs) && hs < olds <= |chains| && i <= |chains[hs]|
    ensures i < |chains[hs]| && HIndex(|chains|, chains[hs][i].hash) == hs ==>
              RehashingChain(chains, links, olds, hs, i + 1)
  {
  }

  lemma NothingMoved(chains: seq<seq<Link>>, olds: nat, hs: nat)
    ensures OnlyNewSlots(chains, chains, olds, hs)
  {
  }

  lemma ChainWithin(htab: seq<Link?>, chains: seq<seq<Link>>, links: set<Link>, s: nat)
    requires Shape(htab, chains, links) && s < |chains|
    ensures forall i :: 0 <= i < |chains[s]| ==> chains[s][i] in links
  {
  }

  lemma TableLength(htab: seq<Link?>, chains: seq<seq<Link>>, links: set<Link>, olds: nat, hs: nat)
    requires Shape(htab, chains, links) && Rehashing(chains, links, olds, hs)
    ensures |htab| == |chains| && hs <= olds <= |chains|
  {
  }

  lemma ChainStart(htab: seq<Link?>, chains: seq<seq<Link>>, links: set<Link>, s: nat)
    requires Shape(htab, chains, links) && s < |chains|
    ensures s < |htab| && htab[s] == At(chains[s], 0)
  {
    assert Linked(htab[s], chains[s]);
  }

  lemma NextIs(htab: seq<Link?>, chains: seq<seq<Link>>, links: set<Link>, s: nat, i: nat)
    requires Shape(htab, chains, links) && s < |chains| && i < |chains[s]|
    ensures chains[s][i] in links && chains[s][i].right == At(chains[s], i + 1)
  {
    assert Linked(htab[s], chains[s]);
  }

  lemma WasFiled(chains: seq<seq<Link>>, links: set<Link>, olds: nat, hs: nat, i: nat)
    requires Rehashing(chains, links, olds, hs) && hs < olds && i < |chains[hs]|
    ensures HIndex(olds, chains[hs][i].hash) == hs
  {
    assert Filed(chains, hs, olds);
  }

  lemma ChainEnd(chains: seq<seq<Link>>, links: set<Link>, olds: nat, hs: nat, i: nat)
    requires RehashingChain(chains, links, olds, hs, i) && i == |chains[hs]|
    ensures Rehashing(chains, links, olds, hs + 1)
  {
    assert Filed(chains, hs, |chains|);
  }

  // dthtab: grows the table until it has room for size links, and moves the links
  // to their new slots in one pass over the old ones.
  method DtHtab(htab0: seq<Link?>, size: int, ghost chains0: seq<seq<Link>>, ghost links: set<Link>)
    returns (htab: seq<Link?>, ghost chains: seq<seq<Link>>)
    requires Shape(htab0, chains0, links) && TableSize(|htab0|) && AllFiled(chains0, links)
    modifies links`right
    ensures Shape(htab, chains, links) && AllFiled(chains, links)
    ensures TableSize(|htab|) && |htab| >= 256 && |htab| >= |htab0| && size <= 2 * |htab|
    ensures |htab| == |htab0| ==> htab == htab0 && chains == chains0
    ensures |htab| > |htab0| && |htab| > 256 ==> size > |htab|
  {
    hide Shape, Rehashing, AllFiled;
    var n := if |htab0| == 0 then HSLOT else |htab0|;
    PowerBase();
    while size > HLoad(n)
      invariant PowerOfTwo(n) && n >= HSLOT && n >= |htab0|
      invariant n > |htab0| && n > HSLOT ==> size > n
      decreases size - n
    {
      n := HResize(n);
    }
    if n == |htab0| {
      return htab0, chains0;
    }
    hide PowerOfTwo;
    var olds := |htab0|;
    htab, chains := htab0 + seq(n - olds, _ => null), chains0 + seq(n - olds, _ => []);
    GrownShape(htab0, chains0, links, n, htab, chains);
    for hs := 0 to olds
      invariant Shape(htab, chains, links) && |htab| == |chains| == n
      invariant Rehashing(chains, links, olds, hs)
    {
      htab, chains := RehashChain(htab, hs, olds, chains, links);
      TableLength(htab, chains, links, olds, hs + 1);
    }
    AllRehashed(chains, links, olds);
  }

  lemma AllRehashed(chains: seq<seq<Link>>, links: set<Link>, olds: nat)
    requires Rehashing(chains, links, olds, olds)
    ensures AllFiled(chains, links)
  {
  }

  lemma PowerBase()
    ensures PowerOfTwo(HSLOT)
  {
    assert PowerOfTwo(1) && PowerOfTwo(2) && PowerOfTwo(4) && PowerOfTwo(8) && PowerOfTwo(16);
    assert PowerOfTwo(32) && PowerOfTwo(64) && PowerOfTwo(128);
  }

  lemma GrownShape(htab0: seq<Link?>, chains0: seq<seq<Link>>, links: set<Link>, n: nat,
                   htab: seq<Link?>, chains: seq<seq<Link>>)
    requires Shape(htab0, chains0, links) && AllFiled(chains0, links) && n >= |htab0|
    requires htab == htab0 + seq(n - |htab0|, _ => null) && chains == chains0 + seq(n - |htab0|, _ => [])
    ensures Shape(htab, chains, links) && |htab| == |chains| == n
    ensures Rehashing(chains, links, |htab0|, 0)
  {
    assert forall s :: 0 <= s < |htab0| ==> htab[s] == htab0[s] && chains[s] == chains0[s];
    assert forall s :: |htab0| <= s < n ==> htab[s] == null && chains[s] == [];
    forall x | x in links
      ensures InTable(chains, x)
    {
      var s :| 0 <= s < |chains0| && x in chains0[s];
      assert x in chains[s];
    }
    forall s | 0 <= s < |htab0|
      ensures Filed(chains, s, |htab0|)
    {
      assert Filed(chains0, s, |htab0|);
    }
  }
}
