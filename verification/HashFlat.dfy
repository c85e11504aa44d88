// Hash tables flattened into one list, restored, and taken out as a whole.
module HashFlat {
  import opened Links
  import opened HashTable
  import opened HashDict

  // The links of all chains form one list, and each slot holds the last link of its
  // chain.
  ghost predicate Flattened(list: Link?, htab: seq<Link?>, chains: seq<seq<Link>>, links: set<Link>)
    reads links
  {
    && |htab| == |chains| && Apart(chains) && Within(chains, links)
    && (forall x :: x in Flat(chains) ==> x in links) && (forall x :: x in links ==> InTable(chains, x))
    && Linked(list, Flat(chains))
    && (forall s :: 0 <= s < |chains| ==> htab[s] == Final(chains[s]))
  }

  // Slots before s are flattened into list, which ends at last.
  ghost predicate Flattening(list: Link?, last: Link?, htab: seq<Link?>, chains: seq<seq<Link>>, links: set<Link>,
                             s: nat)
    reads links
  {
    && |htab| == |chains| && Apart(chains) && Within(chains, links) && s <= |chains|
    && (forall x :: x in Flat(chains) ==> x in links)
    && (forall x :: x in Flat(chains[..s]) ==> x in links)
    && Linked(list, Flat(chains[..s])) && last == Final(Flat(chains[..s]))
    && (forall u :: 0 <= u < s ==> htab[u] == Final(chains[u]))
    && (forall u :: s <= u < |chains| ==> Linked(htab[u], chains[u]))
  }

  // Slots from s on are still in list, the ones before are restored.
  ghost predicate Restoring(list: Link?, htab: seq<Link?>, chains: seq<seq<Link>>, links: set<Link>, s: nat)
    reads links
  {
    && |htab| == |chains| && Apart(chains) && Within(chains, links) && s <= |chains|
    && (forall x :: x in Flat(chains[s..]) ==> x in links)
    && Linked(list, Flat(chains[s..]))
    && (forall u :: 0 <= u < s ==> Linked(htab[u], chains[u]))
    && (forall u :: s <= u < |chains| ==> htab[u] == Final(chains[u]))
  }

  lemma FlatStep(chains: seq<seq<Link>>, s: nat)
    requires s < |chains|
    ensures Flat(chains[..s + 1]) == Flat(chains[..s]) + chains[s]
    ensures Flat(chains[s..]) == chains[s] + Flat(chains[s + 1..])
  {
    assert chains[..s + 1] == chains[..s] + [chains[s]];
    FlatSplit(chains[..s], [chains[s]]);
    assert Flat([chains[s]]) == chains[s] + Flat([chains[s]][1..]);
    assert chains[s..][0] == chains[s] && chains[s..][1..] == chains[s + 1..];
  }

  // No link of a chain is among those of the chains before it, or after it.
  lemma FlatApart(chains: seq<seq<Link>>, s: nat)
    requires Apart(chains) && s < |chains|
    ensures forall x :: x in chains[s] ==> x !in Flat(chains[..s]) && x !in Flat(chains[s + 1..])
    ensures forall u, x :: s <= u < |chains| && x in chains[u] ==> x !in Flat(chains[..s])
    ensures forall u, x :: 0 <= u <= s && x in chains[u] ==> x !in Flat(chains[s + 1..])
  {
    FlatMembers(chains[..s]);
    FlatMembers(chains[s + 1..]);
    assert forall u :: 0 <= u < s ==> chains[..s][u] == chains[u];
    var rest := chains[s + 1..];
    assert forall u :: 0 <= u < |rest| ==> rest[u] == chains[s + 1 + u];
  }

  // Hangs a chain to the end of a list.
  lemma LinkedJoin(list: Link?, f: seq<Link>, c: seq<Link>)
    requires c != [] && (f != [] ==> list == f[0])
    requires forall i :: 0 <= i < |f| - 1 ==> f[i].right == f[i + 1]
    requires f != [] ==> f[|f| - 1].right == c[0]
    requires Linked(c[0], c)
    ensures Linked(if f == [] then c[0] else list, f + c)
  {
    var all := f + c;
    forall i | 0 <= i < |all|
      ensures all[i].right == At(all, i + 1)
    {
      if i >= |f| {
        assert c[i - |f|].right == At(c, i - |f| + 1);
      }
    }
  }

  // Hangs chain c, which starts at t, to the list f, and goes to its end.
  method Hang(list: Link?, last: Link?, t: Link, ghost f: seq<Link>, ghost c: seq<Link>)
    returns (list': Link?, last': Link)
    requires Linked(list, f) && last == Final(f) && c != [] && Linked(t, c)
    requires forall x :: x in c ==> x !in f
    modifies (if last == null then {} else {last})`right
    ensures Linked(list', f + c) && last' == Final(c)
  {
    list' := list;
    assert forall i :: 0 <= i < |f| - 1 ==> f[i].right == f[i + 1];
    if last != null {
      assert forall i :: 0 <= i < |f| - 1 ==> f[i].right != null;
      assert last.right == null && last in f;
      last.right := t;
    } else {
      list' := t;
    }
    LinkedJoin(list, f, c);
    assert Linked(t, c);
    hide Linked;
    last' := LastOf(t, c);
  }

  method JoinChain(list: Link?, last: Link?, t: Link, htab: seq<Link?>, s: nat,
                   ghost chains: seq<seq<Link>>, ghost links: set<Link>)
    returns (list': Link?, last': Link)
    requires Flattening(list, last, htab, chains, links, s) && s < |chains| && htab[s] == t
    modifies links`right
    ensures Flattening(list', last', htab[s := last'], chains, links, s + 1)
  {
    hide Flat, Apart, Within, Flattening, Linked;
    ghost var f, c := Flat(chains[..s]), chains[s];
    JoinStart(list, last, t, htab, chains, links, s);
    list', last' := Hang(list, last, t, f, c);
    forall u | s < u < |chains|
      ensures Linked(htab[u], chains[u])
    {
    }
    JoinEnd(list', last', htab, chains, links, s);
  }

  lemma JoinStart(list: Link?, last: Link?, t: Link, htab: seq<Link?>, chains: seq<seq<Link>>, links: set<Link>, s: nat)
    requires Flattening(list, last, htab, chains, links, s) && s < |chains| && htab[s] == t
    ensures Linked(list, Flat(chains[..s])) && last == Final(Flat(chains[..s])) && Linked(t, chains[s])
    ensures chains[s] != [] && chains[s][0] == t
    ensures forall x :: x in chains[s] ==> x !in Flat(chains[..s])
    ensures |htab| == |chains| && forall u :: s < u < |chains| ==> Linked(htab[u], chains[u])
    ensures last != null ==> last in links && forall u :: s < u < |chains| ==> last !in chains[u]
    ensures StepFacts(htab, chains, links, s)
    ensures forall x :: x in Flat(chains[..s]) + chains[s] ==> x in links
    ensures forall u, x :: s < u < |chains| && x in chains[u] ==> x in links
  {
    FlatStep(chains, s);
    FlatApart(chains, s);
    hide Flat, Apart;
    assert last != null ==> last in Flat(chains[..s]);
    assert t == chains[s][0];
    forall x | x in Flat(chains[..s + 1])
      ensures x in links
    {
    }
  }

  // What the joining of slot s does not change.
  ghost predicate StepFacts(htab: seq<Link?>, chains: seq<seq<Link>>, links: set<Link>, s: nat) {
    && |htab| == |chains| && Apart(chains) && Within(chains, links) && s < |chains|
    && (forall x :: x in Flat(chains) ==> x in links)
    && (forall x :: x in Flat(chains[..s + 1]) ==> x in links)
    && (forall u :: 0 <= u < s ==> htab[u] == Final(chains[u]))
  }

  lemma JoinEnd(list: Link?, last: Link, htab: seq<Link?>, chains: seq<seq<Link>>, links: set<Link>, s: nat)
    requires StepFacts(htab, chains, links, s)
    requires Linked(list, Flat(chains[..s]) + chains[s]) && chains[s] != [] && last == Final(chains[s])
    requires forall u :: s < u < |chains| ==> Linked(htab[u], chains[u])
    ensures Flattening(list, last, htab[s := last], chains, links, s + 1)
  {
    FlatStep(chains, s);
    hide Flat, Apart;
  }

  // The last link of the chain that starts at t.
  method LastOf(t: Link, ghost c: seq<Link>) returns (last: Link)
    requires c != [] && c[0] == t && Linked(t, c)
    ensures last == Final(c)
  {
    last := t;
    ghost var i := 0;
    while last.right != null
      invariant i < |c| && last == c[i]
      decreases |c| - i
    {
      i := i + 1;
      last := last.right;
    }
  }

  // dtflatten for a hash table.
  method Flatten(htab0: seq<Link?>, ghost chains: seq<seq<Link>>, ghost links: set<Link>)
    returns (list: Link?, htab: seq<Link?>)
    requires Shape(htab0, chains, links)
    modifies links`right
    ensures Flattened(list, htab, chains, links)
  {
    hide Flattening, Flattened, Shape, Flat, Linked;
    FlattenStart(htab0, chains, links);
    htab := htab0;
    var last: Link?;
    list, last := null, null;
    for s := 0 to |htab0|
      invariant |htab| == |htab0| == |chains| && Flattening(list, last, htab, chains, links, s)
    {
      SlotOf(list, last, htab, chains, links, s);
      if htab[s] != null {
        var t: Link := htab[s];
        list, last := JoinChain(list, last, t, htab, s, chains, links);
        htab := htab[s := last];
      }
    }
    FlattenEnd(list, last, htab, chains, links);
  }

  lemma FlattenStart(htab: seq<Link?>, chains: seq<seq<Link>>, links: set<Link>)
    requires Shape(htab, chains, links)
    ensures |htab| == |chains| && Flattening(null, null, htab, chains, links, 0)
    ensures forall x :: x in links ==> InTable(chains, x)
  {
    FlatMembers(chains);
    forall x | x in Flat(chains)
      ensures x in links
    {
      assert InTable(chains, x);
    }
    assert chains[..0] == [];
  }

  // An empty slot adds nothing.
  lemma SlotOf(list: Link?, last: Link?, htab: seq<Link?>, chains: seq<seq<Link>>, links: set<Link>, s: nat)
    requires Flattening(list, last, htab, chains, links, s) && s < |chains|
    ensures |htab| == |chains| && (htab[s] == null ==> Flattening(list, last, htab, chains, links, s + 1))
  {
    FlatStep(chains, s);
    assert Linked(htab[s], chains[s]);
    hide Flat, Apart;
  }

  lemma FlattenEnd(list: Link?, last: Link?, htab: seq<Link?>, chains: seq<seq<Link>>, links: set<Link>)
    requires Flattening(list, last, htab, chains, links, |chains|)
    requires forall x :: x in links ==> InTable(chains, x)
    ensures Flattened(list, htab, chains, links)
  {
    assert chains[..|chains|] == chains;
  }

  // Cuts the chain of slot s off the front of the list, t is its last link.
  method CutChain(list: Link, t: Link, htab: seq<Link?>, s: nat,
                  ghost chains: seq<seq<Link>>, ghost links: set<Link>)
    returns (list': Link?)
    requires Restoring(list, htab, chains, links, s) && s < |chains| && htab[s] == t
    modifies links`right
    ensures Restoring(list', htab[s := list], chains, links, s + 1)
  {
    ghost var c, rest := chains[s], Flat(chains[s + 1..]);
    FlatStep(chains, s);
    FlatApart(chains, s);
    hide Flat, Apart;
    LinkedParts(list, c, rest);
    assert t == c[|c| - 1] && t in c;
    list' := t.right;
    t.right := null;
    assert Linked(list', rest);
    assert Linked(list, c);
    forall u | 0 <= u < s
      ensures Linked(htab[u], chains[u])
    {
    }
  }

  lemma LinkedParts(list: Link?, c: seq<Link>, rest: seq<Link>)
    requires Linked(list, c + rest) && c != []
    ensures Linked(c[|c| - 1].right, rest) && list == c[0]
    ensures forall i :: 0 <= i < |c| - 1 ==> c[i].right == c[i + 1]
  {
    var all := c + rest;
    assert forall i :: 0 <= i < |c| ==> all[i] == c[i];
    forall i | 0 <= i < |rest|
      ensures rest[i].right == At(rest, i + 1)
    {
      assert all[|c| + i].right == At(all, |c| + i + 1);
    }
    assert all[|c| - 1].right == At(all, |c|);
  }

  // dtrestore of a flattened hash table: gives back the chains as they were.
  method RestoreFlat(list0: Link?, htab0: seq<Link?>, ghost chains: seq<seq<Link>>, ghost links: set<Link>)
    returns (htab: seq<Link?>)
    requires Flattened(list0, htab0, chains, links)
    modifies links`right
    ensures Shape(htab, chains, links)
  {
    hide Restoring, Flattened, Shape, Flat, Linked;
    RestoreStart(list0, htab0, chains, links);
    htab := htab0;
    var list := list0;
    for s := 0 to |htab0|
      invariant |htab| == |htab0| == |chains| && Restoring(list, htab, chains, links, s)
    {
      ListAt(list, htab, chains, links, s);
      if htab[s] != null {
        var t: Link, l: Link := htab[s], list;
        list := CutChain(l, t, htab, s, chains, links);
        htab := htab[s := l];
      }
    }
    RestoreEnd(list, htab, chains, links);
  }

  lemma RestoreStart(list: Link?, htab: seq<Link?>, chains: seq<seq<Link>>, links: set<Link>)
    requires Flattened(list, htab, chains, links)
    ensures |htab| == |chains| && Restoring(list, htab, chains, links, 0)
    ensures forall x :: x in links ==> InTable(chains, x)
  {
    assert chains[0..] == chains;
  }

  lemma ListAt(list: Link?, htab: seq<Link?>, chains: seq<seq<Link>>, links: set<Link>, s: nat)
    requires Restoring(list, htab, chains, links, s) && s < |chains|
    ensures |htab| == |chains|
    ensures if htab[s] == null then Restoring(list, htab, chains, links, s + 1) else list != null
  {
    FlatStep(chains, s);
    hide Flat, Apart;
    if htab[s] == null {
      assert chains[s] + Flat(chains[s + 1..]) == Flat(chains[s + 1..]);
    }
  }

  lemma RestoreEnd(list: Link?, htab: seq<Link?>, chains: seq<seq<Link>>, links: set<Link>)
    requires Restoring(list, htab, chains, links, |chains|)
    requires forall x :: x in links ==> InTable(chains, x)
    ensures Shape(htab, chains, links)
  {
  }

  // Both in turn.
  method FlattenRestore(htab0: seq<Link?>, ghost chains: seq<seq<Link>>, ghost links: set<Link>)
    returns (htab: seq<Link?>)
    requires Shape(htab0, chains, links)
    modifies links`right
    ensures htab == htab0 && forall x :: x in links ==> x.right == old(x.right)
  {
    ghost var h0 := htab0;
    var list, h := Flatten(htab0, chains, links);
    htab := RestoreFlat(list, h, chains, links);
  }

  // ------------------------------------------------------- extract and restore

  // dtextract: hands over all the links as one list and leaves the table empty.
  method Extract(d: Hash) returns (list: Link?, ghost f: seq<Link>)
    requires d.Valid()
    modifies d, d.links`right
    ensures d.Valid() && d.disc == old(d.disc) && d.content == map[] && d.links == {} && d.loop == old(d.loop)
    ensures d.size == 0
    ensures f == old(Flat(d.chains)) && Linked(list, f) && Distinct(f) && SetOf(f) == old(d.links)
  {
    hide Shape, AllFiled, Flat, TableSize, Flattened, Linked;
    f := Flat(d.chains);
    FlatOf(d.htab, d.chains, d.links);
    d.SameLength();
    assert SetOf(f) == d.links;
    var h;
    list, h := Flatten(d.htab, d.chains, d.links);
    FlatList(list, h, d.chains, d.links);
    Clear(d, |h|);
  }

  // Leaves a table of n empty slots.
  method Clear(d: Hash, n: nat)
    requires TableSize(n) && (d.loop > 0 ==> n > 0)
    modifies d
    ensures d.Valid() && d.disc == old(d.disc) && d.content == map[] && d.links == {}
    ensures d.loop == old(d.loop) && d.size == 0
  {
    hide Shape, AllFiled, TableSize;
    d.htab := seq(n, _ => null);
    d.chains := seq(n, _ => []);
    d.links, d.content := {}, map[];
    d.here, d.size := null, 0;
    EmptyTable(d.htab, d.chains);
  }

  lemma FlatList(list: Link?, htab: seq<Link?>, chains: seq<seq<Link>>, links: set<Link>)
    requires Flattened(list, htab, chains, links)
    ensures Linked(list, Flat(chains)) && |htab| == |chains|
  {
  }

  lemma EmptyTable(htab: seq<Link?>, chains: seq<seq<Link>>)
    requires |htab| == |chains| && forall s :: 0 <= s < |htab| ==> htab[s] == null && chains[s] == []
    ensures Shape(htab, chains, {}) && AllFiled(chains, {})
  {
    forall s | 0 <= s < |chains|
      ensures Filed(chains, s, |chains|)
    {
      assert chains[s] == [];
    }
  }

  // The table after the first i links of the list f have been put in.
  ghost predicate Restored(d: Hash, f: seq<Link>, i: nat)
    reads d, d.links
  {
    i <= |f| && d.Valid() && FirstLinks(d.disc, d.links, f[..i])
  }

  // Puts in one more link, unless its key is taken.
  method PutInNext(d: Hash, x: Link, ghost f: seq<Link>, ghost i: nat)
    requires Restored(d, f, i) && Distinct(f) && i < |f| && f[i] == x && x.hash == d.hashf(Key(d.disc, x))
    modifies d, d.links`right, x`right, x`hash
    ensures Restored(d, f, i + 1) && d.disc == old(d.disc) && d.loop == old(d.loop)
    ensures d.links <= old(d.links) + {x} && x.hash == old(x.hash)
  {
    hide Shape, AllFiled, HIndex, TableSize, Flat, PutIn, Distinct, FirstLinks;
    ghost var k, links0, content0 := d.disc, d.links, d.content;
    NotYet(k, links0, f, i);
    var o := d.Renew(x);
    TakenMeans(k, links0, content0, Key(k, x));
    assert f[..i + 1] == f[..i] + [x];
    LinksStep(k, links0, f[..i], x, d.links);
  }

  lemma NotYet(k: Disc, links: set<Link>, f: seq<Link>, i: nat)
    requires i < |f| && FirstLinks(k, links, f[..i]) && Distinct(f)
    ensures f[i] !in links && f[i] !in f[..i]
  {
  }

  lemma TakenMeans(k: Disc, links: set<Link>, content: map<int, Link>, key: int)
    requires KeyMap(k, links, content)
    ensures key in content <==> exists y :: y in links && Key(k, y) == key
  {
    if key in content {
      assert content[key] in links;
    }
  }

  // The rest of the list, with the hash values kept.
  ghost predicate ToRestore(d: Hash, list: Link?, f: seq<Link>, i: nat)
    reads d`disc, f
  {
    && i <= |f| && Distinct(f)
    && Linked(list, f[i..]) && forall j :: 0 <= j < |f| ==> f[j].hash == d.hashf(Key(d.disc, f[j]))
  }

  method RestoreOne(d: Hash, list: Link, ghost f: seq<Link>, ghost i: nat) returns (t: Link?)
    requires Restored(d, f, i) && ToRestore(d, list, f, i)
    modifies d, SetOf(f)`hash, SetOf(f)`right
    ensures i < |f| && Restored(d, f, i + 1) && ToRestore(d, t, f, i + 1) && d.loop == old(d.loop)
    ensures d.disc == old(d.disc)
  {
    hide Shape, AllFiled, Flat, TableSize, KeysOk, PutIn, FirstLinks, Hash.Valid;
    ListHead(list, f, i);
    assert list in SetOf(f);
    t := list.right;
    RestApart(d.disc, d.links, f, i);
    OfPrefix(d.disc, d.links, f, i);
    PutInNext(d, list, f, i);
  }

  lemma OfPrefix(k: Disc, links: set<Link>, f: seq<Link>, i: nat)
    requires i <= |f| && FirstLinks(k, links, f[..i])
    ensures links <= SetOf(f)
  {
  }

  // The links still to come are not in the table, nor is the current one among them.
  lemma RestApart(k: Disc, links: set<Link>, f: seq<Link>, i: nat)
    requires i < |f| && FirstLinks(k, links, f[..i]) && Distinct(f)
    ensures forall j :: i < j < |f| ==> f[j] !in links && f[j] != f[i]
  {
  }

  // dtrestore with a list: puts the links of an extracted list into an empty table.
  // Of links with the same key only the first goes in.
  method Restore(d: Hash, list0: Link, ghost f: seq<Link>) returns (r: int)
    requires d.Valid() && ToRestore(d, list0, f, 0)
    modifies d, SetOf(f)`hash, SetOf(f)`right
    ensures d.Valid() && d.disc == old(d.disc) && d.loop == old(d.loop)
    ensures r == if old(d.size) != 0 then -1 else 0
    ensures r == -1 ==> d.content == old(d.content) && d.chains == old(d.chains)
    ensures r == 0 ==> FirstLinks(d.disc, d.links, f)
  {
    if d.size != 0 {
      return -1;
    }
    hide ToRestore, Shape, AllFiled, Flat, TableSize, KeysOk, FirstLinks;
    NoLinks(d.disc, d.hashf, d.links, d.content);
    d.here := null;
    d.size := 0;
    var list: Link? := list0;
    ghost var i := 0;
    NoneYet(d.disc, f);
    while list != null
      invariant Restored(d, f, i) && ToRestore(d, list, f, i) && d.loop == old(d.loop) && d.disc == old(d.disc)
      decreases |f| - i
    {
      list := RestoreOne(d, list, f, i);
      i := i + 1;
    }
    ListEnd(d, f, i);
    return 0;
  }

  lemma NoneYet(k: Disc, f: seq<Link>)
    ensures FirstLinks(k, {}, f[..0])
  {
  }

  lemma ListHead(list: Link, f: seq<Link>, i: nat)
    requires i <= |f| && Linked(list, f[i..])
    ensures i < |f| && list == f[i] && Linked(list.right, f[i + 1..])
  {
    var c, b := f[i..], f[i + 1..];
    assert c[0].right == At(c, 1);
    forall j | 0 <= j < |b|
      ensures b[j].right == At(b, j + 1)
    {
      assert c[j + 1].right == At(c, j + 2);
    }
  }

  lemma ListEnd(d: Hash, f: seq<Link>, i: nat)
    requires ToRestore(d, null, f, i)
    ensures i == |f| && f[..i] == f
  {
  }

  // links are the values of content, each at its key.
  ghost predicate KeyMap(k: Disc, links: set<Link>, content: map<int, Link>) {
    && (forall x :: x in links ==> Key(k, x) in content && content[Key(k, x)] == x)
    && (forall n :: n in content ==> content[n] in links && Key(k, content[n]) == n)
  }

  lemma MapOf(d: Hash)
    requires d.Valid()
    ensures KeyMap(d.disc, d.links, d.content) && forall x :: x in d.links ==> x.hash == d.hashf(Key(d.disc, x))
  {
  }

  lemma SameMap(k: Disc, links0: set<Link>, content0: map<int, Link>, links1: set<Link>, content1: map<int, Link>)
    requires KeyMap(k, links0, content0) && KeyMap(k, links1, content1)
    requires links1 <= links0 && forall x :: x in links0 ==> Key(k, x) in content1
    ensures content1 == content0 && links1 == links0
  {
    forall n | n in content1
      ensures n in content0 && content0[n] == content1[n]
    {
      assert content1[n] in links0;
    }
    forall n | n in content0
      ensures n in content1
    {
      assert content0[n] in links0;
    }
    forall x | x in links0
      ensures x in links1
    {
      assert content1[Key(k, x)] == x;
    }
  }

  // Extracting and restoring keeps the map.
  method ExtractRestore(d: Hash)
    requires d.Valid()
    modifies d, d.links`hash, d.links`right
    ensures d.Valid() && d.disc == old(d.disc) && d.content == old(d.content) && d.links == old(d.links)
  {
    hide Linked, KeyMap, Flattened, Shape, AllFiled, Flat, KeysOk, TableSize, FirstLinks;
    ghost var links0, content0 := d.links, d.content;
    MapOf(d);
    var list, f := Extract(d);
    if list != null {
      ListReady(d, list, f);
      var r := Restore(d, list, f);
      MapOf(d);
      KeysHeld(d.disc, d.links, d.content, f);
      SameMap(d.disc, links0, content0, d.links, d.content);
    } else {
      MapOf(d);
      NoList(f);
      SameMap(d.disc, links0, content0, d.links, d.content);
    }
  }

  lemma ListReady(d: Hash, list: Link, f: seq<Link>)
    requires Linked(list, f) && Distinct(f) && forall x :: x in SetOf(f) ==> x.hash == d.hashf(Key(d.disc, x))
    ensures ToRestore(d, list, f, 0)
  {
    assert f[0..] == f;
    assert forall j :: 0 <= j < |f| ==> f[j] in SetOf(f);
  }

  lemma NoList(f: seq<Link>)
    requires Linked(null, f)
    ensures SetOf(f) == {}
  {
    assert f == [];
  }

  // Every link of the list is in the table, or another one with its key.
  lemma KeysHeld(k: Disc, links: set<Link>, content: map<int, Link>, f: seq<Link>)
    requires FirstLinks(k, links, f) && KeyMap(k, links, content)
    ensures links <= SetOf(f) && forall x :: x in SetOf(f) ==> Key(k, x) in content
  {
    forall x | x in SetOf(f)
      ensures Key(k, x) in content
    {
      var i :| 0 <= i < |f| && f[i] == x;
      KeyHeld(k, links, f, i);
    }
  }
}
