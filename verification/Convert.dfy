// Hash tables whose objects get new keys, or that become ordered sets: the same links
// go over.
module Convert {
  import opened Links
  import opened HashTable
  import opened HashDict
  import HashFlat
  import SplayTree
  import OrderedSet
  import Rebuild

  // ------------------------------------------------- from hash to ordered set

  lemma {:induction false} LinkedList(r: Link?, f: seq<Link>)
    requires HashTable.Linked(r, f)
    ensures Rebuild.ListOf(r, f)
  {
    if f != [] {
      assert f[0].right == HashTable.At(f, 1);
      forall i | 0 <= i < |f[1..]|
        ensures f[1..][i].right == HashTable.At(f[1..], i + 1)
      {
        assert f[i + 1].right == HashTable.At(f, i + 2);
      }
      LinkedList(f[0].right, f[1..]);
    }
  }

  // The set holds exactly the objects links.
  ghost predicate Holding(c: seq<Link>, links: set<Link>) {
    (forall x :: x in links ==> x in c) && forall i :: 0 <= i < |c| ==> c[i] in links
  }

  // dtmethod from the hash method to the ordered one: every object goes over, as the
  // link it is.
  method DtMethod(h: Hash, ghost all: set<Link>) returns (d: OrderedSet.Dt)
    requires h.Valid() && h.links == all
    modifies h, all
    ensures d.Valid() && d.disc == old(h.disc) && d.size == |d.Contents()|
    ensures Holding(d.Contents(), all) && SplayTree.Nodes(d.tree) <= all
  {
    hide HashTable.Linked, Rebuild.FirstOnly, SplayTree.Holds;
    hide SplayTree.Apart, SplayTree.Sorted, Links.Distinct, Holding;
    hide Rebuild.ListOf;
    ghost var links0, content0 := h.links, h.content;
    HashFlat.MapOf(h);
    var list, f := HashFlat.Extract(h);
    ListFacts(h.disc, links0, content0, f);
    LinkedList(list, f);
    d := new OrderedSet.Dt(h.disc);
    Rebuild.EmptyValid(d);
    Rebuild.ReinsertAll(d, list, h.hashf, f, all);
    Rebuild.NothingDropped(d.disc, d.Contents(), f);
    AllOver(all, f, d.Contents());
  }

  // The links of the list have different keys.
  lemma ListFacts(k: Disc, links: set<Link>, content: map<int, Link>, f: seq<Link>)
    requires HashFlat.KeyMap(k, links, content) && SetOf(f) == links && Distinct(f)
    ensures forall i :: 0 <= i < |f| ==> f[i] in links
    ensures forall i, j :: 0 <= i < j < |f| ==> Key(k, f[i]) != Key(k, f[j])
  {
    forall i | 0 <= i < |f|
      ensures f[i] in links
    {
      assert f[i] in SetOf(f);
    }
    forall i, j | 0 <= i < j < |f|
      ensures Key(k, f[i]) != Key(k, f[j])
    {
      assert content[Key(k, f[i])] == f[i] && content[Key(k, f[j])] == f[j];
    }
  }

  lemma AllOver(links: set<Link>, f: seq<Link>, c: seq<Link>)
    requires SetOf(f) == links
    requires (forall i :: 0 <= i < |f| ==> f[i] in c) && forall i :: 0 <= i < |c| ==> c[i] in f
    ensures Holding(c, links)
  {
    forall i | 0 <= i < |c|
      ensures c[i] in links
    {
      assert c[i] in SetOf(f);
    }
    forall x | x in links
      ensures x in c
    {
      assert x in SetOf(f);
    }
  }

  // -------------------------------------------------- from ordered set to hash

  // dtmethod from the ordered method to the hash one: the set becomes a list, but the
  // list goes nowhere. Whatever was in the set, the table is empty, and its size is
  // still what the size of the set was.
  method DtMethodToHash(d: OrderedSet.Dt, hashf: int -> nat) returns (h: Hash)
    requires d.Valid()
    modifies d, SplayTree.Nodes(d.tree)
    ensures h.disc == old(d.disc) && h.Sound() && h.htab == [] && h.links == {} && h.content == map[]
    ensures h.here == null && h.loop == 0 && h.size == old(d.size)
    ensures h.Valid() <==> old(d.size) == 0
    ensures old(d.Contents()) != [] ==> !h.Valid()
  {
    hide OrderedSet.Dt.Valid, SplayTree.Nodes;
    SizeOfSome(d);
    var list := d.Flatten();
    h := EmptyOfSize(d.disc, hashf, d.size);
  }

  lemma SizeOfSome(d: OrderedSet.Dt)
    requires d.Valid()
    ensures d.Contents() != [] ==> d.size != 0
  {
  }

  // A hash table without slots, with any size.
  method EmptyOfSize(disc: Disc, hashf: int -> nat, size: int) returns (h: Hash)
    ensures fresh(h) && h.disc == disc && h.Sound() && h.htab == [] && h.links == {} && h.content == map[]
    ensures h.here == null && h.loop == 0 && h.size == size
    ensures h.Valid() <==> size == 0
  {
    h := new Hash(hashf, disc);
    h.size := size;
  }

  // ------------------------------------------------------ new keys in hash tables

  // The map is the same under keys that differ for x only, when x is not in it.
  lemma KeysSame(k0: Disc, k: Disc, hashf: int -> nat, links: set<Link>, content: map<int, Link>, x: Link)
    requires KeysOk(k0, hashf, links, content) && SameBut(k0, k, x) && x !in links
    ensures KeysOk(k, hashf, links, content)
  {
    forall y | y in links
      ensures Key(k, y) == Key(k0, y)
    {
    }
  }

  // dtrenew for a hash table: the keys were k0 when the table was in order; the key of
  // obj has changed since. If obj is the finger, its slot is found by its old hash
  // value, and it goes back in under the new one, or is dropped if its key is taken.
  method DtRenew(d: Hash, obj: Link, ghost k0: Disc) returns (r: Link?)
    requires d.ValidUnder(k0) && SameBut(k0, d.disc, obj)
    modifies d, d.links`right, d.links`hash
    ensures d.disc == old(d.disc)
    ensures old(d.here) != obj ==> r == null && d.ValidUnder(k0) && d.content == old(d.content)
    ensures old(d.here) == obj ==>
              && r == obj && d.Valid()
              && var rest := Without(old(d.content), Key(k0, obj));
                 d.content == if Key(d.disc, obj) in rest then rest else rest[Key(d.disc, obj) := obj]
  {
    hide Shape, AllFiled, HIndex, TableSize, Flat, KeysOk, PutIn, SameBut, Without;
    if d.here == null || d.here != obj {
      return null;
    }
    var e: Link := d.here;
    Unhook(d, e, k0);
    e.hash := d.hashf(Key(d.disc, e));
    d.here := null;
    d.size := d.size - 1;
    var o := d.Renew(e);
    return obj;
  }

  // Takes the finger object out of its chain, and out of the map under its old key.
  method Unhook(d: Hash, e: Link, ghost k0: Disc)
    requires d.ValidUnder(k0) && d.here == e && SameBut(k0, d.disc, e)
    modifies d`htab, d`chains, d`links, d`content, d.links`right
    ensures d.Sound() && d.links == old(d.links) - {e} && KeysOk(d.disc, d.hashf, d.links, d.content)
    ensures d.content == Without(old(d.content), Key(k0, e))
    ensures |d.htab| == old(|d.htab|) && |d.content| == old(|d.content|) - 1
  {
    hide Shape, AllFiled, HIndex, TableSize, Flat, KeysOk, PutIn, SameBut, Without;
    ghost var links0 := d.links;
    d.SameLength();
    ghost var s', i := Place(d, e, k0);
    var s := HIndex(|d.htab|, e.hash);
    var p := d.Before(s, null, e, i);
    d.CutOut(s, p, e, i);
    KeysRemove(k0, d.hashf, d.links, d.content, e);
    d.links := d.links - {e};
    d.content := Without(d.content, Key(k0, e));
    KeysSame(k0, d.disc, d.hashf, d.links, d.content, e);
  }

  // Where a link of the table is.
  lemma Place(d: Hash, e: Link, k0: Disc) returns (s: nat, i: nat)
    requires d.ValidUnder(k0) && e in d.links
    ensures |d.htab| == |d.chains| > 0 && s == HIndex(|d.htab|, e.hash) < |d.chains|
    ensures i < |d.chains[s]| && d.chains[s][i] == e
  {
    s :| 0 <= s < |d.chains| && e in d.chains[s];
    InItsSlot(d.chains, d.links, s, e);
    i :| 0 <= i < |d.chains[s]| && d.chains[s][i] == e;
  }

  // Puts the next link of the list back, with a new hash value.
  method PutBackOne(d: Hash, x: Link, ghost f: seq<Link>, ghost i: nat)
    requires HashFlat.Restored(d, f, i) && Distinct(f) && i < |f| && f[i] == x
    modifies d, d.links`right, x`right, x`hash
    ensures HashFlat.Restored(d, f, i + 1) && d.disc == old(d.disc) && d.links <= old(d.links) + {x}
  {
    hide Shape, AllFiled, HIndex, TableSize, Flat, Distinct, FirstLinks;
    HashFlat.NotYet(d.disc, d.links, f, i);
    x.hash := d.hashf(Key(d.disc, x));
    HashFlat.PutInNext(d, x, f, i);
  }

  // dtdisc for a hash table: its objects go back in, in table order, with new hash
  // values; only those whose new key is taken by then are dropped.
  method DtDisc(d: Hash, disc: Disc)
    requires d.Valid()
    modifies d, d.links`right, d.links`hash
    ensures d.Valid() && d.disc == disc && FirstLinks(disc, d.links, old(Flat(d.chains)))
  {
    hide HashTable.Linked, Shape, AllFiled, HIndex, TableSize, Flat, KeysOk, Distinct, FirstLinks;
    ghost var links0 := d.links;
    var list, f := HashFlat.Extract(d);
    d.disc := disc;
    EmptyKeys(d);
    HashFlat.NoneYet(disc, f);
    PutBackAll(d, list, f, links0);
    assert f[..|f|] == f;
  }

  // The loop that puts the links of the list back. The next one is fetched before,
  // because the table overwrites the right field.
  method PutBackAll(d: Hash, list: Link?, ghost f: seq<Link>, ghost all: set<Link>)
    requires HashFlat.Restored(d, f, 0) && Linked(list, f) && Distinct(f) && SetOf(f) == all && d.links == {}
    modifies d, all`right, all`hash
    ensures HashFlat.Restored(d, f, |f|) && d.disc == old(d.disc) && d.links <= all
  {
    hide HashTable.Linked, Distinct, FirstLinks, HashFlat.Restored, Hash.Valid;
    ghost var k := d.disc;
    ListIn(f, all);
    var r := list;
    ghost var i := 0;
    assert f[0..] == f;
    while r != null
      invariant i <= |f| && Linked(r, f[i..]) && HashFlat.Restored(d, f, i) && d.disc == k
      invariant d.links <= all
      decreases |f| - i
    {
      HashFlat.ListHead(r, f, i);
      StillApart(d, f, i);
      var t := r.right;
      PutBackOne(d, r, f, i);
      i := i + 1;
      r := t;
    }
    ListDone(f, i);
  }

  lemma StillApart(d: Hash, f: seq<Link>, i: nat)
    requires HashFlat.Restored(d, f, i) && Distinct(f) && i < |f|
    ensures forall j :: i < j < |f| ==> f[j] !in d.links && f[j] != f[i]
  {
    HashFlat.RestApart(d.disc, d.links, f, i);
  }

  lemma EmptyKeys(d: Hash)
    requires d.links == {} && d.content == map[]
    ensures forall k :: KeysOk(k, d.hashf, d.links, d.content)
  {
  }

  lemma ListIn(f: seq<Link>, links: set<Link>)
    requires SetOf(f) == links
    ensures forall i :: 0 <= i < |f| ==> f[i] in links
  {
    forall i | 0 <= i < |f|
      ensures f[i] in links
    {
      assert f[i] in SetOf(f);
    }
  }

  lemma ListDone(f: seq<Link>, i: nat)
    requires i <= |f| && Linked(null, f[i..])
    ensures i == |f|
  {
  }
}
