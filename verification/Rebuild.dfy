// Objects whose keys change while they are in an ordered set: the finger object
// renewed, and a whole set put under a new discipline. The same links go back in.
module Rebuild {
  import opened Links
  import opened SplayTree
  import opened OrderedSet

  // -------------------------------------------------------- the finger object

  // The root out of a sorted tree leaves the others in order.
  lemma WithoutRoot(k: Disc, a: seq<Link>, e: Link, b: seq<Link>)
    requires Sorted(k, a + [e] + b)
    ensures Sorted(k, a + b)
  {
    SortedAround(k, a, e, b);
    Cut(k, a, [e], b, Key(k, e));
    hide Below, Above, At, Sorted;
    DeleteSorted(k, a + [e] + b, Key(k, e));
  }

  // The order is the same under keys that differ for e only.
  lemma SortedSame(k0: Disc, k: Disc, s: seq<Link>, e: Link)
    requires Sorted(k0, s) && SameBut(k0, k, e) && forall i :: 0 <= i < |s| ==> s[i] != e
    ensures Sorted(k, s)
  {
    forall i, j | 0 <= i < j < |s|
      ensures Key(k, s[i]) < Key(k, s[j])
    {
      assert Key(k0, s[i]) == Key(k, s[i]) && Key(k0, s[j]) == Key(k, s[j]);
    }
  }

  // Makes one tree of the two subtrees of e: the left one goes below the least link of
  // the right one.
  method TakeRoot(d: Dt, e: Link, ghost tl: Tree, ghost tr: Tree, ghost all: set<Link>)
    requires Holds(e.left, tl) && Holds(e.right, tr) && Apart(tl) && Apart(tr) && Nodes(tl) !! Nodes(tr)
    requires e in all && e !in Nodes(tl) + Nodes(tr) && Nodes(tl) + Nodes(tr) + {e} == all
    modifies d`here, d`tree, all
    ensures Holds(d.here, d.tree) && Apart(d.tree) && Nodes(d.tree) == all - {e}
    ensures Inorder(d.tree) == Inorder(tl) + Inorder(tr)
  {
    hide Holds, Apart, Nodes;
    var h := new Link();
    h.left, h.right := e.right, e.left;
    EmptySpines(h);
    assert Inorder(tr) + RightOrder([]) == Inorder(tr);
    d.here, d.tree := NoRoot(h, h, tl, [], tr, all - {e});
  }

  // What dtrenew does to the contents c0 of a set whose object e has a new key.
  ghost predicate Renewed(k: Disc, c0: seq<Link>, c: seq<Link>, e: Link) {
    && (forall x :: x in c0 && x != e ==> x in c)
    && (forall x :: x in c ==> x in c0)
    && (e in c <==> forall x :: x in c0 && x != e ==> Key(k, x) != Key(k, e))
  }

  // dtrenew: the keys were k0 when the set was in order; the key of obj has changed
  // since. If obj is the finger, it goes back in under its new key, or is dropped if
  // another object has that.
  method DtRenew(d: Dt, obj: Link, ghost k0: Disc, ghost all: set<Link>) returns (r: Link?)
    requires d.WholeUnder(k0) && SizeOk(d.size, |d.Contents()|) && SameBut(k0, d.disc, obj) && all == Nodes(d.tree)
    modifies d, all
    ensures d.disc == old(d.disc)
    ensures old(d.here) != obj ==> r == null && d.WholeUnder(k0) && d.Contents() == old(d.Contents())
    ensures old(d.here) == obj ==> r == obj && d.Valid() && Renewed(d.disc, old(d.Contents()), d.Contents(), obj)
  {
    hide Holds, Apart, Nodes, Sorted, Below, Above, At, SameBut, Renewed;
    d.flat := false;
    if d.here == null || d.here != obj {
      return null;
    }
    var e: Link := d.here;
    ghost var s := Inorder(d.tree);
    RootOf(e, d.tree);
    OpenNode(e, d.tree);
    ghost var tl, tr := d.tree.left, d.tree.right;
    ghost var rest := Inorder(tl) + Inorder(tr);
    assert s == Inorder(tl) + [e] + Inorder(tr);
    WithoutRoot(k0, Inorder(tl), e, Inorder(tr));
    NotRoot(tl, e, tr);
    SortedSame(k0, d.disc, rest, e);
    TakeRoot(d, e, tl, tr, all);
    d.size := d.size - 1;
    var o := d.Renew(e);
    RenewMeans(d.disc, rest, e);
    RenewedOne(d.disc, s, Inorder(tl), e, Inorder(tr), d.Contents());
    return obj;
  }

  lemma NotRoot(tl: Tree, e: Link, tr: Tree)
    requires e !in Nodes(tl) + Nodes(tr)
    ensures forall i :: 0 <= i < |Inorder(tl) + Inorder(tr)| ==> (Inorder(tl) + Inorder(tr))[i] != e
  {
    InorderNodes(tl);
    InorderNodes(tr);
    hide Nodes;
  }

  // What DT_RENEW of x means for the contents c.
  lemma RenewMeans(k: Disc, c: seq<Link>, x: Link)
    requires Sorted(k, c)
    ensures At(k, c, Key(k, x)) != [] ==> exists y :: y in c && Key(k, y) == Key(k, x)
    ensures At(k, c, Key(k, x)) == [] ==>
              (forall y :: y in c ==> Key(k, y) != Key(k, x))
              && (forall y :: y in Below(k, c, Key(k, x)) + [x] + Above(k, c, Key(k, x)) <==> y in c || y == x)
  {
    CutMembers(k, c, Key(k, x));
    if At(k, c, Key(k, x)) != [] {
      assert At(k, c, Key(k, x))[0] in At(k, c, Key(k, x));
    } else {
      forall y | y in c
        ensures Key(k, y) != Key(k, x)
      {
        assert y !in At(k, c, Key(k, x));
      }
    }
  }

  lemma RenewedOne(k: Disc, s: seq<Link>, a: seq<Link>, e: Link, b: seq<Link>, c: seq<Link>)
    requires s == a + [e] + b && forall i :: 0 <= i < |a + b| ==> (a + b)[i] != e
    requires if At(k, a + b, Key(k, e)) != [] then c == a + b && exists y :: y in a + b && Key(k, y) == Key(k, e)
             else (forall y :: y in a + b ==> Key(k, y) != Key(k, e)) && forall y :: y in c <==> y in a + b || y == e
    ensures Renewed(k, s, c, e)
  {
    hide At;
    forall y
      ensures y in s <==> y in a + b || y == e
    {
    }
    assert e !in a + b;
  }

  lemma {:induction false} InorderNodes(t: Tree)
    ensures forall i :: 0 <= i < |Inorder(t)| ==> Inorder(t)[i] in Nodes(t)
  {
    if t.Node? {
      InorderNodes(t.left);
      InorderNodes(t.right);
    }
  }

  lemma {:induction false} InorderApart(t: Tree)
    requires Apart(t)
    ensures Distinct(Inorder(t))
  {
    if t.Node? {
      InorderApart(t.left);
      InorderApart(t.right);
      InorderNodes(t.left);
      InorderNodes(t.right);
      var a, b := Inorder(t.left), Inorder(t.right);
      var s := a + [t.link] + b;
      forall i, j | 0 <= i < j < |s|
        ensures s[i] != s[j]
      {
        assert s[i] == if i < |a| then a[i] else if i == |a| then t.link else b[i - |a| - 1];
        assert s[j] == if j < |a| then a[j] else if j == |a| then t.link else b[j - |a| - 1];
      }
    }
  }

  // ------------------------------------------------------------ a whole set anew

  // c holds, in order, those of the links xs whose key no earlier one has.
  ghost predicate FirstOnly(k: Disc, c: seq<Link>, xs: seq<Link>) {
    Sorted(k, c) && FirstLinks(k, SetOf(c), xs)
  }

  // One more link put in, or dropped because its key is taken.
  lemma FirstStep(k: Disc, c: seq<Link>, xs: seq<Link>, x: Link, c': seq<Link>, taken: bool)
    requires FirstOnly(k, c, xs) && x !in xs && Sorted(k, c')
    requires taken ==> c' == c && exists y :: y in c && Key(k, y) == Key(k, x)
    requires !taken ==> (forall y :: y in c ==> Key(k, y) != Key(k, x)) && (forall y :: y in c' <==> y in c || y == x)
    ensures FirstOnly(k, c', xs + [x])
  {
    if taken {
      var y :| y in c && Key(k, y) == Key(k, x);
      assert y in SetOf(c);
    } else {
      assert SetOf(c') == SetOf(c) + {x};
    }
    hide FirstLinks;
    LinksStep(k, SetOf(c), xs, x, SetOf(c'));
  }

  // Puts one more link of the list in.
  method Reinsert(d: Dt, x: Link, ghost xs: seq<Link>)
    requires d.Valid() && d.size >= 0 && FirstOnly(d.disc, d.Contents(), xs) && x !in xs && x !in Nodes(d.tree)
    modifies d, Nodes(d.tree), x
    ensures d.Valid() && d.disc == old(d.disc) && d.size >= 0 && FirstOnly(d.disc, d.Contents(), xs + [x])
    ensures Nodes(d.tree) <= old(Nodes(d.tree)) + {x}
  {
    hide Holds, Apart, Nodes, Below, Above, At, FirstOnly, Sorted;
    ghost var k, c := d.disc, d.Contents();
    ghost var taken := At(k, c, Key(k, x)) != [];
    var o := d.Renew(x);
    RenewMeans(k, c, x);
    FirstStep(k, c, xs, x, d.Contents(), taken);
  }

  // The links of a list, by their right fields.
  ghost predicate ListOf(r: Link?, xs: seq<Link>)
    reads xs
  {
    if xs == [] then r == null else r == xs[0] && ListOf(xs[0].right, xs[1..])
  }

  lemma {:induction false} ListFromTree(r: Link?, t: Tree)
    requires Holds(r, t) && IsList(t)
    ensures ListOf(r, Inorder(t))
    decreases t
  {
    if t.Node? {
      ListFromTree(t.link.right, t.right);
      assert Inorder(t) == [t.link] + Inorder(t.right);
    }
  }

  // The loop that puts the links of a list back. Each goes into the tree, which
  // overwrites its right field, so the next one is fetched before.
  method ReinsertAll(d: Dt, list: Link?, hashf: int -> nat, ghost xs: seq<Link>, ghost all: set<Link>)
    requires d.Valid() && d.Contents() == [] && d.size == 0 && Nodes(d.tree) == {}
    requires ListOf(list, xs) && Distinct(xs) && forall i :: 0 <= i < |xs| ==> xs[i] in all
    modifies d, all
    ensures d.Valid() && d.disc == old(d.disc) && d.size >= 0 && FirstOnly(d.disc, d.Contents(), xs)
    ensures Nodes(d.tree) <= all
  {
    hide Holds, Apart, Nodes, FirstOnly, Sorted, ListOf, Distinct;
    var r := list;
    ghost var i, k := 0, d.disc;
    ReinsertStart(d, xs);
    assert xs[0..] == xs;
    while r != null
      invariant i <= |xs| && ListOf(r, xs[i..]) && d.disc == k
      invariant d.Valid() && d.size >= 0 && FirstOnly(k, d.Contents(), xs[..i])
      invariant Nodes(d.tree) <= all && forall j :: i <= j < |xs| ==> xs[j] !in Nodes(d.tree)
      decreases |xs| - i
    {
      ListStep(r, xs, i);
      var t := r.right;
      r.hash := hashf(Key(d.disc, r));
      Reinsert(d, r, xs[..i]);
      i := i + 1;
      r := t;
    }
    ListDone(xs, i);
    assert xs[..i] == xs;
  }

  lemma ReinsertStart(d: Dt, xs: seq<Link>)
    requires d.Contents() == []
    ensures FirstOnly(d.disc, d.Contents(), xs[..0])
  {
  }

  lemma ListStep(r: Link, xs: seq<Link>, i: nat)
    requires i <= |xs| && ListOf(r, xs[i..]) && Distinct(xs)
    ensures i < |xs| && r == xs[i] && ListOf(r.right, xs[i + 1..]) && xs[..i + 1] == xs[..i] + [r]
    ensures r !in xs[..i] && forall j :: i < j < |xs| ==> xs[j] != r
  {
    assert xs[i..][1..] == xs[i + 1..];
  }

  lemma ListDone(xs: seq<Link>, i: nat)
    requires i <= |xs| && ListOf(null, xs[i..])
    ensures i == |xs|
  {
  }

  // dtdisc: the set under a new discipline. Its objects go back in, in the old order;
  // only those whose new key is taken by then are dropped.
  method DtDisc(d: Dt, disc: Disc, hashf: int -> nat, ghost all: set<Link>)
    requires d.Valid() && Nodes(d.tree) == all
    modifies d, all
    ensures d.Valid() && d.disc == disc && FirstOnly(disc, d.Contents(), old(d.Contents()))
    ensures d.size == |d.Contents()| && Nodes(d.tree) <= all
  {
    hide Holds, Apart, Sorted, FirstOnly, ListOf, IsList, Nodes, Inorder, Distinct;
    d.flat := false;
    ghost var s := Inorder(d.tree);
    ListReady(d.tree, s);
    var list := d.Flatten();
    ListFromTree(list, d.tree);
    d.disc := disc;
    d.flat := false;
    d.here := null;
    d.size := 0;
    d.tree := Leaf;
    EmptyValid(d);
    ReinsertAll(d, list, hashf, s, all);
  }

  lemma ListReady(t: Tree, s: seq<Link>)
    requires s == Inorder(t) && Apart(t)
    ensures Distinct(s) && forall i :: 0 <= i < |s| ==> s[i] in Nodes(t)
  {
    InorderNodes(t);
    InorderApart(t);
  }

  lemma EmptyValid(d: Dt)
    requires d.here == null && d.size == 0 && d.tree == Leaf
    ensures d.Valid() && d.Contents() == [] && Nodes(d.tree) == {}
  {
  }

  // When no two keys are the same nothing is dropped.
  lemma NothingDropped(k: Disc, c: seq<Link>, xs: seq<Link>)
    requires FirstOnly(k, c, xs) && forall i, j :: 0 <= i < j < |xs| ==> Key(k, xs[i]) != Key(k, xs[j])
    ensures forall i :: 0 <= i < |xs| ==> xs[i] in c
    ensures forall i :: 0 <= i < |c| ==> c[i] in xs
  {
    forall i | 0 <= i < |xs|
      ensures xs[i] in c
    {
      assert NewKey(k, xs, i);
    }
    assert forall i :: 0 <= i < |c| ==> c[i] in c;
  }
}
