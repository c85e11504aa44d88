// The dictionary object of an ordered set, its operations, and its use as a shared
// header for edge sets.
module OrderedSet {
  import opened Links
  import opened SplayTree

  // ------------------------------------------------------------- the dictionary

  ghost predicate SizeOk(size: int, n: nat) {
    size < 0 || size == n
  }

  // For DT_PREV a root that was found becomes the least link of the RIGHT tree.
  method LeastRight(d: Link, root: Link?, r: Link, ghost tl: Tree, ghost tr0: Tree, ghost c: Tree, ghost all: set<Link>)
    returns (ghost tr: Tree, ghost cc: Tree)
    requires Holds(d.right, tl) && Holds(d.left, tr0) && Apart(tr0) && Holds(r.left, c) && Apart(c)
    requires Nodes(tl) !! Nodes(tr0) && d !in all
    requires if root == null then Nodes(tl) + Nodes(tr0) == all
             else root in all && Nodes(tl) + Nodes(tr0) == all - {root}
    requires Nodes(c) <= Nodes(tr0) && (r == d || r in Nodes(tr0))
    modifies all, d
    ensures Holds(d.right, tl) && Holds(d.left, tr) && Apart(tr)
    ensures Nodes(tl) !! Nodes(tr) && Nodes(tl) + Nodes(tr) == all
    ensures Inorder(tr) == (if root == null then [] else [root]) + Inorder(tr0)
    ensures Holds(r.left, cc) && Apart(cc) && Nodes(cc) <= all
  {
    hide Holds, Apart, Nodes;
    tr, cc := tr0, c;
    if root != null {
      tr := PutRight(d, root, r, tl, tr0, c, all);
      if r == d { cc := tr; }
    }
  }

  // An ordered set: at most one link per key, and a size that is either unknown,
  // which any negative value says, or exact.
  class Dt {
    // The keys of the objects.
    var disc: Disc
    var here: Link?
    var size: int
    var flat: bool
    ghost var tree: Tree

    constructor (disc: Disc)
      ensures this.disc == disc && Valid() && Contents() == [] && size == 0 && !flat && here == null && tree == Leaf
    {
      this.disc := disc;
      here, size, flat, tree := null, 0, false, Leaf;
    }

    ghost predicate Valid()
      reads this, Nodes(tree)
    {
      Whole() && SizeOk(size, |Inorder(tree)|)
    }

    // A search tree, whatever the size is said to be.
    ghost predicate Whole()
      reads this, Nodes(tree)
    {
      WholeUnder(disc)
    }

    ghost predicate WholeUnder(k: Disc)
      reads this, Nodes(tree)
    {
      && Holds(here, tree) && Apart(tree) && Sorted(k, Inorder(tree))
      && (flat ==> IsList(tree))
    }

    // The links in key order.
    ghost function Contents(): seq<Link>
      reads this
    {
      Inorder(tree)
    }

    // DT_SEARCH and DT_MATCH: the link with the key comes to the root.
    method Search(key: int) returns (o: Link?)
      requires Valid()
      modifies this, Nodes(tree)
      ensures Valid() && disc == old(disc) && Contents() == old(Contents()) && Nodes(tree) == old(Nodes(tree))
      ensures size == old(size)
      ensures At(disc, Contents(), key) == (if o == null then [] else [o])
      ensures o != null ==> here == o
    {
      hide IsList, Holds, Apart, Nodes, SpineNodes, HoldsRight, SpineApart, RightOrder, Sorted, Below, Above, At;
      flat := false;
      ghost var all, s := Nodes(tree), Inorder(tree);
      var d, r;
      ghost var tl, rs, c;
      d, r, o, tl, rs, c := Isolate(disc, key, here, tree, all);
      if o != null {
        JoinRight(d, rs, c);
        tree := HasRoot(d, o, tl, BuildRight(rs, c));
        here := o;
        assert Inorder(tree) == s;
      } else {
        here, tree := NoRoot(d, r, tl, rs, c, all);
        assert Inorder(tree) == s;
      }
    }

    // The part of DT_INSERT and DT_RENEW that they have in common: x becomes the root
    // unless its key is taken, and then the link that has it does.
    method Enter(x: Link) returns (o: Link, isNew: bool)
      requires Whole()
      modifies this`flat, this`here, this`tree, Nodes(tree), x
      ensures Whole() && here == o && Nodes(tree) == old(Nodes(tree)) + {o}
      ensures isNew <==> At(disc, old(Contents()), Key(disc, x)) == []
      ensures !isNew ==> At(disc, old(Contents()), Key(disc, x)) == [o]
      ensures !isNew ==> Contents() == old(Contents()) && Nodes(tree) == old(Nodes(tree))
      ensures isNew ==> o == x && |Contents()| == |old(Contents())| + 1
      ensures isNew ==>
                Contents() == Below(disc, old(Contents()), Key(disc, x)) + [x]
                              + Above(disc, old(Contents()), Key(disc, x))
    {
      hide IsList, Holds, Apart, Nodes, SpineNodes, HoldsRight;
      hide SpineApart, RightOrder, Sorted, Below, Above, At;
      flat := false;
      ghost var all, s := Nodes(tree), Inorder(tree);
      var d, r, root;
      ghost var tl, rs, c;
      KeyOfNode(disc, tree, x);
      d, r, root, tl, rs, c := Isolate(disc, Key(disc, x), here, tree, all);
      JoinRight(d, rs, c);
      isNew := root == null;
      o := if root != null then root else x;
      tree := HasRoot(d, o, tl, BuildRight(rs, c));
      if isNew {
        assert Inorder(tree) == Below(disc, s, Key(disc, x)) + [x] + Above(disc, s, Key(disc, x));
        InsertSorted(disc, s, x);
      } else {
        assert Inorder(tree) == s;
      }
      here := o;
    }

    // DT_INSERT: puts x in unless its key is taken; returns the link that has it.
    method Insert(x: Link) returns (o: Link)
      requires Valid()
      modifies this, Nodes(tree), x
      ensures Valid() && disc == old(disc)
      ensures At(disc, old(Contents()), Key(disc, x)) != [] ==>
                At(disc, old(Contents()), Key(disc, x)) == [o] && Contents() == old(Contents()) && size == old(size)
      ensures At(disc, old(Contents()), Key(disc, x)) == [] ==>
                && o == x
                && Contents() == Below(disc, old(Contents()), Key(disc, x)) + [x]
                                 + Above(disc, old(Contents()), Key(disc, x))
                && size == (if old(size) >= 0 then old(size) + 1 else old(size))
      ensures here == o && Nodes(tree) == old(Nodes(tree)) + {o}
    {
      hide IsList, Holds, Apart, Nodes, Sorted, Below, Above, At;
      var isNew;
      o, isNew := Enter(x);
      if isNew && size >= 0 {
        size := size + 1;
      }
    }

    // DT_RENEW: as DT_INSERT, but the size is counted up even when it is not known: it
    // is wrong afterwards exactly if it was -1 and the link went in.
    method Renew(x: Link) returns (o: Link)
      requires Valid()
      modifies this, Nodes(tree), x
      ensures Whole() && disc == old(disc)
      ensures SizeOk(size, |Contents()|) <==> old(size) != -1 || At(disc, old(Contents()), Key(disc, x)) != []
      ensures At(disc, old(Contents()), Key(disc, x)) != [] ==>
                && At(disc, old(Contents()), Key(disc, x)) == [o]
                && Contents() == old(Contents()) && size == old(size) && Nodes(tree) == old(Nodes(tree))
      ensures At(disc, old(Contents()), Key(disc, x)) == [] ==>
                && o == x && size == old(size) + 1
                && Contents() == Below(disc, old(Contents()), Key(disc, x)) + [x]
                                 + Above(disc, old(Contents()), Key(disc, x))
      ensures here == o && Nodes(tree) == old(Nodes(tree)) + {o}
    {
      hide IsList, Holds, Apart, Nodes, Sorted, Below, Above, At;
      var isNew;
      o, isNew := Enter(x);
      if isNew {
        size := size + 1;
      }
    }

    // DT_DELETE, and DT_DETACH when detach holds: takes out the link with obj's
    // key. A deleted link is returned, a detached one is not.
    method Delete(obj: Link, detach: bool) returns (o: Link?)
      requires Valid()
      modifies this, Nodes(tree)
      ensures Valid() && disc == old(disc) && Nodes(tree) <= old(Nodes(tree))
      ensures Contents() == Below(disc, old(Contents()), Key(disc, obj)) + Above(disc, old(Contents()), Key(disc, obj))
      ensures At(disc, old(Contents()), Key(disc, obj)) == [] ==> o == null && size == old(size)
      ensures At(disc, old(Contents()), Key(disc, obj)) != [] ==>
                && (if detach then o == null else [o] == At(disc, old(Contents()), Key(disc, obj)))
                && size == (if old(size) > 0 then old(size) - 1 else old(size) - 2)
    {
      hide IsList, Holds, Apart, Nodes, SpineNodes, HoldsRight, SpineApart, RightOrder, Sorted, Below, Above, At;
      flat := false;
      ghost var all, s := Nodes(tree), Inorder(tree);
      var d, r, root;
      ghost var tl, rs, c;
      d, r, root, tl, rs, c := Isolate(disc, Key(disc, obj), here, tree, all);
      o := null;
      if root != null {
        if !detach {
          o := root;
        }
        size := size - 1;
        if size < 0 {
          size := size - 1;
        }
        all := all - {root};
      }
      DeleteSorted(disc, s, Key(disc, obj));
      here, tree := NoRoot(d, r, tl, rs, c, all);
    }

    // DT_NEXT: the link with the least key above obj's, whether obj is there or not.
    method Next(obj: Link) returns (o: Link?)
      requires Valid()
      modifies this, Nodes(tree)
      ensures Valid() && disc == old(disc) && Contents() == old(Contents()) && Nodes(tree) == old(Nodes(tree))
      ensures size == old(size)
      ensures o == First(Above(disc, Contents(), Key(disc, obj))) && (o != null ==> here == o)
    {
      hide IsList, Holds, Apart, Nodes, SpineNodes, HoldsRight;
      hide SpineApart, RightOrder, Sorted, Below, Above, At, BuildRight;
      flat := false;
      ghost var all, s, key := Nodes(tree), Inorder(tree), Key(disc, obj);
      var d, r, root;
      ghost var tl, rs, c;
      d, r, root, tl, rs, c := Isolate(disc, Key(disc, obj), here, tree, all);
      JoinRight(d, rs, c);
      BuildRightLeaf(rs, c);
      ghost var tr := BuildRight(rs, c);
      if root != null {
        tl := PutLeft(d, root, tl, tr);
      }
      assert Inorder(tl) == Below(disc, s, key) + At(disc, s, key);
      assert s == Inorder(tl) + Inorder(tr);
      RootOf(d.left, tr);
      if d.left != null {
        o, tree := TakeNext(d, tl, tr, all);
        here := o;
      } else {
        o := null;
        EmptySpines(d);
        LeafFacts();
        here, tree := NoRoot(d, d, tl, [], Leaf, all);
      }
    }

    // DT_PREV: the link with the greatest key below obj's.
    method Prev(obj: Link) returns (o: Link?)
      requires Valid()
      modifies this, Nodes(tree)
      ensures Valid() && disc == old(disc) && Contents() == old(Contents()) && Nodes(tree) == old(Nodes(tree))
      ensures size == old(size)
      ensures o == Last(Below(disc, Contents(), Key(disc, obj))) && (o != null ==> here == o)
    {
      hide IsList, Holds, Apart, Nodes, SpineNodes, HoldsRight;
      hide SpineApart, RightOrder, Sorted, Below, Above, At, BuildRight;
      flat := false;
      ghost var all, s, key := Nodes(tree), Inorder(tree), Key(disc, obj);
      var d, r, root;
      ghost var tl, rs, c;
      d, r, root, tl, rs, c := Isolate(disc, Key(disc, obj), here, tree, all);
      JoinRight(d, rs, c);
      ghost var tr := BuildRight(rs, c);
      ghost var cc := c;
      EndIn(d, rs);
      tr, cc := LeastRight(d, root, r, tl, tr, c, all);
      if root == null {
        assert At(disc, s, key) == [] && Inorder(tr) == At(disc, s, key) + Above(disc, s, key);
      } else {
        assert Inorder(tr) == At(disc, s, key) + Above(disc, s, key);
      }
      assert s == Inorder(tl) + Inorder(tr);
      o, here, tree := FinishPrev(d, r, tl, tr, cc, all);
    }

    // DT_FIRST and DT_LAST.
    method FirstLink() returns (o: Link?)
      requires Valid()
      modifies this, Nodes(tree)
      ensures Valid() && disc == old(disc) && Contents() == old(Contents()) && Nodes(tree) == old(Nodes(tree))
      ensures size == old(size)
      ensures o == First(Contents()) && (o != null ==> here == o)
    {
      hide Holds, Apart, Nodes, Sorted;
      flat := false;
      RootOf(here, tree);
      if here == null {
        return null;
      }
      o, tree := MinToRoot(here, tree);
      here := o;
    }

    method LastLink() returns (o: Link?)
      requires Valid()
      modifies this, Nodes(tree)
      ensures Valid() && disc == old(disc) && Contents() == old(Contents()) && Nodes(tree) == old(Nodes(tree))
      ensures size == old(size)
      ensures o == Last(Contents()) && (o != null ==> here == o)
    {
      hide Holds, Apart, Nodes, Sorted;
      flat := false;
      RootOf(here, tree);
      if here == null {
        return null;
      }
      o, tree := MaxToRoot(here, tree);
      here := o;
    }

    // dtflatten: rotates every left child away, so that the right fields form a
    // list of the links in order.
    method Flatten() returns (list: Link?)
      requires Valid()
      modifies this, Nodes(tree)
      ensures Valid() && disc == old(disc) && Contents() == old(Contents()) && Nodes(tree) == old(Nodes(tree))
      ensures size == old(size)
      ensures list == here && flat && IsList(tree)
    {
      if flat {
        return here;
      }
      hide Holds, Apart, Nodes, Sorted;
      RootOf(here, tree);
      LeafIsList();
      list := null;
      if here != null {
        list, tree := FlattenTree(here, tree, Nodes(tree));
      }
      here := list;
      flat := true;
    }

    // dtrestore: with no list, undoes a flattening; with a list, fills an empty
    // dictionary with an extracted tree, whose size is not known then.
    method Restore(list: Link?, ghost t: Tree) returns (r: int)
      requires Valid()
      requires Holds(list, t) && Apart(t) && Sorted(disc, Inorder(t))
      modifies this
      ensures Valid() && disc == old(disc)
      ensures list == null && old(flat) ==>
                r == 0 && here == old(here) && tree == old(tree) && size == old(size) && !flat
      ensures list != null && old(size) == 0 ==> r == 0 && here == list && tree == t && size == -1 && !flat
      ensures (if list == null then !old(flat) else old(size) != 0) ==>
                r == -1 && here == old(here) && tree == old(tree) && size == old(size) && flat == old(flat)
    {
      var ty := flat;
      var l := list;
      if l == null {
        if !ty { return -1; }
        l := here;
      } else {
        if size != 0 { return -1; }
        ty := false;
        tree := t;
      }
      flat := false;
      here := l;
      if !ty {
        size := size - 1;
      }
      return 0;
    }

    // dtextract: hands the tree over and leaves the dictionary empty.
    method Extract() returns (list: Link?, ghost t: Tree)
      requires Valid()
      modifies this
      ensures Valid() && disc == old(disc) && Contents() == [] && here == null && size == 0 && !flat
      ensures list == old(here) && t == old(tree)
    {
      list, t := here, tree;
      flat, size, here, tree := false, 0, null, Leaf;
    }

    // dtsize: counts the links when the size is not known.
    method DtSize() returns (n: int)
      requires Valid()
      modifies this`size, this`flat
      ensures Valid() && n == size == |Contents()| && !flat
    {
      flat := false;
      if size < 0 {
        size := TreeCount(here, tree);
      }
      return size;
    }
  }

  // A link of the tree has its key in it.
  lemma KeyOfNode(k: Disc, t: Tree, x: Link)
    ensures x in Nodes(t) ==> At(k, Inorder(t), Key(k, x)) != []
  {
    if x in Nodes(t) {
      NodeInOrder(t, x);
      CutMembers(k, Inorder(t), Key(k, x));
      assert x in At(k, Inorder(t), Key(k, x));
    }
  }

  lemma {:induction false} NodeInOrder(t: Tree, x: Link)
    requires x in Nodes(t)
    ensures x in Inorder(t)
  {
    if x in Nodes(t.left) {
      NodeInOrder(t.left, x);
    } else if x in Nodes(t.right) {
      NodeInOrder(t.right, x);
    }
  }

  lemma {:induction false} CutBounds(k: Disc, s: seq<Link>, key: int)
    ensures forall i :: 0 <= i < |Below(k, s, key)| ==> Key(k, Below(k, s, key)[i]) < key
    ensures forall i :: 0 <= i < |Above(k, s, key)| ==> key < Key(k, Above(k, s, key)[i])
  {
    if s != [] {
      CutBounds(k, s[1..], key);
    }
  }

  lemma InsertSorted(k: Disc, s: seq<Link>, x: Link)
    requires Sorted(k, s) && At(k, s, Key(k, x)) == []
    requires s == Below(k, s, Key(k, x)) + At(k, s, Key(k, x)) + Above(k, s, Key(k, x))
    ensures Sorted(k, Below(k, s, Key(k, x)) + [x] + Above(k, s, Key(k, x)))
    ensures |Below(k, s, Key(k, x)) + [x] + Above(k, s, Key(k, x))| == |s| + 1
  {
    CutBounds(k, s, Key(k, x));
    hide Below, Above, At, Sorted;
    assert s == Below(k, s, Key(k, x)) + Above(k, s, Key(k, x));
    SortedInsert(k, Below(k, s, Key(k, x)), x, Above(k, s, Key(k, x)));
  }

  lemma SortedInsert(k: Disc, a: seq<Link>, x: Link, b: seq<Link>)
    requires Sorted(k, a + b)
    requires forall i :: 0 <= i < |a| ==> Key(k, a[i]) < Key(k, x)
    requires forall i :: 0 <= i < |b| ==> Key(k, x) < Key(k, b[i])
    ensures Sorted(k, a + [x] + b)
  {
    var s, s' := a + b, a + [x] + b;
    forall i, j | 0 <= i < j < |s'|
      ensures Key(k, s'[i]) < Key(k, s'[j])
    {
      if j < |a| {
        assert s[i] == s'[i] && s[j] == s'[j];
      } else if j == |a| {
        assert s'[i] == a[i];
      } else {
        assert s'[j] == b[j - |a| - 1] && s'[j] == s[j - 1];
        if i < |a| {
          assert s[i] == s'[i];
        } else if i > |a| {
          assert s[i - 1] == s'[i];
        }
      }
    }
  }

  lemma DeleteSorted(k: Disc, s: seq<Link>, key: int)
    requires Sorted(k, s) && s == Below(k, s, key) + At(k, s, key) + Above(k, s, key)
    ensures Sorted(k, Below(k, s, key) + Above(k, s, key))
    ensures |Below(k, s, key) + Above(k, s, key)| == |s| - |At(k, s, key)|
  {
    hide Below, Above, At;
    var a, m, b := Below(k, s, key), At(k, s, key), Above(k, s, key);
    var s' := a + b;
    forall i, j | 0 <= i < j < |s'|
      ensures Key(k, s'[i]) < Key(k, s'[j])
    {
      var i' := if i < |a| then i else i + |m|;
      var j' := if j < |a| then j else j + |m|;
      assert s'[i] == s[i'] && s'[j] == s[j'];
    }
  }

  // The number of links below e.
  function TreeCount(e: Link?, ghost t: Tree): (n: nat)
    requires Holds(e, t)
    reads Nodes(t)
    ensures n == |Inorder(t)|
    decreases t
  {
    if e == null then 0 else TreeCount(e.left, t.left) + TreeCount(e.right, t.right) + 1
  }

  // No link has a left child: the right fields form a list.
  ghost predicate IsList(t: Tree) {
    t.Node? ==> t.left == Leaf && IsList(t.right)
  }

  ghost function Elements(pre: seq<Link>): set<Link> {
    if pre == [] then {} else Elements(pre[..|pre| - 1]) + {pre[|pre| - 1]}
  }

  // The links pre, from list on, are a list already; the right field of the last
  // one is not fixed yet.
  ghost predicate Listed(list: Link, pre: seq<Link>)
    reads Elements(pre)
    decreases |pre|
  {
    pre != [] &&
      var last, up := pre[|pre| - 1], pre[..|pre| - 1];
      && last.left == null && last !in Elements(up)
      && if up == [] then last == list else Listed(list, up) && up[|up| - 1].right == last
  }

  ghost function ListThen(pre: seq<Link>, t: Tree): Tree {
    if pre == [] then t else ListThen(pre[..|pre| - 1], Node(Leaf, pre[|pre| - 1], t))
  }

  // Extends the list by the root x of a tree without left subtree.
  method Append(list: Link, ghost pre: seq<Link>, last: Link, x: Link, ghost u: Tree, ghost all: set<Link>)
    requires Listed(list, pre) && last == pre[|pre| - 1]
    requires Holds(x, u) && Apart(u) && u.Node? && u.left == Leaf && u.link == x
    requires Elements(pre) !! Nodes(u) && Elements(pre) + Nodes(u) == all
    modifies last`right
    ensures Listed(list, pre + [x]) && Elements(pre + [x]) == Elements(pre) + {x}
    ensures Holds(x.right, u.right) && Apart(u.right) && x !in Nodes(u.right)
    ensures Nodes(u) == {x} + Nodes(u.right) && Inorder(u) == [x] + Inorder(u.right)
  {
    hide Holds, Apart, Nodes;
    OpenNode(x, u);
    LeafFacts();
    RootOf(x.left, u.left);
    ghost var up := pre[..|pre| - 1];
    assert pre == up + [last];
    last.right := x;
    assert Listed(list, pre);
    assert (pre + [x])[..|pre|] == pre;
  }

  // The loop of dtflatten for a tree.
  method FlattenTree(r0: Link, ghost t0: Tree, ghost all: set<Link>) returns (list: Link, ghost t: Tree)
    requires Holds(r0, t0) && Apart(t0) && t0.Node? && Nodes(t0) == all
    modifies all
    ensures Holds(list, t) && Apart(t) && Nodes(t) == all
    ensures Inorder(t) == Inorder(t0) && IsList(t)
  {
    hide Holds, Apart, Nodes, Listed, Elements, IsList;
    ghost var u;
    list, u := MinToRoot(r0, t0);
    var r: Link? := list;
    var last: Link := list;
    ghost var pre: seq<Link> := [list];
    ListStart(list, u);
    r, u := list.right, u.right;
    while r != null
      invariant Listed(list, pre) && pre != [] && last == pre[|pre| - 1] && last.right == r
      invariant Holds(r, u) && Apart(u)
      invariant Elements(pre) !! Nodes(u) && Elements(pre) + Nodes(u) == all
      invariant Inorder(t0) == pre + Inorder(u)
      decreases |Inorder(u)|
    {
      RootOf(r, u);
      ghost var v := u;
      r, u := RotateMin(list, pre, r, u, all);
      LastIn(pre);
      Append(list, pre, last, r, u, all);
      last := r;
      assert pre + ([r] + Inorder(u.right)) == (pre + [r]) + Inorder(u.right);
      pre := pre + [r];
      r, u := r.right, u.right;
    }
    RootOf(r, u);
    t := ListThen(pre, Leaf);
    LeafIsList();
    ListIsTree(list, pre, Leaf);
    LeafFacts();
    assert pre + Inorder(Leaf) == pre;
  }

  // MinToRoot on the rest of the tree, beside the list already made.
  method RotateMin(list: Link, ghost pre: seq<Link>, r0: Link, ghost u0: Tree, ghost all: set<Link>)
    returns (r: Link, ghost u: Tree)
    requires Listed(list, pre) && Holds(r0, u0) && Apart(u0) && u0.Node?
    requires Elements(pre) !! Nodes(u0) && Elements(pre) + Nodes(u0) == all
    modifies Nodes(u0)
    ensures Listed(list, pre)
    ensures Holds(r, u) && Apart(u) && u.Node? && u.left == Leaf && u.link == r
    ensures Nodes(u) == Nodes(u0) && Inorder(u) == Inorder(u0)
  {
    hide Holds, Apart, Nodes, Listed, Elements;
    r, u := MinToRoot(r0, u0);
  }

  lemma LastIn(pre: seq<Link>)
    requires pre != []
    ensures pre[|pre| - 1] in Elements(pre)
  {
  }

  lemma LeafIsList()
    ensures IsList(Leaf)
  {
  }

  lemma ListStart(x: Link, u: Tree)
    requires Holds(x, u) && Apart(u) && u.Node? && u.left == Leaf && u.link == x
    ensures Listed(x, [x]) && Elements([x]) == {x}
    ensures Holds(x.right, u.right) && Apart(u.right) && x !in Nodes(u.right)
    ensures Nodes(u) == {x} + Nodes(u.right) && Inorder(u) == [x] + Inorder(u.right)
  {
  }

  // The last link of a list under way.
  lemma LastListed(list: Link, pre: seq<Link>)
    requires Listed(list, pre)
    ensures pre != []
    ensures var last, up := pre[|pre| - 1], pre[..|pre| - 1];
            && pre == up + [last] && last.left == null
            && last !in Elements(up) && Elements(pre) == Elements(up) + {last}
            && if up == [] then last == list else Listed(list, up) && up[|up| - 1].right == last
  {
  }

  // One more link in front of a list.
  lemma OneInFront(x: Link, t: Tree)
    requires x.left == null && Holds(x.right, t) && Apart(t) && IsList(t) && x !in Nodes(t)
    ensures var u := Node(Leaf, x, t);
            && Holds(x, u) && Apart(u) && IsList(u) && Nodes(u) == {x} + Nodes(t) && Inorder(u) == [x] + Inorder(t)
  {
    hide Holds, Apart, Nodes;
    LeafFacts();
    CloseNode(x, Leaf, t);
  }

  lemma ThenStep(pre: seq<Link>, x: Link, t: Tree)
    ensures ListThen(pre + [x], t) == ListThen(pre, Node(Leaf, x, t))
    ensures ListThen([], Node(Leaf, x, t)) == Node(Leaf, x, t) && Elements([]) == {}
  {
    assert (pre + [x])[..|pre|] == pre;
  }

  lemma {:induction false} ListIsTree(list: Link, pre: seq<Link>, t: Tree)
    requires Listed(list, pre) && Holds(pre[|pre| - 1].right, t) && Apart(t) && IsList(t)
    requires Elements(pre) !! Nodes(t)
    ensures var u := ListThen(pre, t);
            && Holds(list, u) && Apart(u) && IsList(u)
            && Nodes(u) == Elements(pre) + Nodes(t) && Inorder(u) == pre + Inorder(t)
    decreases |pre|
  {
    hide Holds, Apart, Nodes, Listed, Elements, ListThen, IsList, Inorder;
    LastListed(list, pre);
    var last, up := pre[|pre| - 1], pre[..|pre| - 1];
    OneInFront(last, t);
    ThenStep(up, last, t);
    if up != [] {
      ListIsTree(list, up, Node(Leaf, last, t));
      assert up + ([last] + Inorder(t)) == pre + Inorder(t);
    }
  }

  // ------------------------------------------------- edge sets of one node

  // The two edge sets of a node, kept as extracted trees.
  class SubRep {
    var outSeq: Link?
    var inSeq: Link?
    ghost var outTree: Tree
    ghost var inTree: Tree
    // All links of both sets.
    ghost var links: set<Link>

    ghost predicate Valid(k: Disc)
      reads this, Nodes(outTree), Nodes(inTree)
    {
      && Nodes(outTree) + Nodes(inTree) <= links
      && Holds(outSeq, outTree) && Apart(outTree) && Sorted(k, Inorder(outTree))
      && Holds(inSeq, inTree) && Apart(inTree) && Sorted(k, Inorder(inTree))
    }
  }

  // cnt: puts a set under the shared header, counts it and takes it out again.
  method Cnt(d: Dt, seqIn: Link?, ghost t: Tree, ghost links: set<Link>) returns (rv: int, seqOut: Link?)
    requires d.Valid() && d.size == 0 && !d.flat && d.here == null
    requires Holds(seqIn, t) && Apart(t) && Sorted(d.disc, Inorder(t)) && Nodes(t) <= links
    modifies d
    ensures Holds(seqOut, t)
    ensures d.Valid() && d.size == 0 && !d.flat && d.here == null && d.disc == old(d.disc)
    ensures rv == |Inorder(t)| && seqOut == seqIn
  {
    var r := d.Restore(seqIn, t);
    RootOf(seqIn, t);
    rv := d.DtSize();
    ghost var u;
    seqOut, u := d.Extract();
  }

  // agdegree: the number of out-edges and in-edges asked for, and both edge sets
  // are left exactly as they were.
  method AgDegree(d: Dt, sn: SubRep?, wantIn: bool, wantOut: bool) returns (rv: int)
    requires d.Valid() && d.size == 0 && !d.flat && d.here == null
    requires sn != null ==> sn.Valid(d.disc)
    modifies d, sn
    ensures d.Valid() && d.size == 0 && !d.flat && d.here == null && d.disc == old(d.disc)
    ensures sn == null ==> rv == 0
    ensures sn != null ==>
              && sn.Valid(d.disc) && sn.outSeq == old(sn.outSeq) && sn.inSeq == old(sn.inSeq)
              && sn.outTree == old(sn.outTree) && sn.inTree == old(sn.inTree)
              && rv == (if wantOut then |Inorder(sn.outTree)| else 0) + (if wantIn then |Inorder(sn.inTree)| else 0)
  {
    hide Sorted, Holds, Apart, Inorder, Nodes, IsList;
    rv := 0;
    if sn != null {
      if wantOut {
        var c, s := Cnt(d, sn.outSeq, sn.outTree, sn.links);
        sn.outSeq := s;
        rv := rv + c;
      }
      if wantIn {
        var c, s := Cnt(d, sn.inSeq, sn.inTree, sn.links);
        sn.inSeq := s;
        rv := rv + c;
      }
    }
  }
}
