// The ordered-set method of the container library: a top-down splay tree whose
// nodes are relinked in place.
module SplayTree {

  import opened Links

  // The shape of a tree of links at one moment.
  datatype Tree = Leaf | Node(left: Tree, link: Link, right: Tree)

  ghost function Nodes(t: Tree): set<Link> {
    match t
    case Leaf => {}
    case Node(l, n, r) => Nodes(l) + {n} + Nodes(r)
  }

  ghost function Inorder(t: Tree): seq<Link> {
    match t
    case Leaf => []
    case Node(l, n, r) => Inorder(l) + [n] + Inorder(r)
  }

  // The heap below x has the shape t.
  ghost predicate Holds(x: Link?, t: Tree)
    reads Nodes(t)
  {
    match t
    case Leaf => x == null
    case Node(l, n, r) => x == n && Holds(n.left, l) && Holds(n.right, r)
  }

  // One step of a spine: a link and the subtree on its outer side.
  datatype Seg = Seg(link: Link, tree: Tree)

  ghost function SpineNodes(s: seq<Seg>): set<Link> {
    if s == [] then {}
    else SpineNodes(s[..|s| - 1]) + {s[|s| - 1].link} + Nodes(s[|s| - 1].tree)
  }

  // The end of a spine: its last link, or the header if it is empty.
  ghost function End(d: Link, s: seq<Seg>): Link {
    if s == [] then d else s[|s| - 1].link
  }

  // The LEFT tree hangs from the header's right field and grows to the right;
  // the right field of its last link is not set yet.
  ghost predicate HoldsLeft(d: Link, s: seq<Seg>)
    reads d`right, SpineNodes(s)
  {
    s != [] ==>
      var n, up := s[|s| - 1], s[..|s| - 1];
      Holds(n.link.left, n.tree) && HoldsLeft(d, up) && LinkedRight(d, up, n.link)
  }

  ghost predicate LinkedRight(d: Link, up: seq<Seg>, x: Link)
    reads d`right, SpineNodes(up)
  {
    if up == [] then d.right == x else up[|up| - 1].link.right == x
  }

  // The RIGHT tree hangs from the header's left field and grows to the left.
  ghost predicate HoldsRight(d: Link, s: seq<Seg>)
    reads d`left, SpineNodes(s)
  {
    s != [] ==>
      var n, up := s[|s| - 1], s[..|s| - 1];
      Holds(n.link.right, n.tree) && HoldsRight(d, up) && LinkedLeft(d, up, n.link)
  }

  ghost predicate LinkedLeft(d: Link, up: seq<Seg>, x: Link)
    reads d`left, SpineNodes(up)
  {
    if up == [] then d.left == x else up[|up| - 1].link.left == x
  }

  // Distinctness, as sets.
  ghost predicate Apart(t: Tree) {
    match t
    case Leaf => true
    case Node(l, n, r) => n !in Nodes(l) && n !in Nodes(r) && Nodes(l) !! Nodes(r) && Apart(l) && Apart(r)
  }

  ghost predicate SpineApart(s: seq<Seg>) {
    s != [] ==>
      var n, up := s[|s| - 1], s[..|s| - 1];
      && n.link !in Nodes(n.tree) && Apart(n.tree)
      && SpineNodes(up) !! Nodes(n.tree) + {n.link}
      && SpineApart(up)
  }

  // The three parts of a splay in progress.
  ghost predicate Parts(d: Link, l: Link, r: Link, root: Link?, ls: seq<Seg>, t: Tree, rs: seq<Seg>)
    reads d, SpineNodes(ls), Nodes(t), SpineNodes(rs)
  {
    && l == End(d, ls) && r == End(d, rs)
    && HoldsLeft(d, ls) && Holds(root, t) && HoldsRight(d, rs)
    && SpineApart(ls) && Apart(t) && SpineApart(rs)
    && d !in SpineNodes(ls) + Nodes(t) + SpineNodes(rs)
    && SpineNodes(ls) !! Nodes(t) !! SpineNodes(rs)
  }

  lemma OpenNode(x: Link?, t: Tree)
    requires Holds(x, t) && Apart(t) && t.Node?
    ensures x == t.link && Holds(t.link.left, t.left) && Holds(t.link.right, t.right)
    ensures Apart(t.left) && Apart(t.right)
    ensures t.link !in Nodes(t.left) && t.link !in Nodes(t.right) && Nodes(t.left) !! Nodes(t.right)
    ensures Nodes(t) == Nodes(t.left) + {t.link} + Nodes(t.right)
  {
  }

  lemma CloseNode(x: Link, l: Tree, r: Tree)
    requires Holds(x.left, l) && Holds(x.right, r)
    requires x !in Nodes(l) && x !in Nodes(r) && Nodes(l) !! Nodes(r) && Apart(l) && Apart(r)
    ensures Holds(x, Node(l, x, r)) && Apart(Node(l, x, r))
    ensures Nodes(Node(l, x, r)) == Nodes(l) + {x} + Nodes(r)
  {
  }

  lemma OpenRight(d: Link, s: seq<Seg>)
    requires s != [] && HoldsRight(d, s) && SpineApart(s)
    ensures var n, up := s[|s| - 1], s[..|s| - 1];
            && Holds(n.link.right, n.tree) && HoldsRight(d, up) && LinkedLeft(d, up, n.link)
            && n.link !in Nodes(n.tree) && n.link !in SpineNodes(up)
            && SpineNodes(s) == SpineNodes(up) + {n.link} + Nodes(n.tree)
  {
  }

  lemma CloseRight(d: Link, up: seq<Seg>, n: Seg)
    requires Holds(n.link.right, n.tree) && HoldsRight(d, up) && LinkedLeft(d, up, n.link)
    ensures HoldsRight(d, up + [n])
    ensures SpineNodes(up + [n]) == SpineNodes(up) + {n.link} + Nodes(n.tree)
  {
    assert (up + [n])[..|up|] == up;
  }

  lemma GrowApart(up: seq<Seg>, n: Seg)
    requires SpineApart(up) && n.link !in Nodes(n.tree) && Apart(n.tree)
    requires SpineNodes(up) !! Nodes(n.tree) + {n.link}
    ensures SpineApart(up + [n])
  {
    assert (up + [n])[..|up|] == up;
  }

  lemma OpenLeft(d: Link, s: seq<Seg>)
    requires s != [] && HoldsLeft(d, s) && SpineApart(s)
    ensures var n, up := s[|s| - 1], s[..|s| - 1];
            && Holds(n.link.left, n.tree) && HoldsLeft(d, up) && LinkedRight(d, up, n.link)
            && n.link !in Nodes(n.tree) && n.link !in SpineNodes(up)
            && SpineNodes(s) == SpineNodes(up) + {n.link} + Nodes(n.tree)
  {
  }

  lemma CloseLeft(d: Link, up: seq<Seg>, n: Seg)
    requires Holds(n.link.left, n.tree) && HoldsLeft(d, up) && LinkedRight(d, up, n.link)
    ensures HoldsLeft(d, up + [n])
    ensures SpineNodes(up + [n]) == SpineNodes(up) + {n.link} + Nodes(n.tree)
  {
    assert (up + [n])[..|up|] == up;
  }

  lemma EmptySpines(d: Link)
    ensures HoldsLeft(d, []) && HoldsRight(d, []) && SpineApart([]) && SpineNodes([]) == {}
  {
  }

  // ------------------------------------------------------------ relinking steps

  // rrotate: the left child y of x takes its place.
  method RRotate(x: Link, ghost t: Tree) returns (y: Link, ghost t': Tree)
    requires Holds(x, t) && Apart(t) && t.Node? && t.left.Node?
    modifies x`left, t.left.link`right
    ensures y == t.left.link && t' == Node(t.left.left, y, Node(t.left.right, x, t.right))
    ensures Holds(y, t') && Apart(t') && Nodes(t') == Nodes(t) && Inorder(t') == Inorder(t)
  {
    hide Holds, Apart, Nodes;
    OpenNode(x, t);
    OpenNode(x.left, t.left);
    y := x.left;
    x.left := y.right;
    y.right := x;
    CloseNode(x, t.left.right, t.right);
    CloseNode(y, t.left.left, Node(t.left.right, x, t.right));
    t' := Node(t.left.left, y, Node(t.left.right, x, t.right));
    assert Inorder(t') == Inorder(t);
  }

  // lrotate: the right child y of x takes its place.
  method LRotate(x: Link, ghost t: Tree) returns (y: Link, ghost t': Tree)
    requires Holds(x, t) && Apart(t) && t.Node? && t.right.Node?
    modifies x`right, t.right.link`left
    ensures y == t.right.link && t' == Node(Node(t.left, x, t.right.left), y, t.right.right)
    ensures Holds(y, t') && Apart(t') && Nodes(t') == Nodes(t) && Inorder(t') == Inorder(t)
  {
    hide Holds, Apart, Nodes;
    OpenNode(x, t);
    OpenNode(x.right, t.right);
    y := x.right;
    x.right := y.left;
    y.left := x;
    CloseNode(x, t.left, t.right.left);
    CloseNode(y, Node(t.left, x, t.right.left), t.right.right);
    t' := Node(Node(t.left, x, t.right.left), y, t.right.right);
    assert Inorder(t') == Inorder(t);
  }

  // Hangs y, with subtree c, below the end of the RIGHT spine.
  method HangRight(d: Link, r: Link, y: Link?, ghost ls: seq<Seg>, ghost rs: seq<Seg>, ghost c: Tree)
    requires HoldsLeft(d, ls) && HoldsRight(d, rs) && SpineApart(rs) && Holds(y, c) && r == End(d, rs)
    requires d !in SpineNodes(ls) + SpineNodes(rs) + Nodes(c) && SpineNodes(ls) !! SpineNodes(rs) !! Nodes(c)
    modifies r`left
    ensures HoldsLeft(d, ls) && HoldsRight(d, rs) && Holds(r.left, c) && r.left == y
  {
    hide Holds, Apart, SpineApart, HoldsLeft, HoldsRight, Nodes, SpineNodes;
    EndIn(d, rs);
    assert r !in SpineNodes(ls);
    if rs != [] { OpenRight(d, rs); }
    r.left := y;
    if rs != [] {
      assert rs == rs[..|rs| - 1] + [rs[|rs| - 1]];
      CloseRight(d, rs[..|rs| - 1], rs[|rs| - 1]);
    } else {
      EmptySpines(d);
    }
  }

  // The parts once the root hangs from the RIGHT spine.
  lemma RLinked(d: Link, l: Link, root: Link, ls: seq<Seg>, t: Tree, rs: seq<Seg>)
    requires l == End(d, ls) && HoldsLeft(d, ls) && HoldsRight(d, rs) && Holds(root, t) && End(d, rs).left == root
    requires SpineApart(ls) && Apart(t) && SpineApart(rs) && t.Node?
    requires d !in SpineNodes(ls) + Nodes(t) + SpineNodes(rs) && SpineNodes(ls) !! Nodes(t) !! SpineNodes(rs)
    ensures var rs' := rs + [Seg(root, t.right)];
            && Parts(d, l, root, root.left, ls, t.left, rs')
            && SpineNodes(ls) + Nodes(t.left) + SpineNodes(rs') == SpineNodes(ls) + Nodes(t) + SpineNodes(rs)
  {
    hide Holds, Apart, SpineApart, HoldsLeft, HoldsRight, Nodes, SpineNodes, LinkedLeft, LinkedRight;
    OpenNode(root, t);
    LinkedByLeft(d, rs, root);
    CloseRight(d, rs, Seg(root, t.right));
    GrowApart(rs, Seg(root, t.right));
  }

  // rlink: the root and its right subtree join the RIGHT tree.
  method RLink(d: Link, l: Link, r0: Link, root0: Link, ghost ls: seq<Seg>, ghost t: Tree, ghost rs: seq<Seg>)
    returns (r: Link, root: Link?, ghost rs': seq<Seg>)
    requires Parts(d, l, r0, root0, ls, t, rs) && t.Node?
    modifies r0`left
    ensures rs' == rs + [Seg(root0, t.right)] && r == root0
    ensures Parts(d, l, r, root, ls, t.left, rs')
    ensures SpineNodes(ls) + Nodes(t.left) + SpineNodes(rs') == SpineNodes(ls) + Nodes(t) + SpineNodes(rs)
  {
    hide Holds, Apart, SpineApart, HoldsLeft, HoldsRight, Nodes, SpineNodes;
    HangRight(d, r0, root0, ls, rs, t);
    RLinked(d, l, root0, ls, t, rs);
    r := root0;
    root := root0.left;
    rs' := rs + [Seg(root0, t.right)];
  }

  // Hangs x, with subtree a, below the end of the LEFT spine.
  method HangLeft(d: Link, l: Link, x: Link?, ghost ls: seq<Seg>, ghost a: Tree, ghost rs: seq<Seg>)
    requires HoldsLeft(d, ls) && HoldsRight(d, rs) && SpineApart(ls) && Holds(x, a) && l == End(d, ls)
    requires d !in SpineNodes(ls) + SpineNodes(rs) + Nodes(a) && SpineNodes(ls) !! SpineNodes(rs) !! Nodes(a)
    modifies l`right
    ensures HoldsLeft(d, ls) && HoldsRight(d, rs) && Holds(l.right, a) && l.right == x
  {
    hide Holds, Apart, SpineApart, HoldsLeft, HoldsRight, Nodes, SpineNodes;
    EndIn(d, ls);
    assert l !in SpineNodes(rs);
    if ls != [] { OpenLeft(d, ls); }
    l.right := x;
    if ls != [] {
      assert ls == ls[..|ls| - 1] + [ls[|ls| - 1]];
      CloseLeft(d, ls[..|ls| - 1], ls[|ls| - 1]);
    } else {
      EmptySpines(d);
    }
  }

  // The parts once the root hangs from the LEFT spine.
  lemma LLinked(d: Link, r: Link, root: Link, ls: seq<Seg>, t: Tree, rs: seq<Seg>)
    requires r == End(d, rs) && HoldsLeft(d, ls) && HoldsRight(d, rs) && Holds(root, t) && End(d, ls).right == root
    requires SpineApart(ls) && Apart(t) && SpineApart(rs) && t.Node?
    requires d !in SpineNodes(ls) + Nodes(t) + SpineNodes(rs) && SpineNodes(ls) !! Nodes(t) !! SpineNodes(rs)
    ensures var ls' := ls + [Seg(root, t.left)];
            && Parts(d, root, r, root.right, ls', t.right, rs)
            && SpineNodes(ls') + Nodes(t.right) + SpineNodes(rs) == SpineNodes(ls) + Nodes(t) + SpineNodes(rs)
  {
    hide Holds, Apart, SpineApart, HoldsLeft, HoldsRight, Nodes, SpineNodes, LinkedLeft, LinkedRight;
    OpenNode(root, t);
    LinkedByRight(d, ls, root);
    CloseLeft(d, ls, Seg(root, t.left));
    GrowApart(ls, Seg(root, t.left));
  }

  // llink: the root and its left subtree join the LEFT tree.
  method LLink(d: Link, l0: Link, r: Link, root0: Link, ghost ls: seq<Seg>, ghost t: Tree, ghost rs: seq<Seg>)
    returns (l: Link, root: Link?, ghost ls': seq<Seg>)
    requires Parts(d, l0, r, root0, ls, t, rs) && t.Node?
    modifies l0`right
    ensures ls' == ls + [Seg(root0, t.left)] && l == root0
    ensures Parts(d, l, r, root, ls', t.right, rs)
    ensures SpineNodes(ls') + Nodes(t.right) + SpineNodes(rs) == SpineNodes(ls) + Nodes(t) + SpineNodes(rs)
  {
    hide Holds, Apart, SpineApart, HoldsLeft, HoldsRight, Nodes, SpineNodes;
    HangLeft(d, l0, root0, ls, t, rs);
    LLinked(d, r, root0, ls, t, rs);
    l := root0;
    root := root0.right;
    ls' := ls + [Seg(root0, t.left)];
  }

  // ------------------------------------------------------------------- the order

  // Keys rise strictly.
  ghost predicate Sorted(k: Disc, s: seq<Link>) {
    forall i, j :: 0 <= i < j < |s| ==> Key(k, s[i]) < Key(k, s[j])
  }

  ghost function LeftOrder(s: seq<Seg>): seq<Link> {
    if s == [] then []
    else LeftOrder(s[..|s| - 1]) + (Inorder(s[|s| - 1].tree) + [s[|s| - 1].link])
  }

  ghost function RightOrder(s: seq<Seg>): seq<Link> {
    if s == [] then []
    else ([s[|s| - 1].link] + Inorder(s[|s| - 1].tree)) + RightOrder(s[..|s| - 1])
  }

  ghost function Order(ls: seq<Seg>, t: Tree, rs: seq<Seg>): seq<Link> {
    LeftOrder(ls) + Inorder(t) + RightOrder(rs)
  }

  // The LEFT tree holds smaller and the RIGHT tree larger keys than key.
  ghost predicate Around(k: Disc, ls: seq<Seg>, rs: seq<Seg>, key: int) {
    (forall x :: x in LeftOrder(ls) ==> Key(k, x) < key) && (forall x :: x in RightOrder(rs) ==> key < Key(k, x))
  }

  lemma SortedAround(k: Disc, a: seq<Link>, n: Link, b: seq<Link>)
    requires Sorted(k, a + [n] + b)
    ensures forall x :: x in a ==> Key(k, x) < Key(k, n)
    ensures forall x :: x in b ==> Key(k, n) < Key(k, x)
  {
    var s := a + [n] + b;
    assert s[|a|] == n;
    forall i | 0 <= i < |a|
      ensures Key(k, a[i]) < Key(k, n)
    {
      assert s[i] == a[i];
    }
    forall i | 0 <= i < |b|
      ensures Key(k, n) < Key(k, b[i])
    {
      assert s[|a| + 1 + i] == b[i];
    }
  }

  lemma Regroup(p: seq<Link>, u: seq<Link>, x: Link, v: seq<Link>, q: seq<Link>)
    ensures p + (u + [x] + v) + q == (p + u) + [x] + (v + q)
    ensures (p + u) + (([x] + v) + q) == (p + u) + [x] + (v + q)
    ensures (p + (u + [x])) + v + q == (p + u) + [x] + (v + q)
  {
  }

  lemma RLinkOrder(k: Disc, ls: seq<Seg>, t: Tree, rs: seq<Seg>, key: int)
    requires Sorted(k, Order(ls, t, rs)) && Around(k, ls, rs, key) && t.Node? && key < Key(k, t.link)
    ensures Order(ls, t.left, rs + [Seg(t.link, t.right)]) == Order(ls, t, rs)
    ensures Around(k, ls, rs + [Seg(t.link, t.right)], key)
  {
    var rs' := rs + [Seg(t.link, t.right)];
    assert rs'[..|rs|] == rs;
    var u, v := Inorder(t.left), Inorder(t.right);
    assert RightOrder(rs') == ([t.link] + v) + RightOrder(rs) && Inorder(t) == u + [t.link] + v;
    hide Sorted, Inorder, LeftOrder, RightOrder;
    Regroup(LeftOrder(ls), u, t.link, v, RightOrder(rs));
    SortedAround(k, LeftOrder(ls) + u, t.link, v + RightOrder(rs));
    GreaterAll(k, t.link, v, RightOrder(rs), key);
  }

  lemma GreaterAll(k: Disc, x: Link, v: seq<Link>, q: seq<Link>, key: int)
    requires key < Key(k, x) && forall y :: y in v + q ==> Key(k, x) < Key(k, y)
    ensures forall y :: y in ([x] + v) + q ==> key < Key(k, y)
  {
  }

  lemma LLinkOrder(k: Disc, ls: seq<Seg>, t: Tree, rs: seq<Seg>, key: int)
    requires Sorted(k, Order(ls, t, rs)) && Around(k, ls, rs, key) && t.Node? && Key(k, t.link) < key
    ensures Order(ls + [Seg(t.link, t.left)], t.right, rs) == Order(ls, t, rs)
    ensures Around(k, ls + [Seg(t.link, t.left)], rs, key)
  {
    var ls' := ls + [Seg(t.link, t.left)];
    assert ls'[..|ls|] == ls;
    var u, v := Inorder(t.left), Inorder(t.right);
    assert LeftOrder(ls') == LeftOrder(ls) + (u + [t.link]) && Inorder(t) == u + [t.link] + v;
    hide Sorted, Inorder, LeftOrder, RightOrder;
    Regroup(LeftOrder(ls), u, t.link, v, RightOrder(rs));
    SortedAround(k, LeftOrder(ls) + u, t.link, v + RightOrder(rs));
    SmallerAll(k, LeftOrder(ls), u, t.link, key);
  }

  lemma SmallerAll(k: Disc, p: seq<Link>, u: seq<Link>, x: Link, key: int)
    requires Key(k, x) < key && forall y :: y in p + u ==> Key(k, y) < Key(k, x)
    ensures forall y :: y in p + (u + [x]) ==> Key(k, y) < key
  {
  }

  // The state of the splay loop on a tree with links all in order s.
  ghost predicate Going(k: Disc, d: Link, l: Link, r: Link, root: Link?, ls: seq<Seg>, t: Tree, rs: seq<Seg>,
                        key: int, all: set<Link>, s: seq<Link>)
    reads d, SpineNodes(ls), Nodes(t), SpineNodes(rs)
  {
    && Parts(d, l, r, root, ls, t, rs)
    && SpineNodes(ls) + Nodes(t) + SpineNodes(rs) == all
    && Order(ls, t, rs) == s && Sorted(k, s)
    && Around(k, ls, rs, key)
  }

  // One round of the loop when key is smaller than the root's key.
  method StepRight(k: Disc, key: int, d: Link, l0: Link, r0: Link, root0: Link,
                   ghost ls0: seq<Seg>, ghost t0: Tree, ghost rs0: seq<Seg>, ghost all: set<Link>, ghost s: seq<Link>)
    returns (l: Link, r: Link, root: Link?, ghost ls: seq<Seg>, ghost t: Tree, ghost rs: seq<Seg>)
    requires Going(k, d, l0, r0, root0, ls0, t0, rs0, key, all, s) && key < Key(k, root0)
    modifies all, d
    ensures Going(k, d, l, r, root, ls, t, rs, key, all, s) && t < t0
  {
    hide Holds, Apart, SpineApart, HoldsLeft, HoldsRight, Nodes, SpineNodes, Sorted, Around, Order;
    RootOf(root0, t0);
    l, r, root, ls, t, rs := l0, r0, root0, ls0, t0, rs0;
    InAll(d, l, r, root, ls, t, rs, all);
    var x := root.left;
    if x != null {
      RootOf(x, t.left);
      if key < Key(k, x) {
        root, t := RotateRoot(d, l, r, root, ls, t, rs, all);
        RLinkOrder(k, ls, t, rs, key);
        r, root, rs := RLink(d, l, r, root, ls, t, rs);
        t := t.left;
      } else if key == Key(k, x) {
        RLinkOrder(k, ls, t, rs, key);
        r, root, rs := RLink(d, l, r, root, ls, t, rs);
        t := t.left;
      } else {
        RLinkOrder(k, ls, t, rs, key);
        r, root, rs := RLink(d, l, r, root, ls, t, rs);
        t := t.left;
        InAll(d, l, r, root, ls, t, rs, all);
        RootOf(root, t);
        LLinkOrder(k, ls, t, rs, key);
        l, root, ls := LLink(d, l, r, root, ls, t, rs);
        t := t.right;
      }
    } else {
      RLinkOrder(k, ls, t, rs, key);
      r, root, rs := RLink(d, l, r, root, ls, t, rs);
      t := t.left;
    }
  }

  // One round of the loop when key is larger than the root's key.
  method StepLeft(k: Disc, key: int, d: Link, l0: Link, r0: Link, root0: Link,
                  ghost ls0: seq<Seg>, ghost t0: Tree, ghost rs0: seq<Seg>, ghost all: set<Link>, ghost s: seq<Link>)
    returns (l: Link, r: Link, root: Link?, ghost ls: seq<Seg>, ghost t: Tree, ghost rs: seq<Seg>)
    requires Going(k, d, l0, r0, root0, ls0, t0, rs0, key, all, s) && Key(k, root0) < key
    modifies all, d
    ensures Going(k, d, l, r, root, ls, t, rs, key, all, s) && t < t0
  {
    hide Holds, Apart, SpineApart, HoldsLeft, HoldsRight, Nodes, SpineNodes, Sorted, Around, Order;
    RootOf(root0, t0);
    l, r, root, ls, t, rs := l0, r0, root0, ls0, t0, rs0;
    InAll(d, l, r, root, ls, t, rs, all);
    var x := root.right;
    if x != null {
      RootOf(x, t.right);
      if Key(k, x) < key {
        root, t := RotateRootLeft(d, l, r, root, ls, t, rs, all);
        LLinkOrder(k, ls, t, rs, key);
        l, root, ls := LLink(d, l, r, root, ls, t, rs);
        t := t.right;
      } else if key == Key(k, x) {
        LLinkOrder(k, ls, t, rs, key);
        l, root, ls := LLink(d, l, r, root, ls, t, rs);
        t := t.right;
      } else {
        LLinkOrder(k, ls, t, rs, key);
        l, root, ls := LLink(d, l, r, root, ls, t, rs);
        t := t.right;
        InAll(d, l, r, root, ls, t, rs, all);
        RootOf(root, t);
        RLinkOrder(k, ls, t, rs, key);
        r, root, rs := RLink(d, l, r, root, ls, t, rs);
        t := t.left;
      }
    } else {
      LLinkOrder(k, ls, t, rs, key);
      l, root, ls := LLink(d, l, r, root, ls, t, rs);
      t := t.right;
    }
  }

  lemma RootOf(x: Link?, t: Tree)
    requires Holds(x, t)
    ensures if x == null then t == Leaf else t.Node? && t.link == x && Holds(x.left, t.left) && Holds(x.right, t.right)
  {
  }

  lemma InAll(d: Link, l: Link, r: Link, root: Link?, ls: seq<Seg>, t: Tree, rs: seq<Seg>, all: set<Link>)
    requires Parts(d, l, r, root, ls, t, rs) && SpineNodes(ls) + Nodes(t) + SpineNodes(rs) == all
    ensures l == d || l in all
    ensures r == d || r in all
    ensures root != null ==> root in all && Nodes(t) <= all
    ensures d !in all
  {
  }

  // RRotate at the root while the other parts stay.
  method RotateRoot(d: Link, ghost l: Link, ghost r: Link, root0: Link,
                    ghost ls: seq<Seg>, ghost t0: Tree, ghost rs: seq<Seg>, ghost all: set<Link>)
    returns (root: Link, ghost t: Tree)
    requires Parts(d, l, r, root0, ls, t0, rs) && t0.Node? && t0.left.Node?
    requires SpineNodes(ls) + Nodes(t0) + SpineNodes(rs) == all
    modifies Nodes(t0)
    ensures root == t0.left.link && t == Node(t0.left.left, root, Node(t0.left.right, root0, t0.right))
    ensures Parts(d, l, r, root, ls, t, rs) && Nodes(t) == Nodes(t0)
    ensures Order(ls, t, rs) == Order(ls, t0, rs)
  {
    hide Holds, Apart, SpineApart, HoldsLeft, HoldsRight, SpineNodes, Nodes;
    OpenNode(root0, t0);
    OpenNode(root0.left, t0.left);
    assert root0 in Nodes(t0) && t0.left.link in Nodes(t0);
    root, t := RRotate(root0, t0);
  }

  // LRotate at the root while the other parts stay.
  method RotateRootLeft(d: Link, ghost l: Link, ghost r: Link, root0: Link,
                    ghost ls: seq<Seg>, ghost t0: Tree, ghost rs: seq<Seg>, ghost all: set<Link>)
    returns (root: Link, ghost t: Tree)
    requires Parts(d, l, r, root0, ls, t0, rs) && t0.Node? && t0.right.Node?
    requires SpineNodes(ls) + Nodes(t0) + SpineNodes(rs) == all
    modifies Nodes(t0)
    ensures root == t0.right.link && t == Node(Node(t0.left, root0, t0.right.left), root, t0.right.right)
    ensures Parts(d, l, r, root, ls, t, rs) && Nodes(t) == Nodes(t0)
    ensures Order(ls, t, rs) == Order(ls, t0, rs)
  {
    hide Holds, Apart, SpineApart, HoldsLeft, HoldsRight, SpineNodes, Nodes;
    OpenNode(root0, t0);
    OpenNode(root0.right, t0.right);
    assert root0 in Nodes(t0) && t0.right.link in Nodes(t0);
    root, t := LRotate(root0, t0);
  }

  // The splay loop: stops at the link with the key, or at null when there is
  // none, with all smaller keys in the LEFT and all larger ones in the RIGHT tree.
  method SplayDown(k: Disc, key: int, d: Link, root0: Link?, ghost t0: Tree)
    returns (l: Link, r: Link, root: Link?, ghost ls: seq<Seg>, ghost t: Tree, ghost rs: seq<Seg>)
    requires Holds(root0, t0) && Apart(t0) && Sorted(k, Inorder(t0)) && d !in Nodes(t0)
    modifies Nodes(t0), d
    ensures Going(k, d, l, r, root, ls, t, rs, key, Nodes(t0), Inorder(t0))
    ensures root != null ==> Key(k, root) == key
  {
    hide Holds, Apart, SpineApart, HoldsLeft, HoldsRight, Nodes, SpineNodes, Sorted;
    l, r, root := d, d, root0;
    ls, t, rs := [], t0, [];
    EmptySpines(d);
    assert Order([], t0, []) == Inorder(t0);
    while root != null
      invariant Going(k, d, l, r, root, ls, t, rs, key, Nodes(t0), Inorder(t0))
      decreases t
    {
      if key == Key(k, root) {
        break;
      } else if key < Key(k, root) {
        l, r, root, ls, t, rs := StepRight(k, key, d, l, r, root, ls, t, rs, Nodes(t0), Inorder(t0));
      } else {
        l, r, root, ls, t, rs := StepLeft(k, key, d, l, r, root, ls, t, rs, Nodes(t0), Inorder(t0));
      }
    }
  }

  // -------------------------------------------------------------- joining again

  // The LEFT tree with a as the missing inner subtree of its last link.
  ghost function BuildLeft(s: seq<Seg>, a: Tree): Tree {
    if s == [] then a
    else BuildLeft(s[..|s| - 1], Node(s[|s| - 1].tree, s[|s| - 1].link, a))
  }

  ghost function BuildRight(s: seq<Seg>, c: Tree): Tree {
    if s == [] then c
    else BuildRight(s[..|s| - 1], Node(c, s[|s| - 1].link, s[|s| - 1].tree))
  }

  lemma {:induction false} JoinLeft(d: Link, s: seq<Seg>, a: Tree)
    requires HoldsLeft(d, s) && SpineApart(s) && Apart(a) && Holds(End(d, s).right, a)
    requires SpineNodes(s) !! Nodes(a)
    ensures var t := BuildLeft(s, a);
            && Holds(d.right, t) && Apart(t)
            && Nodes(t) == SpineNodes(s) + Nodes(a) && Inorder(t) == LeftOrder(s) + Inorder(a)
    decreases |s|
  {
    hide Holds, Apart, Nodes;
    if s != [] {
      var n, up := s[|s| - 1], s[..|s| - 1];
      OpenLeft(d, s);
      CloseNode(n.link, n.tree, a);
      JoinLeft(d, up, Node(n.tree, n.link, a));
      assert LeftOrder(s) + Inorder(a) == LeftOrder(up) + Inorder(Node(n.tree, n.link, a));
    }
  }

  lemma {:induction false} JoinRight(d: Link, s: seq<Seg>, c: Tree)
    requires HoldsRight(d, s) && SpineApart(s) && Apart(c) && Holds(End(d, s).left, c)
    requires SpineNodes(s) !! Nodes(c)
    ensures var t := BuildRight(s, c);
            && Holds(d.left, t) && Apart(t)
            && Nodes(t) == SpineNodes(s) + Nodes(c) && Inorder(t) == Inorder(c) + RightOrder(s)
    decreases |s|
  {
    hide Holds, Apart, Nodes;
    if s != [] {
      var n, up := s[|s| - 1], s[..|s| - 1];
      OpenRight(d, s);
      CloseNode(n.link, c, n.tree);
      JoinRight(d, up, Node(c, n.link, n.tree));
      assert Inorder(c) + RightOrder(s) == Inorder(Node(c, n.link, n.tree)) + RightOrder(up);
    }
  }

  // ----------------------------------------------------------- cutting at a key

  ghost function Below(k: Disc, s: seq<Link>, key: int): seq<Link> {
    if s == [] then []
    else (if Key(k, s[0]) < key then [s[0]] else []) + Below(k, s[1..], key)
  }

  ghost function Above(k: Disc, s: seq<Link>, key: int): seq<Link> {
    if s == [] then []
    else (if key < Key(k, s[0]) then [s[0]] else []) + Above(k, s[1..], key)
  }

  // The link with the key, if there is one.
  ghost function At(k: Disc, s: seq<Link>, key: int): seq<Link> {
    if s == [] then []
    else (if Key(k, s[0]) == key then [s[0]] else []) + At(k, s[1..], key)
  }

  lemma {:induction false} CutFront(k: Disc, a: seq<Link>, b: seq<Link>, key: int)
    requires forall x :: x in a ==> Key(k, x) < key
    ensures Below(k, a + b, key) == a + Below(k, b, key)
    ensures At(k, a + b, key) == At(k, b, key) && Above(k, a + b, key) == Above(k, b, key)
  {
    if a == [] {
      assert a + b == b;
    } else {
      assert (a + b)[1..] == a[1..] + b;
      assert a[0] in a && forall x :: x in a[1..] ==> x in a;
      CutFront(k, a[1..], b, key);
    }
  }

  lemma {:induction false} CutBack(k: Disc, b: seq<Link>, key: int)
    requires forall x :: x in b ==> key < Key(k, x)
    ensures Below(k, b, key) == [] && At(k, b, key) == [] && Above(k, b, key) == b
  {
    if b != [] {
      assert b[0] in b && forall x :: x in b[1..] ==> x in b;
      CutBack(k, b[1..], key);
    }
  }

  // Smaller keys, then at most one link with the key, then larger keys.
  lemma Cut(k: Disc, a: seq<Link>, m: seq<Link>, b: seq<Link>, key: int)
    requires forall x :: x in a ==> Key(k, x) < key
    requires forall x :: x in b ==> key < Key(k, x)
    requires m == [] || (|m| == 1 && Key(k, m[0]) == key)
    ensures Below(k, a + m + b, key) == a && At(k, a + m + b, key) == m && Above(k, a + m + b, key) == b
  {
    assert a + m + b == a + (m + b);
    CutFront(k, a, m + b, key);
    CutBack(k, b, key);
    if m == [] {
      assert m + b == b;
    } else {
      assert (m + b)[1..] == b;
    }
  }

  lemma {:induction false} CutMembers(k: Disc, s: seq<Link>, key: int)
    ensures forall x :: x in Below(k, s, key) <==> x in s && Key(k, x) < key
    ensures forall x :: x in At(k, s, key) <==> x in s && Key(k, x) == key
    ensures forall x :: x in Above(k, s, key) <==> x in s && key < Key(k, x)
  {
    if s != [] {
      CutMembers(k, s[1..], key);
      assert s == [s[0]] + s[1..];
    }
  }

  // The tree has been cut at key: the smaller links hang from the header's right
  // field with shape tl, the larger ones from its left field, where r is the end of
  // the left spine rs and c the subtree below it.
  ghost predicate CutAt(k: Disc, d: Link, r: Link, root: Link?, tl: Tree, rs: seq<Seg>, c: Tree, key: int,
                        all: set<Link>, s: seq<Link>)
    reads d, Nodes(tl), SpineNodes(rs), Nodes(c)
  {
    && Holds(d.right, tl) && Apart(tl)
    && HoldsRight(d, rs) && SpineApart(rs) && r == End(d, rs)
    && Holds(r.left, c) && Apart(c)
    && d !in all && Nodes(tl) !! SpineNodes(rs) !! Nodes(c)
    && (if root == null then Nodes(tl) + SpineNodes(rs) + Nodes(c) == all
        else root in all && Key(k, root) == key && Nodes(tl) + SpineNodes(rs) + Nodes(c) == all - {root})
    && Inorder(tl) == Below(k, s, key) && Inorder(c) + RightOrder(rs) == Above(k, s, key)
    && At(k, s, key) == (if root == null then [] else [root])
    && s == Below(k, s, key) + At(k, s, key) + Above(k, s, key)
  }

  // Sets the missing inner subtrees of both spines.
  method CloseEnds(d: Link, l: Link, r: Link, x: Link?, y: Link?, ghost ls: seq<Seg>, ghost a: Tree,
                   ghost rs: seq<Seg>, ghost c: Tree, ghost all: set<Link>)
    requires l == End(d, ls) && r == End(d, rs)
    requires HoldsLeft(d, ls) && HoldsRight(d, rs) && SpineApart(ls) && SpineApart(rs)
    requires Holds(x, a) && Holds(y, c)
    requires SpineNodes(ls) + SpineNodes(rs) + Nodes(a) + Nodes(c) <= all && d !in all
    requires SpineNodes(ls) !! SpineNodes(rs) !! Nodes(a) !! Nodes(c)
    modifies l`right, r`left
    ensures HoldsLeft(d, ls) && HoldsRight(d, rs) && Holds(l.right, a) && Holds(r.left, c)
  {
    hide Holds, Apart, SpineApart, HoldsLeft, HoldsRight, Nodes, SpineNodes;
    EndIn(d, ls);
    EndIn(d, rs);
    HangLeft(d, l, x, ls, a, rs);
    assert Holds(y, c);
    HangRight(d, r, y, ls, rs, c);
  }

  lemma EndIn(d: Link, s: seq<Seg>)
    ensures End(d, s) == d || End(d, s) in SpineNodes(s)
  {
  }

  lemma CutOrder(k: Disc, ls: seq<Seg>, a: Tree, m: seq<Link>, c: Tree, rs: seq<Seg>, key: int)
    requires Sorted(k, (LeftOrder(ls) + Inorder(a)) + m + (Inorder(c) + RightOrder(rs)))
    requires Around(k, ls, rs, key)
    requires if m == [] then a == Leaf && c == Leaf else |m| == 1 && Key(k, m[0]) == key
    ensures var s := (LeftOrder(ls) + Inorder(a)) + m + (Inorder(c) + RightOrder(rs));
            && Below(k, s, key) == LeftOrder(ls) + Inorder(a) && At(k, s, key) == m
            && Above(k, s, key) == Inorder(c) + RightOrder(rs)
  {
    var x, y := LeftOrder(ls) + Inorder(a), Inorder(c) + RightOrder(rs);
    if m != [] {
      assert m == [m[0]];
      SortedAround(k, x, m[0], y);
    }
    Cut(k, x, m, y, key);
  }

  // Closes the LEFT and RIGHT trees with the subtrees of the root, if there is one.
  method CloseCut(k: Disc, key: int, d: Link, l: Link, r: Link, root: Link?, ghost ls: seq<Seg>, ghost t: Tree,
                  ghost rs: seq<Seg>, ghost all: set<Link>, ghost s: seq<Link>)
    returns (ghost tl: Tree, ghost c: Tree)
    requires Going(k, d, l, r, root, ls, t, rs, key, all, s) && (root != null ==> Key(k, root) == key)
    modifies l`right, r`left
    ensures CutAt(k, d, r, root, tl, rs, c, key, all, s)
  {
    hide Holds, Apart, SpineApart, HoldsLeft, HoldsRight, Nodes, SpineNodes;
    hide Sorted, Below, Above, At, Around, LeftOrder, RightOrder;
    InAll(d, l, r, root, ls, t, rs, all);
    RootOf(root, t);
    ghost var a, m := if root == null then Leaf else t.left, if root == null then [] else [root];
    c := if root == null then Leaf else t.right;
    OpenCut(root, t);
    assert Order(ls, t, rs) == (LeftOrder(ls) + Inorder(a)) + m + (Inorder(c) + RightOrder(rs));
    CutOrder(k, ls, a, m, c, rs, key);
    if root != null {
      CloseEnds(d, l, r, root.left, root.right, ls, a, rs, c, all);
    } else {
      CloseEnds(d, l, r, null, null, ls, a, rs, c, all);
    }
    tl := BuildLeft(ls, a);
    JoinLeft(d, ls, a);
  }

  lemma OpenCut(root: Link?, t: Tree)
    requires Holds(root, t) && Apart(t)
    ensures Holds(null, Leaf) && Apart(Leaf) && Nodes(Leaf) == {}
    ensures root == null ==> t == Leaf && Nodes(t) == {}
    ensures root != null ==>
              && t.Node? && root == t.link && Holds(root.left, t.left) && Holds(root.right, t.right)
              && Apart(t.left) && Apart(t.right) && root !in Nodes(t.left) && root !in Nodes(t.right)
              && Nodes(t.left) !! Nodes(t.right) && Nodes(t) == Nodes(t.left) + {root} + Nodes(t.right)
  {
  }

  // Splays at key, with a new header, and closes the LEFT and RIGHT trees.
  method Isolate(k: Disc, key: int, root0: Link?, ghost t0: Tree, ghost all: set<Link>)
    returns (d: Link, r: Link, root: Link?, ghost tl: Tree, ghost rs: seq<Seg>, ghost c: Tree)
    requires Holds(root0, t0) && Apart(t0) && Sorted(k, Inorder(t0)) && Nodes(t0) == all
    modifies all
    ensures fresh(d)
    ensures CutAt(k, d, r, root, tl, rs, c, key, Nodes(t0), Inorder(t0))
  {
    hide Holds, Apart, Nodes, Sorted, Going, CutAt;
    d := new Link();
    var l;
    ghost var ls, t;
    l, r, root, ls, t, rs := SplayDown(k, key, d, root0, t0);
    GoingIn(k, d, l, r, root, ls, t, rs, key, all, Inorder(t0));
    tl, c := CloseCut(k, key, d, l, r, root, ls, t, rs, all, Inorder(t0));
  }

  lemma GoingIn(k: Disc, d: Link, l: Link, r: Link, root: Link?, ls: seq<Seg>, t: Tree, rs: seq<Seg>,
                key: int, all: set<Link>, s: seq<Link>)
    requires Going(k, d, l, r, root, ls, t, rs, key, all, s)
    ensures (l == d || l in all) && (r == d || r in all)
  {
    InAll(d, l, r, root, ls, t, rs, all);
  }

  lemma LeafFacts()
    ensures Holds(null, Leaf) && Apart(Leaf) && Nodes(Leaf) == {}
  {
  }

  // has_root: x becomes the root above the trees that hang from the header.
  method HasRoot(d: Link, x: Link, ghost tl: Tree, ghost tr: Tree) returns (ghost t: Tree)
    requires Holds(d.right, tl) && Holds(d.left, tr) && Apart(tl) && Apart(tr)
    requires Nodes(tl) !! Nodes(tr) && x !in Nodes(tl) + Nodes(tr) && x != d && d !in Nodes(tl) + Nodes(tr)
    modifies x
    ensures t == Node(tl, x, tr) && Holds(x, t) && Apart(t) && Nodes(t) == Nodes(tl) + {x} + Nodes(tr)
    ensures Inorder(t) == Inorder(tl) + [x] + Inorder(tr)
  {
    hide Holds, Apart, Nodes;
    x.left := d.right;
    x.right := d.left;
    CloseNode(x, tl, tr);
    t := Node(tl, x, tr);
  }

  // no_root: the LEFT tree goes below the least link of the RIGHT tree.
  method NoRoot(d: Link, r0: Link, ghost tl: Tree, ghost rs0: seq<Seg>, ghost c0: Tree, ghost all: set<Link>)
    returns (root: Link?, ghost t: Tree)
    requires Holds(d.right, tl) && Apart(tl)
    requires HoldsRight(d, rs0) && SpineApart(rs0) && r0 == End(d, rs0) && Holds(r0.left, c0) && Apart(c0)
    requires Nodes(tl) !! SpineNodes(rs0) !! Nodes(c0) && Nodes(tl) + SpineNodes(rs0) + Nodes(c0) == all && d !in all
    modifies all, d
    ensures Holds(root, t) && Apart(t) && Nodes(t) == all
    ensures Inorder(t) == Inorder(tl) + (Inorder(c0) + RightOrder(rs0))
  {
    hide Holds, Apart, SpineApart, HoldsLeft, HoldsRight, Nodes, SpineNodes, RightOrder;
    var r := r0;
    ghost var rs, c := rs0, c0;
    RootOf(r.left, c);
    while r.left != null
      invariant Holds(d.right, tl)
      invariant HoldsRight(d, rs) && SpineApart(rs) && r == End(d, rs) && Holds(r.left, c) && Apart(c)
      invariant Nodes(tl) !! SpineNodes(rs) !! Nodes(c) && Nodes(tl) + SpineNodes(rs) + Nodes(c) == all
      invariant Inorder(c) + RightOrder(rs) == Inorder(c0) + RightOrder(rs0)
      decreases c
    {
      RootOf(r.left, c);
      OpenNode(r.left, c);
      DescendOrder(rs, c);
      LinkedByLeft(d, rs, c.link);
      r := r.left;
      ghost var seg := Seg(r, c.right);
      CloseRight(d, rs, seg);
      GrowApart(rs, seg);
      rs, c := rs + [seg], c.left;
    }
    RootOf(r.left, c);
    LeafFacts();
    EndIn(d, rs);
    EmptySpines(d);
    HangRight(d, r, d.right, [], rs, tl);
    JoinRight(d, rs, tl);
    root, t := d.left, BuildRight(rs, tl);
    assert Inorder(c) == [];
  }

  lemma DescendOrder(rs: seq<Seg>, c: Tree)
    requires c.Node?
    ensures Inorder(c.left) + RightOrder(rs + [Seg(c.link, c.right)]) == Inorder(c) + RightOrder(rs)
  {
    assert (rs + [Seg(c.link, c.right)])[..|rs|] == rs;
  }

  lemma LinkedByRight(d: Link, ls: seq<Seg>, x: Link)
    requires End(d, ls).right == x
    ensures LinkedRight(d, ls, x)
  {
  }

  lemma LinkedByLeft(d: Link, rs: seq<Seg>, x: Link)
    requires End(d, rs).left == x
    ensures LinkedLeft(d, rs, x)
  {
  }

  // Rotates the least link to the root.
  method MinToRoot(x0: Link, ghost t0: Tree) returns (x: Link, ghost t: Tree)
    requires Holds(x0, t0) && Apart(t0) && t0.Node?
    modifies Nodes(t0)
    ensures Holds(x, t) && Apart(t) && t.Node? && t.left == Leaf && t.link == x
    ensures Nodes(t) == Nodes(t0) && Inorder(t) == Inorder(t0)
  {
    hide Holds, Apart, Nodes;
    x, t := x0, t0;
    OpenNode(x, t);
    RootOf(x.left, t.left);
    while x.left != null
      invariant Holds(x, t) && Apart(t) && t.Node? && t.link == x
      invariant x.left == null ==> t.left == Leaf
      invariant Nodes(t) == Nodes(t0) && Inorder(t) == Inorder(t0)
      decreases t.left
    {
      OpenNode(x, t);
      RootOf(x.left, t.left);
      OpenNode(x.left, t.left);
      x, t := RRotate(x, t);
      OpenNode(x, t);
      RootOf(x.left, t.left);
    }
  }

  // Rotates the greatest link to the root.
  method MaxToRoot(x0: Link, ghost t0: Tree) returns (x: Link, ghost t: Tree)
    requires Holds(x0, t0) && Apart(t0) && t0.Node?
    modifies Nodes(t0)
    ensures Holds(x, t) && Apart(t) && t.Node? && t.right == Leaf && t.link == x
    ensures Nodes(t) == Nodes(t0) && Inorder(t) == Inorder(t0)
  {
    hide Holds, Apart, Nodes;
    x, t := x0, t0;
    OpenNode(x, t);
    RootOf(x.right, t.right);
    while x.right != null
      invariant Holds(x, t) && Apart(t) && t.Node? && t.link == x
      invariant x.right == null ==> t.right == Leaf
      invariant Nodes(t) == Nodes(t0) && Inorder(t) == Inorder(t0)
      decreases t.right
    {
      OpenNode(x, t);
      RootOf(x.right, t.right);
      OpenNode(x.right, t.right);
      x, t := LRotate(x, t);
      OpenNode(x, t);
      RootOf(x.right, t.right);
    }
  }

  ghost function First(s: seq<Link>): Link? {
    if s == [] then null else s[0]
  }

  ghost function Last(s: seq<Link>): Link? {
    if s == [] then null else s[|s| - 1]
  }

  lemma BuildRightLeaf(s: seq<Seg>, c: Tree)
    ensures BuildRight(s, c) == Leaf <==> s == [] && c == Leaf
    decreases |s|
  {
    if s != [] {
      BuildRightLeaf(s[..|s| - 1], Node(c, s[|s| - 1].link, s[|s| - 1].tree));
    }
  }

  // dt_next: the least link of the RIGHT tree becomes the root.
  method TakeNext(d: Link, ghost tl: Tree, ghost tr: Tree, ghost all: set<Link>) returns (x: Link, ghost t: Tree)
    requires Holds(d.right, tl) && Holds(d.left, tr) && Apart(tl) && Apart(tr) && tr.Node?
    requires Nodes(tl) !! Nodes(tr) && Nodes(tl) + Nodes(tr) == all && d !in all
    modifies all, d
    ensures Holds(x, t) && Apart(t) && Nodes(t) == all
    ensures Inorder(t) == Inorder(tl) + Inorder(tr) && Inorder(tr) != [] && x == Inorder(tr)[0]
  {
    hide Holds, Apart, Nodes;
    RootOf(d.left, tr);
    ghost var tr';
    x, tr' := MinToRoot(d.left, tr);
    OpenNode(x, tr');
    LeafFacts();
    assert Inorder(tr') == [x] + Inorder(tr'.right);
    d.left := x.right;
    t := HasRoot(d, x, tl, tr'.right);
    assert Inorder(t) == Inorder(tl) + Inorder(tr);
  }

  // dt_prev: the greatest link of the LEFT tree becomes the root.
  method TakePrev(d: Link, ghost tl: Tree, ghost tr: Tree, ghost all: set<Link>) returns (x: Link, ghost t: Tree)
    requires Holds(d.right, tl) && Holds(d.left, tr) && Apart(tl) && Apart(tr) && tl.Node?
    requires Nodes(tl) !! Nodes(tr) && Nodes(tl) + Nodes(tr) == all && d !in all
    modifies all, d
    ensures Holds(x, t) && Apart(t) && Nodes(t) == all
    ensures Inorder(t) == Inorder(tl) + Inorder(tr) && Inorder(tl) != [] && x == Inorder(tl)[|Inorder(tl)| - 1]
  {
    hide Holds, Apart, Nodes;
    RootOf(d.right, tl);
    ghost var tl';
    x, tl' := MaxToRoot(d.right, tl);
    OpenNode(x, tl');
    LeafFacts();
    assert Inorder(tl') == Inorder(tl'.left) + [x];
    d.right := x.left;
    t := HasRoot(d, x, tl'.left, tr);
    assert Inorder(t) == Inorder(tl) + Inorder(tr);
  }

  // The found root becomes the least link of the RIGHT tree.
  method PutRight(d: Link, root: Link, ghost r: Link, ghost tl: Tree, ghost tr0: Tree, ghost c: Tree,
                  ghost all: set<Link>)
    returns (ghost tr: Tree)
    requires Holds(d.right, tl) && Holds(d.left, tr0) && Apart(tr0) && Holds(r.left, c)
    requires Nodes(tl) + Nodes(tr0) == all - {root} && root in all && d !in all
    requires Nodes(c) <= Nodes(tr0) && (r == d || r in Nodes(tr0))
    modifies root, d`left
    ensures Holds(d.right, tl) && d.right == old(d.right)
    ensures tr == Node(Leaf, root, tr0) && Holds(d.left, tr) && Apart(tr) && Nodes(tr) == {root} + Nodes(tr0)
    ensures Inorder(tr) == [root] + Inorder(tr0)
    ensures r != d ==> Holds(r.left, c)
  {
    hide Holds, Apart, Nodes;
    root.right := d.left;
    root.left := null;
    LeafFacts();
    CloseNode(root, Leaf, tr0);
    tr := Node(Leaf, root, tr0);
    d.left := root;
  }

  // The found root becomes the greatest link of the LEFT tree.
  method PutLeft(d: Link, root: Link, ghost tl0: Tree, ghost tr: Tree) returns (ghost tl: Tree)
    requires Holds(d.right, tl0) && Holds(d.left, tr) && Apart(tl0)
    requires root !in Nodes(tl0) + Nodes(tr) && root != d && d !in Nodes(tl0) + Nodes(tr)
    modifies root, d`right
    ensures Holds(d.left, tr) && d.left == old(d.left)
    ensures tl == Node(tl0, root, Leaf) && Holds(d.right, tl) && Apart(tl) && Nodes(tl) == Nodes(tl0) + {root}
    ensures Inorder(tl) == Inorder(tl0) + [root]
  {
    hide Holds, Apart, Nodes;
    root.left := d.right;
    root.right := null;
    LeafFacts();
    CloseNode(root, tl0, Leaf);
    tl := Node(tl0, root, Leaf);
    d.right := root;
  }

  // no_root when the LEFT tree is empty and the RIGHT tree is already whole: the
  // write at the end of the walk changes nothing.
  method NoRootWhole(d: Link, r0: Link, ghost c0: Tree, ghost tr: Tree, ghost all: set<Link>) returns (root: Link?)
    requires Holds(r0.left, c0) && Apart(c0) && Nodes(c0) <= all && d.right == null
    requires r0 == d || r0 in all
    requires Holds(d.left, tr) && Nodes(tr) == all
    modifies all, d
    ensures Holds(root, tr)
  {
    hide Holds, Apart, Nodes;
    var r: Link := r0;
    ghost var c := c0;
    RootOf(r.left, c);
    while r.left != null
      invariant Holds(r.left, c) && Apart(c) && Nodes(c) <= all
      invariant r == d || r in all
      invariant Holds(d.left, tr) && d.right == null
      decreases c
    {
      RootOf(r.left, c);
      OpenNode(r.left, c);
      r := r.left;
      c := c.left;
    }
    r.left := d.right;
    root := d.left;
  }

  // The end of DT_PREV: dt_prev if the LEFT tree has a link, else no_root.
  method FinishPrev(d: Link, r: Link, ghost tl: Tree, ghost tr: Tree, ghost c: Tree, ghost all: set<Link>)
    returns (o: Link?, here: Link?, ghost t: Tree)
    requires Holds(d.right, tl) && Holds(d.left, tr) && Apart(tl) && Apart(tr)
    requires Nodes(tl) !! Nodes(tr) && Nodes(tl) + Nodes(tr) == all && d !in all
    requires Holds(r.left, c) && Apart(c) && Nodes(c) <= all && (r == d || r in all)
    modifies all, d
    ensures Holds(here, t) && Apart(t) && Nodes(t) == all && Inorder(t) == Inorder(tl) + Inorder(tr)
    ensures o == Last(Inorder(tl)) && (o != null ==> here == o)
  {
    hide Holds, Apart, Nodes;
    RootOf(d.right, tl);
    if d.right != null {
      o, t := TakePrev(d, tl, tr, all);
      here := o;
    } else {
      o := null;
      LeafFacts();
      assert Inorder(tl) == [];
      here := NoRootWhole(d, r, c, tr, all);
      t := tr;
      assert Inorder(t) == Inorder(tl) + Inorder(tr);
    }
  }
}
