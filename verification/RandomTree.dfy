// The random rooted tree generator: a parent array filled by an explicit-stack
// machine that splits sizes, adds one- and two-node trees and copies subtrees.
module RandomTree {
  import opened Wrappers
  import TreeTable

  // A stack frame: with d > 0, j copies of a tree of size d are still to be hung
  // below the current root; with d == 0, the current tree is one of j copies.
  datatype Pair = Pair(j: nat, d: nat)

  // -------------------------------------------------- what draws stand for

  // How a tree is grown: a tree of more than two nodes comes from a draw z, by which j
  // copies of one tree are hung below the root of another.
  datatype Growth = One | Two | Hung(z: nat, j: nat, base: Growth, branch: Growth)

  ghost function Size(g: Growth): (n: nat)
  {
    match g
    case One => 1
    case Two => 2
    case Hung(_, j, base, branch) => Size(base) + j * Size(branch)
  }

  // A draw: the value and the bound below which it is drawn.
  datatype Draw = Draw(bound: nat, value: nat)

  ghost function Bound(t: seq<nat>, n: nat): nat {
    if 1 <= n < |t| then (n - 1) * t[n] else 0
  }

  // The draws of a growth, in the order in which they are made.
  ghost function Draws(t: seq<nat>, g: Growth): seq<Draw> {
    match g
    case One => []
    case Two => []
    case Hung(z, _, base, branch) => [Draw(Bound(t, Size(g)), z)] + Draws(t, base) + Draws(t, branch)
  }

  // The source of random numbers: draw number k below a bound.
  type Source = (nat, nat) -> nat

  ghost predicate IsSource(draw: Source) {
    forall k, b :: b > 0 ==> draw(k, b) < b
  }

  // The draws are those that the source gives from number k on.
  ghost predicate Taped(draw: Source, ds: seq<Draw>, k: nat) {
    forall i :: 0 <= i < |ds| ==> ds[i].value == draw(k + i, ds[i].bound)
  }

  // A draw for size n is in its range, and falls on the term for j copies of a tree of
  // size d below the root of one of size m.
  ghost predicate Drawn(t: seq<nat>, n: nat, z: nat, j: nat, d: nat, m: nat) {
    2 < n < |t| && z < (n - 1) * t[n] && TreeTable.Chosen(t, n, j, d, m, z)
  }

  // Every split of the growth is the one that its draw falls on.
  ghost predicate Follows(t: seq<nat>, g: Growth) {
    match g
    case One => true
    case Two => true
    case Hung(z, j, base, branch) =>
      && Drawn(t, Size(g), z, j, Size(branch), Size(base))
      && Follows(t, base) && Follows(t, branch)
  }

  // A rooted tree, with the subtrees of its root in order.
  datatype Rooted = Rooted(kids: seq<Rooted>)

  ghost function TreeOf(g: Growth): Rooted {
    match g
    case One => Rooted([])
    case Two => Rooted([Rooted([])])
    case Hung(_, j, base, branch) => Rooted(TreeOf(base).kids + Times(TreeOf(branch), j))
  }

  ghost function Times(r: Rooted, j: nat): (s: seq<Rooted>)
    ensures |s| == j
  {
    if j == 0 then [] else Times(r, j - 1) + [r]
  }

  // The parents of the nodes 0, 1, ... of a tree whose root has these subtrees, when its
  // nodes are numbered root first and subtree by subtree. Node 0 stands for its own.
  ghost function Parents(kids: seq<Rooted>): (p: seq<nat>)
    ensures |p| >= 1
  {
    if kids == [] then [0]
    else
      var p, last := Parents(kids[..|kids| - 1]), kids[|kids| - 1];
      p + Moved(Parents(last.kids), |p|)
  }

  // The parents p of a tree that is hung below node 0, from node o on.
  ghost function Moved(p: seq<nat>, o: nat): (q: seq<nat>)
    ensures |q| == |p| && forall y :: 0 <= y < |p| ==> q[y] == if y == 0 then 0 else p[y] + o
  {
    seq(|p|, y requires 0 <= y < |p| => if y == 0 then 0 else p[y] + o)
  }

  ghost function Copies(p: seq<nat>, j: nat, o: nat): (q: seq<nat>)
    ensures |q| == j * |p|
  {
    if j == 0 then [] else
      Unfold(j, |p|);
      Copies(p, j - 1, o) + Moved(p, o + (j - 1) * |p|)
  }

  lemma Unfold(j: nat, x: nat)
    requires j > 0
    ensures j * x == (j - 1) * x + x
  {
  }

  // The parents of the tree of a growth.
  ghost function Layout(g: Growth): (p: seq<nat>)
    ensures |p| == Size(g)
  {
    match g
    case One => [0]
    case Two => [0, 0]
    case Hung(_, j, base, branch) => Layout(base) + Copies(Layout(branch), j, Size(base))
  }

  lemma {:induction false} LayoutIs(g: Growth)
    ensures Layout(g) == Parents(TreeOf(g).kids)
  {
    match g
    case One =>
    case Two =>
      var leaf := Rooted([]);
      assert [leaf][..0] == [];
      assert Parents([leaf]) == Parents([]) + Moved(Parents([]), 1);
    case Hung(_, j, base, branch) =>
      LayoutIs(base);
      LayoutIs(branch);
      ParentsTimes(TreeOf(base).kids, TreeOf(branch), j);
  }

  lemma ParentsSnoc(kids: seq<Rooted>, r: Rooted)
    ensures Parents(kids + [r]) == Parents(kids) + Moved(Parents(r.kids), |Parents(kids)|)
  {
    assert (kids + [r])[..|kids|] == kids;
  }

  lemma {:induction false} ParentsTimes(kids: seq<Rooted>, r: Rooted, j: nat)
    ensures Parents(kids + Times(r, j)) == Parents(kids) + Copies(Parents(r.kids), j, |Parents(kids)|)
  {
    hide Parents, Moved;
    if j == 0 {
      assert kids + Times(r, j) == kids;
    } else {
      var before := kids + Times(r, j - 1);
      assert kids + Times(r, j) == before + [r];
      ParentsTimes(kids, r, j - 1);
      ParentsSnoc(before, r);
    }
  }

  lemma {:induction false} LayoutRises(g: Growth)
    ensures Size(g) >= 1 && forall y :: 1 <= y < Size(g) ==> Layout(g)[y] < y
  {
    match g
    case One =>
    case Two =>
    case Hung(_, j, base, branch) =>
      LayoutRises(base);
      LayoutRises(branch);
      CopiesRise(Layout(branch), j, Size(base));
  }

  lemma {:induction false} CopiesRise(p: seq<nat>, j: nat, o: nat)
    requires o >= 1 && forall y :: 1 <= y < |p| ==> p[y] < y
    ensures forall x :: 0 <= x < j * |p| ==> Copies(p, j, o)[x] < o + x
  {
    if j > 0 {
      CopiesRise(p, j - 1, o);
      Unfold(j, |p|);
    }
  }

  lemma TapedParts(draw: Source, a: seq<Draw>, b: seq<Draw>, k: nat)
    requires Taped(draw, a + b, k)
    ensures Taped(draw, a, k) && Taped(draw, b, k + |a|)
  {
    forall i | 0 <= i < |a|
      ensures a[i].value == draw(k + i, a[i].bound)
    {
      assert (a + b)[i] == a[i];
    }
    forall i | 0 <= i < |b|
      ensures b[i].value == draw(k + |a| + i, b[i].bound)
    {
      assert (a + b)[|a| + i] == b[i];
    }
  }

  // The source decides how a tree of a given size is grown.
  lemma {:induction false} DrawsDecide(draw: Source, t: seq<nat>, g: Growth, g': Growth, k: nat)
    requires Follows(t, g) && Follows(t, g') && Size(g) == Size(g')
    requires Taped(draw, Draws(t, g), k) && Taped(draw, Draws(t, g'), k)
    ensures g == g'
    decreases g
  {
    SizeOfSmall(t, g);
    SizeOfSmall(t, g');
    if g.Hung? && g'.Hung? {
      hide *;
      FollowsHung(t, g);
      FollowsHung(t, g');
      TapedHung(draw, t, g, k);
      TapedHung(draw, t, g', k);
      TreeTable.ChosenUnique(t, Size(g), g.j, Size(g.branch), Size(g.base), g'.j, Size(g'.branch), Size(g'.base), g.z);
      DrawsDecide(draw, t, g.base, g'.base, k + 1);
      DrawsDecide(draw, t, g.branch, g'.branch, k + 1 + |Draws(t, g.base)|);
    }
  }

  lemma TapedHung(draw: Source, t: seq<nat>, g: Growth, k: nat)
    requires g.Hung? && Taped(draw, Draws(t, g), k)
    ensures g.z == draw(k, Bound(t, Size(g))) && Taped(draw, Draws(t, g.base), k + 1)
    ensures Taped(draw, Draws(t, g.branch), k + 1 + |Draws(t, g.base)|)
  {
    var first := [Draw(Bound(t, Size(g)), g.z)];
    TapedParts(draw, first + Draws(t, g.base), Draws(t, g.branch), k);
    TapedParts(draw, first, Draws(t, g.base), k);
    assert first[0].value == draw(k + 0, first[0].bound);
  }

  lemma SizeOfSmall(t: seq<nat>, g: Growth)
    requires Follows(t, g)
    ensures g.Hung? <==> Size(g) > 2
    ensures g == One <==> Size(g) == 1
  {
  }

  lemma FollowsHung(t: seq<nat>, g: Growth)
    requires g.Hung? && Follows(t, g)
    ensures 2 < Size(g) < |t| && TreeTable.Chosen(t, Size(g), g.j, Size(g.branch), Size(g.base), g.z)
    ensures Follows(t, g.base) && Follows(t, g.branch)
  {
  }

  ghost function Nodes(r: Rooted): nat {
    |Parents(r.kids)|
  }

  // Every rooted tree has draws that stand for it.
  lemma {:induction false} EveryTree(t: seq<nat>, r: Rooted) returns (g: Growth)
    requires TreeTable.IsTable(t) && Nodes(r) < |t|
    ensures Follows(t, g) && TreeOf(g) == r && Size(g) == Nodes(r)
    decreases Nodes(r)
  {
    hide *;
    SmallGrowths(t);
    if r.kids == [] {
      g := One;
      assert r == Rooted([]);
    } else {
      var init, last := r.kids[..|r.kids| - 1], r.kids[|r.kids| - 1];
      assert r.kids == init + [last];
      NodesSnoc(init, last);
      assert r == Rooted(init + [last]);
      if Nodes(r) == 2 {
        FewKids(init);
        FewKids(last.kids);
        assert r.kids == [last] && last == Rooted([]);
        g := Two;
      } else {
        var base := EveryTree(t, Rooted(init));
        var branch := EveryTree(t, last);
        g := HangOne(t, base, branch);
      }
    }
  }

  // For every rooted tree there is a source from which it, and no other of its size, is
  // grown.
  lemma EveryTreeDrawn(t: seq<nat>, r: Rooted) returns (draw: Source)
    requires TreeTable.IsTable(t) && Nodes(r) < |t|
    ensures IsSource(draw)
    ensures forall g :: Follows(t, g) && Size(g) == Nodes(r) && Taped(draw, Draws(t, g), 0) ==> TreeOf(g) == r
  {
    var g0 := EveryTree(t, r);
    var ds := Draws(t, g0);
    draw := (k, b) => FromList(ds, k, b);
    InBounds(t, g0);
    forall g | Follows(t, g) && Size(g) == Nodes(r) && Taped(draw, Draws(t, g), 0)
      ensures TreeOf(g) == r
    {
      DrawsDecide(draw, t, g, g0, 0);
    }
  }

  function FromList(ds: seq<Draw>, k: nat, b: nat): nat {
    if k < |ds| && ds[k].value < b then ds[k].value else 0
  }

  lemma {:induction false} InBounds(t: seq<nat>, g: Growth)
    requires Follows(t, g)
    ensures forall i :: 0 <= i < |Draws(t, g)| ==> Draws(t, g)[i].value < Draws(t, g)[i].bound
  {
    if g.Hung? {
      InBounds(t, g.base);
      InBounds(t, g.branch);
    }
    hide TreeTable.Chosen;
  }

  lemma SmallGrowths(t: seq<nat>)
    ensures Follows(t, One) && TreeOf(One) == Rooted([]) && Size(One) == 1 == Nodes(Rooted([]))
    ensures Follows(t, Two) && TreeOf(Two) == Rooted([Rooted([])]) && Size(Two) == 2
  {
  }

  lemma NodesSnoc(kids: seq<Rooted>, r: Rooted)
    ensures Nodes(Rooted(kids + [r])) == Nodes(Rooted(kids)) + Nodes(r)
    ensures Nodes(Rooted(kids)) >= 1 && Nodes(r) >= 1
    ensures Nodes(Rooted(kids)) == |Parents(kids)| && Nodes(r) == |Parents(r.kids)|
  {
    ParentsSnoc(kids, r);
    hide Parents, Moved;
  }

  // One tree hung below the root of another.
  lemma HangOne(t: seq<nat>, base: Growth, branch: Growth) returns (g: Growth)
    requires TreeTable.IsTable(t) && Follows(t, base) && Follows(t, branch)
    requires 2 < Size(base) + Size(branch) < |t|
    ensures Follows(t, g) && TreeOf(g) == Rooted(TreeOf(base).kids + [TreeOf(branch)])
    ensures Size(g) == Size(base) + Size(branch)
  {
    hide *;
    SizePositive(base);
    SizePositive(branch);
    var n := Size(base) + Size(branch);
    OneSplit(n, Size(branch), Size(base));
    var z := TreeTable.ShareNotEmpty(t, n, 1, Size(branch), Size(base));
    g := Hung(z, 1, base, branch);
    HungOnce(t, z, base, branch);
  }

  lemma SizePositive(g: Growth)
    ensures Size(g) >= 1
  {
    LayoutRises(g);
  }

  lemma OneSplit(n: nat, d: nat, m: nat)
    requires n == m + d && d >= 1 && m >= 1
    ensures TreeTable.Split(n, 1, d, m)
  {
  }

  lemma HungOnce(t: seq<nat>, z: nat, base: Growth, branch: Growth)
    requires Follows(t, base) && Follows(t, branch)
    requires var n := Size(base) + Size(branch);
             2 < n < |t| && z < (n - 1) * t[n] && TreeTable.Chosen(t, n, 1, Size(branch), Size(base), z)
    ensures var g := Hung(z, 1, base, branch);
            && Follows(t, g) && TreeOf(g) == Rooted(TreeOf(base).kids + [TreeOf(branch)])
            && Size(g) == Size(base) + Size(branch)
  {
    hide *;
    var g := Hung(z, 1, base, branch);
    LayoutOfHung(g);
    DrawnIs(t, Size(g), z, 1, Size(branch), Size(base));
    FollowsAll(t, g);
    TreeOfOnce(z, base, branch);
  }

  lemma DrawnIs(t: seq<nat>, n: nat, z: nat, j: nat, d: nat, m: nat)
    requires 2 < n < |t| && z < (n - 1) * t[n] && TreeTable.Chosen(t, n, j, d, m, z)
    ensures Drawn(t, n, z, j, d, m)
  {
  }

  lemma TreeOfOnce(z: nat, base: Growth, branch: Growth)
    ensures TreeOf(Hung(z, 1, base, branch)) == Rooted(TreeOf(base).kids + [TreeOf(branch)])
  {
    assert Times(TreeOf(branch), 0) == [];
    assert Times(TreeOf(branch), 1) == [TreeOf(branch)];
  }

  lemma FewKids(kids: seq<Rooted>)
    requires |Parents(kids)| == 1
    ensures kids == []
  {
  }

  // ------------------------------------------------------------ the machine's state

  // What a stack frame stands for: a split whose base is being grown, or one whose base
  // is there and whose branch is being grown.
  datatype Frame = Base(n: nat, z: nat, j: nat, d: nat) | Branch(n: nat, z: nat, j: nat, d: nat, base: Growth)

  ghost predicate Stands(f: Frame, pair: Pair) {
    match f
    case Base(_, _, j, d) => d > 0 && pair == Pair(j, d)
    case Branch(_, _, j, d, _) => pair == Pair(j, 0)
  }

  ghost predicate StackIs(stack: seq<Pair>, fs: seq<Frame>) {
    |stack| == |fs| && forall i :: 0 <= i < |fs| ==> Stands(fs[i], stack[i])
  }

  // The draws made so far for the splits in fs.
  ghost function Made(t: seq<nat>, fs: seq<Frame>): seq<Draw> {
    if fs == [] then []
    else
      var f := fs[|fs| - 1];
      Made(t, fs[..|fs| - 1]) + [Draw(Bound(t, f.n), f.z)] + (if f.Base? then [] else Draws(t, f.base))
  }

  // The splits in fs follow their draws, and with a tree of size n where they stand they
  // end in one of size nn.
  ghost predicate Pending(t: seq<nat>, fs: seq<Frame>, n: nat, nn: nat)
  {
    if fs == [] then 1 <= n == nn < |t|
    else
      var f, rest := fs[|fs| - 1], fs[..|fs| - 1];
      match f
      case Base(whole, z, j, d) => whole == n + j * d && Drawn(t, whole, z, j, d, n) && Pending(t, rest, whole, nn)
      case Branch(whole, z, j, d, base) =>
        && n == d && Follows(t, base) && whole == Size(base) + j * d
        && Drawn(t, whole, z, j, d, Size(base)) && Pending(t, rest, whole, nn)
  }

  // The tree of g lies in p from node r on.
  ghost predicate Placed(p: seq<nat>, r: nat, g: Growth) {
    r + Size(g) <= |p| && forall y :: 1 <= y < Size(g) ==> p[r + y] == r + Layout(g)[y]
  }

  // The bases of fs lie in p one behind the other up to node top, each below the root of
  // the one before; root is that of the last.
  ghost predicate Laid(p: seq<nat>, fs: seq<Frame>, top: nat, root: nat) {
    if fs == [] then top == 0 && root == 0
    else
      var f, rest := fs[|fs| - 1], fs[..|fs| - 1];
      match f
      case Base(_, _, _, _) => Laid(p, rest, top, root)
      case Branch(_, _, _, _, base) =>
        && 1 <= root <= top < |p| && top + 1 == root + Size(base)
        && Placed(p, root, base) && Laid(p, rest, root - 1, p[root])
  }

  // A tree of size n is to be grown next.
  ghost predicate Starting(t: seq<nat>, p: seq<nat>, fs: seq<Frame>, n: nat, top: nat, root: nat, draws: seq<Draw>,
                           nn: nat) {
    Pending(t, fs, n, nn) && Laid(p, fs, top, root) && draws == Made(t, fs)
  }

  // The tree of g has been grown, at root.
  ghost predicate Complete(t: seq<nat>, p: seq<nat>, fs: seq<Frame>, g: Growth, top: nat, root: nat, draws: seq<Draw>,
                           nn: nat) {
    && Pending(t, fs, Size(g), nn) && Follows(t, g)
    && 1 <= root <= top < |p| && top + 1 == root + Size(g)
    && Placed(p, root, g) && Laid(p, fs, root - 1, p[root])
    && draws == Made(t, fs) + Draws(t, g)
  }

  lemma {:induction false} LaidSame(p: seq<nat>, q: seq<nat>, fs: seq<Frame>, top: nat, root: nat)
    requires Laid(p, fs, top, root) && top < |q| && forall i :: 1 <= i <= top && i < |p| ==> q[i] == p[i]
    ensures Laid(q, fs, top, root)
    decreases |fs|
  {
    if fs != [] {
      var f, rest := fs[|fs| - 1], fs[..|fs| - 1];
      if f.Base? {
        LaidSame(p, q, rest, top, root);
      } else {
        LaidSame(p, q, rest, root - 1, p[root]);
      }
    }
  }

  // There is room for what is to be grown.
  lemma {:induction false} Room(t: seq<nat>, p: seq<nat>, fs: seq<Frame>, n: nat, top: nat, root: nat, nn: nat)
    requires Pending(t, fs, n, nn) && Laid(p, fs, top, root)
    ensures 1 <= n && top + n <= nn < |t|
    decreases |fs|
  {
    if fs != [] {
      var f, rest := fs[|fs| - 1], fs[..|fs| - 1];
      match f
      case Base(_, z, j, d) =>
        Room(t, p, rest, n + j * d, top, root, nn);
      case Branch(_, z, j, d, base) =>
        AtLeast(j, d);
        Room(t, p, rest, Size(base) + j * d, root - 1, p[root], nn);
    }
  }

  lemma AtLeast(j: nat, x: nat)
    requires j >= 1
    ensures j * x >= x
  {
  }

  // A split goes on the stack.
  lemma PushBase(t: seq<nat>, p: seq<nat>, fs: seq<Frame>, n: nat, top: nat, root: nat, draws: seq<Draw>, nn: nat,
                 z: nat, j: nat, d: nat, m: nat)
    requires Starting(t, p, fs, n, top, root, draws, nn) && Drawn(t, n, z, j, d, m)
    ensures Starting(t, p, fs + [Base(n, z, j, d)], m, top, root, draws + [Draw((n - 1) * t[n], z)], nn) && d > 0
  {
    assert (fs + [Base(n, z, j, d)])[..|fs|] == fs;
    assert m + j * d == n;
  }

  // A frame with d > 0 comes off the stack: its base has been grown.
  lemma PopBase(t: seq<nat>, p: seq<nat>, fs: seq<Frame>, g: Growth, top: nat, root: nat, draws: seq<Draw>, nn: nat)
    requires Complete(t, p, fs, g, top, root, draws, nn) && fs != [] && fs[|fs| - 1].Base?
    ensures var f := fs[|fs| - 1];
            Starting(t, p, fs[..|fs| - 1] + [Branch(f.n, f.z, f.j, f.d, g)], f.d, top, root, draws, nn)
  {
    hide *;
    var f, rest := fs[|fs| - 1], fs[..|fs| - 1];
    OpenComplete(t, p, fs, g, top, root, draws, nn);
    BasePending(t, fs, g, nn);
    BaseLaid(p, fs, g, top, root);
    BaseMade(t, fs, g);
    Begins(t, p, rest + [Branch(f.n, f.z, f.j, f.d, g)], f.d, top, root, draws, nn);
  }

  lemma BasePending(t: seq<nat>, fs: seq<Frame>, g: Growth, nn: nat)
    requires Pending(t, fs, Size(g), nn) && fs != [] && fs[|fs| - 1].Base? && Follows(t, g)
    ensures var f := fs[|fs| - 1]; Pending(t, fs[..|fs| - 1] + [Branch(f.n, f.z, f.j, f.d, g)], f.d, nn)
  {
    hide Follows, Size, Drawn;
    var f, rest := fs[|fs| - 1], fs[..|fs| - 1];
    assert (rest + [Branch(f.n, f.z, f.j, f.d, g)])[..|rest|] == rest;
  }

  lemma BaseLaid(p: seq<nat>, fs: seq<Frame>, g: Growth, top: nat, root: nat)
    requires fs != [] && fs[|fs| - 1].Base? && 1 <= root <= top < |p| && top + 1 == root + Size(g)
    requires Placed(p, root, g) && Laid(p, fs, root - 1, p[root])
    ensures var f := fs[|fs| - 1]; Laid(p, fs[..|fs| - 1] + [Branch(f.n, f.z, f.j, f.d, g)], top, root)
  {
    hide Placed, Size;
    var f, rest := fs[|fs| - 1], fs[..|fs| - 1];
    assert (rest + [Branch(f.n, f.z, f.j, f.d, g)])[..|rest|] == rest;
  }

  lemma BaseMade(t: seq<nat>, fs: seq<Frame>, g: Growth)
    requires fs != [] && fs[|fs| - 1].Base?
    ensures var f := fs[|fs| - 1];
            Made(t, fs[..|fs| - 1] + [Branch(f.n, f.z, f.j, f.d, g)]) == Made(t, fs) + Draws(t, g)
  {
    hide Draws;
    var f, rest := fs[|fs| - 1], fs[..|fs| - 1];
    assert (rest + [Branch(f.n, f.z, f.j, f.d, g)])[..|rest|] == rest;
  }

  lemma Begins(t: seq<nat>, p: seq<nat>, fs: seq<Frame>, n: nat, top: nat, root: nat, draws: seq<Draw>, nn: nat)
    requires Pending(t, fs, n, nn) && Laid(p, fs, top, root) && draws == Made(t, fs)
    ensures Starting(t, p, fs, n, top, root, draws, nn)
  {
  }

  // A tree of one or two nodes has been added.
  lemma AddSmall(t: seq<nat>, p: seq<nat>, q: seq<nat>, fs: seq<Frame>, n: nat, top: nat, root: nat, draws: seq<Draw>,
                 nn: nat)
    requires Starting(t, p, fs, n, top, root, draws, nn) && 1 <= n <= 2 && top + n < |q|
    requires (forall i :: 0 <= i <= top && i < |p| ==> q[i] == p[i]) && q[top + 1] == root
    requires n == 2 ==> q[top + 2] == top + 1
    ensures Complete(t, q, fs, if n == 1 then One else Two, top + n, top + 1, draws, nn)
  {
    LaidSame(p, q, fs, top, root);
    SmallPlaced(q, top + 1, n);
    assert Made(t, fs) + [] == Made(t, fs);
    hide Pending, Laid, Placed;
  }

  lemma SmallPlaced(q: seq<nat>, r: nat, n: nat)
    requires 1 <= n <= 2 && r + n <= |q| && (n == 2 ==> q[r + 1] == r)
    ensures Placed(q, r, if n == 1 then One else Two)
  {
  }

  // Node y of a tree at l has its copy o further on.
  ghost predicate NodeCopied(p: seq<nat>, q: seq<nat>, l: nat, o: nat, y: nat) {
    && l + y < |p| && l + o + y < |q|
    && q[l + o + y] == if y == 0 then p[l] else p[l + y] + o
  }

  ghost predicate Copied(p: seq<nat>, q: seq<nat>, l: nat, m: nat, o: nat) {
    forall y :: 0 <= y < m ==> NodeCopied(p, q, l, o, y)
  }

  // j copies of the m nodes of a tree at l lie one behind the other, the first in its place.
  ghost predicate AllCopied(p: seq<nat>, q: seq<nat>, l: nat, m: nat, j: nat) {
    j > 0 ==> AllCopied(p, q, l, m, j - 1) && Copied(p, q, l, m, (j - 1) * m)
  }

  // The copies of a placed tree are the copies in the layout.
  lemma {:induction false} CopiesPlaced(p: seq<nat>, q: seq<nat>, r: nat, o: nat, l: nat, a: seq<nat>, j: nat)
    requires o > 0 && l == r + o && l + |a| <= |p| && a != [] && p[l] == r && AllCopied(p, q, l, |a|, j)
    requires forall y :: 1 <= y < |a| ==> p[l + y] == l + a[y]
    ensures j > 0 ==> l + j * |a| <= |q|
    ensures var n := j * |a|; forall x :: 0 <= x < n ==> LiesAt(q, l, x, r, Copies(a, j, o))
  {
    if j > 0 {
      Unfold(j, |a|);
      CopiesPlaced(p, q, r, o, l, a, j - 1);
      var before, n := (j - 1) * |a|, j * |a|;
      assert NodeCopied(p, q, l, before, |a| - 1);
      hide AllCopied;
      forall x | 0 <= x < n
        ensures LiesAt(q, l, x, r, Copies(a, j, o))
      {
        if x < before {
          assert LiesAt(q, l, x, r, Copies(a, j - 1, o));
        } else {
          assert NodeCopied(p, q, l, before, x - before);
        }
      }
    }
  }

  ghost predicate LiesAt(q: seq<nat>, l: nat, x: nat, r: nat, c: seq<nat>) {
    l + x < |q| && x < |c| && q[l + x] == r + c[x]
  }

  lemma OpenPending(t: seq<nat>, fs: seq<Frame>, n: nat, nn: nat)
    requires Pending(t, fs, n, nn) && fs != [] && fs[|fs| - 1].Branch?
    ensures var f, rest := fs[|fs| - 1], fs[..|fs| - 1];
            && f.d == n && f.j >= 1 && Follows(t, f.base) && f.n == Size(f.base) + f.j * n
            && Drawn(t, Size(f.base) + f.j * n, f.z, f.j, n, Size(f.base))
            && Pending(t, rest, Size(f.base) + f.j * n, nn)
  {
    hide Follows, Size;
  }

  lemma OpenLaid(p: seq<nat>, fs: seq<Frame>, top: nat, root: nat)
    requires Laid(p, fs, top, root) && fs != [] && fs[|fs| - 1].Branch?
    ensures var f, rest := fs[|fs| - 1], fs[..|fs| - 1];
            1 <= root <= top < |p| && top + 1 == root + Size(f.base)
            && Placed(p, root, f.base) && Laid(p, rest, root - 1, p[root])
  {
    hide Placed, Size;
  }

  lemma OpenMade(t: seq<nat>, fs: seq<Frame>, g: Growth)
    requires fs != [] && fs[|fs| - 1].Branch?
    requires var f := fs[|fs| - 1]; f.n == Size(f.base) + f.j * Size(g)
    ensures var f, rest := fs[|fs| - 1], fs[..|fs| - 1];
            Made(t, fs) + Draws(t, g) == Made(t, rest) + Draws(t, Hung(f.z, f.j, f.base, g))
  {
    hide *;
    var f, rest := fs[|fs| - 1], fs[..|fs| - 1];
    DrawsHung(t, Hung(f.z, f.j, f.base, g), f.n);
    MadeBranch(t, fs);
    Regroup(Made(t, rest), [Draw(Bound(t, f.n), f.z)], Draws(t, f.base), Draws(t, g));
  }

  lemma DrawsHung(t: seq<nat>, h: Growth, n: nat)
    requires h.Hung? && n == Size(h.base) + h.j * Size(h.branch)
    ensures Draws(t, h) == [Draw(Bound(t, n), h.z)] + Draws(t, h.base) + Draws(t, h.branch)
  {
  }

  lemma MadeBranch(t: seq<nat>, fs: seq<Frame>)
    requires fs != [] && fs[|fs| - 1].Branch?
    ensures var f := fs[|fs| - 1];
            Made(t, fs) == Made(t, fs[..|fs| - 1]) + [Draw(Bound(t, f.n), f.z)] + Draws(t, f.base)
  {
  }

  lemma Regroup(a: seq<Draw>, d: seq<Draw>, b: seq<Draw>, c: seq<Draw>)
    ensures a + d + b + c == a + (d + b + c)
  {
  }

  lemma OpenComplete(t: seq<nat>, p: seq<nat>, fs: seq<Frame>, g: Growth, top: nat, root: nat, draws: seq<Draw>,
                     nn: nat)
    requires Complete(t, p, fs, g, top, root, draws, nn)
    ensures Pending(t, fs, Size(g), nn) && Follows(t, g) && 1 <= root <= top < |p| && top + 1 == root + Size(g)
    ensures Placed(p, root, g) && Laid(p, fs, root - 1, p[root]) && draws == Made(t, fs) + Draws(t, g)
  {
  }

  // A frame with d == 0 comes off the stack once the copies are there.
  lemma PopBranch(t: seq<nat>, p: seq<nat>, q: seq<nat>, fs: seq<Frame>, g: Growth, top: nat, root: nat,
                  draws: seq<Draw>, nn: nat)
    requires Complete(t, p, fs, g, top, root, draws, nn) && fs != [] && fs[|fs| - 1].Branch?
    requires |q| == |p| && forall i :: 0 <= i <= top ==> q[i] == p[i]
    requires AllCopied(p, q, root, Size(g), fs[|fs| - 1].j)
    ensures var f := fs[|fs| - 1];
            && f.j >= 1 && p[root] >= 1
            && Complete(t, q, fs[..|fs| - 1], Hung(f.z, f.j, f.base, g), root + f.j * Size(g) - 1, p[root], draws, nn)
  {
    hide *;
    OpenComplete(t, p, fs, g, top, root, draws, nn);
    var f, rest := fs[|fs| - 1], fs[..|fs| - 1];
    var r := p[root];
    OpenPending(t, fs, Size(g), nn);
    OpenLaid(p, fs, root - 1, r);
    OpenMade(t, fs, g);
    LaidSame(p, q, rest, r - 1, p[r]);
    PlacedHung(p, q, r, root, top, f, g);
    Together(t, q, rest, f, g, r, root, draws, nn);
  }

  // The whole tree of a split, from its parts.
  lemma Together(t: seq<nat>, q: seq<nat>, rest: seq<Frame>, f: Frame, g: Growth, r: nat, root: nat, draws: seq<Draw>,
                 nn: nat)
    requires f.Branch? && f.j >= 1 && Follows(t, f.base) && Follows(t, g) && 1 <= r && r + Size(f.base) == root
    requires Drawn(t, Size(f.base) + f.j * Size(g), f.z, f.j, Size(g), Size(f.base))
    requires Pending(t, rest, Size(f.base) + f.j * Size(g), nn) && r < |q| && Laid(q, rest, r - 1, q[r])
    requires Placed(q, r, Hung(f.z, f.j, f.base, g)) && draws == Made(t, rest) + Draws(t, Hung(f.z, f.j, f.base, g))
    ensures root + f.j * Size(g) >= 1
    ensures Complete(t, q, rest, Hung(f.z, f.j, f.base, g), root + f.j * Size(g) - 1, r, draws, nn)
  {
    hide *;
    var h := Hung(f.z, f.j, f.base, g);
    SizePositive(f.base);
    LayoutOfHung(h);
    PlacedFits(q, r, h);
    FollowsAll(t, h);
    CloseComplete(t, q, rest, h, root + f.j * Size(g) - 1, r, draws, nn);
  }

  lemma FollowsAll(t: seq<nat>, h: Growth)
    requires h.Hung? && Follows(t, h.base) && Follows(t, h.branch)
    requires Drawn(t, Size(h), h.z, h.j, Size(h.branch), Size(h.base))
    ensures Follows(t, h)
  {
  }

  lemma CloseComplete(t: seq<nat>, p: seq<nat>, fs: seq<Frame>, g: Growth, top: nat, root: nat, draws: seq<Draw>,
                      nn: nat)
    requires Pending(t, fs, Size(g), nn) && Follows(t, g) && 1 <= root <= top < |p| && top + 1 == root + Size(g)
    requires Placed(p, root, g) && Laid(p, fs, root - 1, p[root]) && draws == Made(t, fs) + Draws(t, g)
    ensures Complete(t, p, fs, g, top, root, draws, nn)
  {
  }

  lemma PlacedFits(p: seq<nat>, r: nat, g: Growth)
    requires Placed(p, r, g)
    ensures r + Size(g) <= |p|
  {
  }

  lemma PlacedHung(p: seq<nat>, q: seq<nat>, r: nat, root: nat, top: nat, f: Frame, g: Growth)
    requires f.Branch? && f.j >= 1 && 1 <= r && r + Size(f.base) == root <= top < |p| && p[root] == r
    requires Placed(p, r, f.base) && Placed(p, root, g) && top + 1 == root + Size(g)
    requires |q| == |p| && forall i :: 0 <= i <= top ==> q[i] == p[i]
    requires AllCopied(p, q, root, Size(g), f.j)
    ensures Placed(q, r, Hung(f.z, f.j, f.base, g))
  {
    LayoutRises(f.base);
    PlacedBelow(p, root, g);
    hide Placed, Layout, AllCopied, Size;
    CopiesPlaced(p, q, r, Size(f.base), root, Layout(g), f.j);
    HungPlaced(p, q, r, root, f, g);
  }

  lemma PlacedBelow(p: seq<nat>, r: nat, g: Growth)
    requires Placed(p, r, g)
    ensures r + Size(g) <= |p| && forall y :: 1 <= y < |Layout(g)| ==> p[r + y] == r + Layout(g)[y]
  {
  }

  lemma HungPlaced(p: seq<nat>, q: seq<nat>, r: nat, root: nat, f: Frame, g: Growth)
    requires f.Branch? && r + Size(f.base) == root && root + f.j * Size(g) <= |q| == |p|
    requires Placed(p, r, f.base) && forall i :: r <= i < root ==> q[i] == p[i]
    requires var n := f.j * Size(g);
             forall x :: 0 <= x < n ==> LiesAt(q, root, x, r, Copies(Layout(g), f.j, Size(f.base)))
    ensures Placed(q, r, Hung(f.z, f.j, f.base, g))
  {
    hide *;
    var h, n, c := Hung(f.z, f.j, f.base, g), f.j * Size(g), Copies(Layout(g), f.j, Size(f.base));
    LayoutOfHung(h);
    PlacedBelow(p, r, f.base);
    forall y | 1 <= y < Size(h)
      ensures q[r + y] == r + Layout(h)[y]
    {
      if y >= Size(f.base) {
        LiesHere(q, root, y - Size(f.base), r, c);
      }
    }
    PlacedIs(q, r, h);
  }

  lemma LayoutOfHung(h: Growth)
    requires h.Hung?
    ensures Layout(h) == Layout(h.base) + Copies(Layout(h.branch), h.j, Size(h.base))
    ensures Size(h) == Size(h.base) + h.j * Size(h.branch) && |Layout(h)| == Size(h) && |Layout(h.base)| == Size(h.base)
  {
  }

  lemma LiesHere(q: seq<nat>, l: nat, x: nat, r: nat, c: seq<nat>)
    requires LiesAt(q, l, x, r, c)
    ensures l + x < |q| && x < |c| && q[l + x] == r + c[x]
  {
  }

  lemma PlacedIs(p: seq<nat>, r: nat, g: Growth)
    requires r + Size(g) <= |p| && |Layout(g)| == Size(g)
    requires forall y :: 1 <= y < Size(g) ==> p[r + y] == r + Layout(g)[y]
    ensures Placed(p, r, g)
  {
  }

  // Once all nn nodes are there, what is left on the stack has nothing more to do.
  lemma {:induction false} AllThere(t: seq<nat>, p: seq<nat>, fs: seq<Frame>, g: Growth, top: nat, root: nat,
                                    draws: seq<Draw>, nn: nat) returns (h: Growth)
    requires Complete(t, p, fs, g, top, root, draws, nn) && top == nn
    ensures Size(h) == nn && Follows(t, h) && Draws(t, h) == draws && Placed(p, 1, h)
    decreases |fs|
  {
    hide *;
    OpenComplete(t, p, fs, g, top, root, draws, nn);
    if fs == [] {
      NothingLeft(t, p, fs, Size(g), root - 1, p[root], nn);
      assert Made(t, fs) + Draws(t, g) == Draws(t, g);
      h := g;
    } else {
      var f, rest := fs[|fs| - 1], fs[..|fs| - 1];
      NoMore(t, p, fs, g, top, root, nn);
      InPlace(p, root, Size(g));
      PopBranch(t, p, p, fs, g, top, root, draws, nn);
      h := AllThere(t, p, rest, Hung(f.z, f.j, f.base, g), top, p[root], draws, nn);
    }
  }

  lemma NothingLeft(t: seq<nat>, p: seq<nat>, fs: seq<Frame>, n: nat, top: nat, root: nat, nn: nat)
    requires fs == [] && Pending(t, fs, n, nn) && Laid(p, fs, top, root)
    ensures n == nn && top == 0 && Made(t, fs) == []
  {
  }

  lemma InPlace(p: seq<nat>, l: nat, m: nat)
    requires l + m <= |p|
    ensures AllCopied(p, p, l, m, 0) && AllCopied(p, p, l, m, 1)
  {
    assert Copied(p, p, l, m, 0);
  }

  lemma NoMore(t: seq<nat>, p: seq<nat>, fs: seq<Frame>, g: Growth, top: nat, root: nat, nn: nat)
    requires Pending(t, fs, Size(g), nn) && 1 <= root <= top < |p| && top + 1 == root + Size(g)
    requires Laid(p, fs, root - 1, p[root]) && top == nn && fs != []
    ensures fs[|fs| - 1].Branch? && fs[|fs| - 1].j == 1
  {
    var f, rest := fs[|fs| - 1], fs[..|fs| - 1];
    match f
    case Base(_, z, j, d) =>
      Room(t, p, rest, Size(g) + j * d, root - 1, p[root], nn);
      AtLeast(j, d);
    case Branch(_, z, j, d, base) =>
      var r := p[root];
      Room(t, p, rest, Size(base) + j * d, r - 1, p[r], nn);
      if j >= 2 {
        AtLeast(j - 1, d);
        Unfold(j, d);
      }
  }

  // The copies fit.
  lemma CopiesFit(t: seq<nat>, p: seq<nat>, fs: seq<Frame>, g: Growth, top: nat, root: nat, draws: seq<Draw>, nn: nat)
    requires Complete(t, p, fs, g, top, root, draws, nn) && fs != [] && fs[|fs| - 1].Branch?
    ensures var f, m := fs[|fs| - 1], Size(g);
            && 1 <= root <= top < |p| && top + 1 == root + m
            && f.j >= 1 && 1 <= p[root] < root && top <= root + f.j * m - 1 <= nn
            && (fs[..|fs| - 1] == [] ==> root + f.j * m - 1 == nn)
  {
    hide *;
    var f, rest := fs[|fs| - 1], fs[..|fs| - 1];
    OpenComplete(t, p, fs, g, top, root, draws, nn);
    var r := p[root];
    OpenPending(t, fs, Size(g), nn);
    OpenLaid(p, fs, root - 1, r);
    AtLeast(f.j, Size(g));
    SizePositive(f.base);
    Room(t, p, rest, Size(f.base) + f.j * Size(g), r - 1, p[r], nn);
    if rest == [] {
      NothingLeft(t, p, rest, Size(f.base) + f.j * Size(g), r - 1, p[r], nn);
    }
  }

  // ------------------------------------------------------------------ the tree array

  class Tree {
    var top: nat
    var root: nat
    var p: array<nat>

    constructor (sz: nat)
      requires sz >= 1
      ensures fresh(p) && p.Length == sz && top == 0 && root == 0
    {
      top, root := 0, 0;
      p := new nat[sz](_ => 0);
    }

    method Reset()
      modifies this`top, this`root
      ensures top == 0 && root == 0
    {
      root := 0;
      top := 0;
    }

    // Goes back to the tree that the current one hangs in.
    method TreePop()
      requires root < p.Length
      modifies this`root
      ensures root == p[old(root)]
    {
      root := p[root];
    }

    // Adds a tree of one or two nodes below the current root and makes it current.
    method AddTree(sz: nat)
      requires 1 <= sz <= 2 && top + sz < p.Length
      modifies this`top, this`root, p
      ensures top == old(top) + sz && root == old(top) + 1
      ensures p[old(top) + 1] == old(root) && (sz == 2 ==> p[old(top) + 2] == old(top) + 1)
      ensures forall i :: 0 <= i <= old(top) ==> p[i] == old(p[i])
    {
      p[top + 1] := root;
      root := top + 1;
      top := top + sz;
      if sz > 1 {
        p[top] := top - 1;
      }
    }

    function TreeSize(): nat
      requires root <= top
      reads this
    {
      top - root + 1
    }

    // Lays out copies of the current tree behind it until there are j of them.
    method TreeDup(j: nat)
      requires 1 <= root <= top && j >= 1 && root + j * TreeSize() <= p.Length
      modifies this`top, p
      ensures top + 1 == root + j * old(TreeSize())
      ensures forall i :: 0 <= i <= old(top) ==> p[i] == old(p[i])
      ensures AllCopied(old(p[..]), p[..], root, old(TreeSize()), j)
    {
      hide FromBefore, AllCopied;
      var m := TreeSize();
      var l := root;
      var ll := p[root];
      AtLeast(j, m);
      Unfold(j, m);
      ghost var p0 := p[..];
      var ls := l + (j - 1) * m - 1;
      DupLoop(l, ls, m, ll);
      top := ls + m;
      AllTranslated(p0, p[..], l, m, j, l + j * m);
    }

    // The loop of TreeDup: every node comes from the one m before it.
    method DupLoop(l: nat, ls: nat, m: nat, ll: nat)
      requires 0 < m && l <= ls + 1 && ls + m < p.Length && ll == p[l]
      modifies p
      ensures forall x :: 0 <= x < l + m ==> p[x] == old(p[x])
      ensures forall x :: l + m <= x <= ls + m ==> FromBefore(old(p[..]), p[..], l, m, x)
    {
      hide FromBefore;
      ghost var p0 := p[..];
      var i := l;
      while i <= ls
        invariant l <= i <= ls + 1
        invariant forall x :: 0 <= x < l + m ==> p[x] == p0[x]
        invariant forall x :: l + m <= x < i + m ==> FromBefore(p0, p[..], l, m, x)
      {
        ghost var q := p[..];
        if (i - l) % m == 0 {
          p[i + m] := ll;
        } else {
          p[i + m] := p[i] + m;
        }
        OneMore(p0, q, p[..], l, m, i + m);
        i := i + 1;
      }
    }
  }

  // Node x comes from the node m before it, or starts a copy.
  ghost predicate FromBefore(p: seq<nat>, q: seq<nat>, l: nat, m: nat, x: nat) {
    && 0 < m && l + m <= x < |q| && l < |p|
    && q[x] == if (x - m - l) % m == 0 then p[l] else q[x - m] + m
  }

  lemma OneMore(p: seq<nat>, q: seq<nat>, q': seq<nat>, l: nat, m: nat, x: nat)
    requires 0 < m && l + m <= x < |q| && l < |p| && (forall u :: l + m <= u < x ==> FromBefore(p, q, l, m, u))
    requires q' == q[x := if (x - m - l) % m == 0 then p[l] else q[x - m] + m]
    ensures forall u :: l + m <= u <= x ==> FromBefore(p, q', l, m, u)
  {
    forall u | l + m <= u < x
      ensures FromBefore(p, q', l, m, u)
    {
      assert FromBefore(p, q, l, m, u);
    }
  }

  // Node y of copy k hangs from the same place in copy k as the original does.
  lemma {:induction false} AllTranslated(p: seq<nat>, q: seq<nat>, l: nat, m: nat, j: nat, hi: nat)
    requires m > 0 && l + m <= |p| && j >= 1 && hi == l + j * m <= |q|
    requires forall x :: l <= x < l + m && x < |q| ==> q[x] == p[x]
    requires forall x :: l + m <= x < hi ==> FromBefore(p, q, l, m, x)
    ensures AllCopied(p, q, l, m, j)
  {
    Unfold(j, m);
    if j == 1 {
      assert AllCopied(p, q, l, m, 0) && Copied(p, q, l, m, 0);
    } else {
      AtLeast(j - 1, m);
      Unfold(j - 1, m);
      AllTranslated(p, q, l, m, j - 1, hi - m);
      NextCopy(p, q, l, m, j - 2, (j - 2) * m, (j - 1) * m);
    }
  }

  lemma NextCopy(p: seq<nat>, q: seq<nat>, l: nat, m: nat, k: nat, o: nat, o': nat)
    requires m > 0 && o == k * m && o' == o + m && l + o' + m <= |q| && Copied(p, q, l, m, o)
    requires forall x :: l + o' <= x < l + o' + m ==> FromBefore(p, q, l, m, x)
    ensures Copied(p, q, l, m, o')
  {
    forall y | 0 <= y < m
      ensures NodeCopied(p, q, l, o', y)
    {
      assert NodeCopied(p, q, l, o, y);
      ModOffset(k, m, y);
      assert FromBefore(p, q, l, m, l + o' + y);
    }
  }

  lemma ModOffset(k: nat, m: nat, y: nat)
    requires m > 0 && y < m
    ensures (k * m + y) % m == y
  {
    var x := k * m + y;
    var q, r := x / m, x % m;
    assert x == q * m + r;
    assert (k - q) * m == r - y;
    if k > q {
      AtLeast(k - q, m);
    } else if k < q {
      assert (q - k) * m == y - r;
      AtLeast(q - k, m);
    }
  }

  // ------------------------------------------------------------------ the machine

  // Random number k, below bound, which must not be zero.
  method RandomBelow(draw: Source, k: nat, bound: nat) returns (z: nat)
    requires IsSource(draw) && bound > 0
    ensures z == draw(k, bound) < bound
  {
    z := draw(k, bound);
  }

  // The split phase: splits the pending size until a tree of one or two nodes is
  // left to add. It leaves the stack empty, so that the next pop would fail, exactly when
  // it found it empty and had nothing to split.
  method SplitDown(t: array<nat>, n0: nat, stack0: seq<Pair>, draw: Source, k0: nat, ghost fs0: seq<Frame>,
                   ghost p: seq<nat>, ghost top: nat, ghost root: nat, ghost draws0: seq<Draw>, ghost nn: nat)
    returns (n: nat, stack: seq<Pair>, k: nat, ghost fs: seq<Frame>, ghost draws: seq<Draw>)
    requires TreeTable.IsTable(t[..]) && n0 <= nn < t.Length && StackIs(stack0, fs0) && IsSource(draw)
    requires Starting(t[..], p, fs0, n0, top, root, draws0, nn) && k0 == |draws0| && Taped(draw, draws0, 0)
    ensures 1 <= n <= 2 && StackIs(stack, fs) && Starting(t[..], p, fs, n, top, root, draws, nn)
    ensures k == |draws| && Taped(draw, draws, 0)
    ensures stack == [] <==> stack0 == [] && n0 <= 2
  {
    hide TreeTable.IsTable, TreeTable.Chosen, Starting, Taped, IsSource;
    n, stack, k, fs, draws := n0, stack0, k0, fs0, draws0;
    while n > 2
      invariant n <= nn && StackIs(stack, fs) && Starting(t[..], p, fs, n, top, root, draws, nn)
      invariant k == |draws| && Taped(draw, draws, 0)
      invariant n0 <= 2 ==> stack == stack0 && n == n0
      invariant n0 > 2 ==> n == n0 || stack != []
      decreases n
    {
      TreeTable.DrawRange(t[..], n);
      var v := (n - 1) * t[n];
      var z := RandomBelow(draw, k, v);
      var j, d, m := TreeTable.Choose(t, n, z);
      PushBase(t[..], p, fs, n, top, root, draws, nn, z, j, d, m);
      SplitSmaller(t[..], n, j, d, m, z);
      TapedNext(draw, draws, v);
      stack := stack + [Pair(j, d)];
      fs, draws := fs + [Base(n, z, j, d)], draws + [Draw(v, z)];
      k := k + 1;
      n := m;
    }
    StartingSize(t[..], p, fs, n, top, root, draws, nn);
  }

  lemma TapedNext(draw: Source, ds: seq<Draw>, bound: nat)
    requires Taped(draw, ds, 0)
    ensures Taped(draw, ds + [Draw(bound, draw(|ds|, bound))], 0)
  {
  }

  lemma SplitSmaller(t: seq<nat>, n: nat, j: nat, d: nat, m: nat, z: nat)
    requires n <= |t| && TreeTable.Chosen(t, n, j, d, m, z)
    ensures m < n
  {
  }

  lemma StartingSize(t: seq<nat>, p: seq<nat>, fs: seq<Frame>, n: nat, top: nat, root: nat, draws: seq<Draw>, nn: nat)
    requires Starting(t, p, fs, n, top, root, draws, nn)
    ensures n >= 1 && top + n <= nn
  {
    Room(t, p, fs, n, top, root, nn);
  }

  // The frame on top asks for j copies of the current tree, which is one of them.
  method Multiply(tree: Tree, j: nat, ghost t: seq<nat>, ghost fs: seq<Frame>, ghost g: Growth,
                  ghost draws: seq<Draw>, ghost nn: nat) returns (ghost h: Growth)
    requires Complete(t, tree.p[..], fs, g, tree.top, tree.root, draws, nn) && nn < tree.p.Length
    requires fs != [] && fs[|fs| - 1].Branch? && fs[|fs| - 1].j == j
    modifies tree`top, tree.p
    ensures tree.root < tree.p.Length && old(tree.top) <= tree.top <= nn
    ensures Complete(t, tree.p[..], fs[..|fs| - 1], h, tree.top, tree.p[tree.root], draws, nn)
    ensures fs[..|fs| - 1] == [] ==> tree.top == nn
  {
    hide Complete, Pending, Laid, Placed, Follows, Draws, Made, Layout, AllCopied, Size;
    ghost var p0 := tree.p[..];
    CopiesFit(t, p0, fs, g, tree.top, tree.root, draws, nn);
    if j > 1 {
      assert tree.TreeSize() == Size(g);
      tree.TreeDup(j);
    } else {
      InPlace(p0, tree.root, Size(g));
    }
    PopBranch(t, p0, tree.p[..], fs, g, old(tree.top), tree.root, draws, nn);
    h := Hung(fs[|fs| - 1].z, j, fs[|fs| - 1].base, g);
  }

  // Fills the tree with nn nodes. Whatever the draws are, the run ends and never writes
  // outside the array; it pops an empty stack exactly if nn is less than three. The tree
  // is the one that the draws stand for.
  method GenTree(nn: nat, t: array<nat>, tree: Tree, draw: Source) returns (ok: bool, ghost grown: Growth)
    requires nn >= 1 && TreeTable.IsTable(t[..]) && t.Length == nn + 1 && IsSource(draw)
    requires tree.top == 0 && tree.root == 0 && tree.p.Length == nn + 1 && tree.p != t
    modifies tree, tree.p
    ensures tree.p == old(tree.p)
    ensures ok <==> nn >= 3
    ensures ok ==> tree.top == nn && Size(grown) == nn && Follows(t[..], grown)
    ensures ok ==> Taped(draw, Draws(t[..], grown), 0)
    ensures ok ==> Nodes(TreeOf(grown)) == nn
    ensures ok ==> forall i :: 2 <= i <= nn ==> tree.p[i] == 1 + Parents(TreeOf(grown).kids)[i - 1]
  {
    hide TreeTable.IsTable, Starting, Complete, Layout, Parents, Taped, IsSource;
    var n, k := nn, 0;
    var stack: seq<Pair> := [];
    ghost var fs: seq<Frame> := [];
    ghost var draws: seq<Draw> := [];
    grown := One;
    StartAll(t[..], tree.p[..], nn, draw);
    while true
      invariant tree.p == old(tree.p) && t[..] == old(t[..]) && StackIs(stack, fs)
      invariant Starting(t[..], tree.p[..], fs, n, tree.top, tree.root, draws, nn)
      invariant stack == [] && n <= 2 <==> nn <= 2
      invariant k == |draws| && Taped(draw, draws, 0)
      decreases nn - tree.top
    {
      StartingSize(t[..], tree.p[..], fs, n, tree.top, tree.root, draws, nn);
      n, stack, k, fs, draws := SplitDown(t, n, stack, draw, k, fs, tree.p[..], tree.top, tree.root, draws, nn);
      StartingSize(t[..], tree.p[..], fs, n, tree.top, tree.root, draws, nn);
      ghost var p0, top0, root0 := tree.p[..], tree.top, tree.root;
      tree.AddTree(n);
      AddSmall(t[..], p0, tree.p[..], fs, n, top0, root0, draws, nn);
      grown := if n == 1 then One else Two;
      label Inner:
      while true
        invariant tree.p == old(tree.p) && t[..] == old(t[..]) && StackIs(stack, fs)
        invariant stack == [] <==> nn <= 2
        invariant Complete(t[..], tree.p[..], fs, grown, tree.top, tree.root, draws, nn)
        invariant old@Inner(tree.top) <= tree.top
        decreases |stack|
      {
        if stack == [] {
          return false, grown;
        }
        var f := stack[|stack| - 1];
        n := f.d;
        if n != 0 {
          PopBase(t[..], tree.p[..], fs, grown, tree.top, tree.root, draws, nn);
          stack := stack[..|stack| - 1];
          stack := stack + [Pair(f.j, 0)];
          ghost var b := fs[|fs| - 1];
          fs := fs[..|fs| - 1] + [Branch(b.n, b.z, b.j, b.d, grown)];
          break;
        }
        grown := Multiply(tree, f.j, t[..], fs, grown, draws, nn);
        stack, fs := stack[..|stack| - 1], fs[..|fs| - 1];
        if tree.top == nn {
          grown := AllThere(t[..], tree.p[..], fs, grown, tree.top, tree.p[tree.root], draws, nn);
          LayoutIs(grown);
          return true, grown;
        }
        tree.TreePop();
      }
    }
  }

  lemma StartAll(t: seq<nat>, p: seq<nat>, nn: nat, draw: Source)
    requires 1 <= nn < |t|
    ensures Starting(t, p, [], nn, 0, 0, [], nn) && Taped(draw, [], 0)
  {
  }

  // ------------------------------------------------------------------ the edges

  type TreeEdge = (nat, nat)

  // The edges, parent first, in order of the child.
  method WriteTree(tree: Tree) returns (es: seq<TreeEdge>)
    requires tree.top < tree.p.Length
    ensures |es| == if tree.top >= 2 then tree.top - 1 else 0
    ensures forall k :: 0 <= k < |es| ==> es[k] == (tree.p[k + 2], k + 2)
  {
    es := [];
    var i := 2;
    while i <= tree.top
      invariant 2 <= i && (i <= tree.top + 1 || i == 2)
      invariant |es| == i - 2
      invariant forall k :: 0 <= k < |es| ==> es[k] == (tree.p[k + 2], k + 2)
    {
      es := es + [(tree.p[i], i)];
      i := i + 1;
    }
  }

  ghost predicate Walk(es: seq<TreeEdge>, w: seq<nat>) {
    |w| > 0 && forall i :: 0 <= i < |w| - 1 ==> (w[i], w[i + 1]) in es
  }

  ghost predicate Reached(es: seq<TreeEdge>, v: nat) {
    exists w :: Walk(es, w) && w[0] == 1 && w[|w| - 1] == v
  }

  // nn - 1 edges, of which one enters each of the nodes 2..nn, and every node
  // 1..nn is reached from node 1: a rooted tree on exactly those nodes.
  ghost predicate IsRootedTree(es: seq<TreeEdge>, nn: nat) {
    && |es| == nn - 1
    && (forall i :: 0 <= i < |es| ==> es[i].1 == i + 2 && 1 <= es[i].0 < es[i].1)
    && (forall v :: 1 <= v <= nn ==> Reached(es, v))
  }

  lemma {:induction false} WalkTo(es: seq<TreeEdge>, v: nat)
    requires forall i :: 0 <= i < |es| ==> es[i].1 == i + 2 && 1 <= es[i].0 < es[i].1
    requires 1 <= v <= |es| + 1
    ensures Reached(es, v)
  {
    if v == 1 {
      assert Walk(es, [1]);
    } else {
      var u := es[v - 2].0;
      WalkTo(es, u);
      var w :| Walk(es, w) && w[0] == 1 && w[|w| - 1] == u;
      var w' := w + [v];
      assert es[v - 2] == (u, v);
      assert Walk(es, w') && w'[0] == 1 && w'[|w'| - 1] == v;
    }
  }

  // The edges are those of the tree r, when node y of it is called y + 1.
  ghost predicate EdgesAre(es: seq<TreeEdge>, r: Rooted) {
    && Nodes(r) == |es| + 1
    && forall y :: 1 <= y < Nodes(r) ==> es[y - 1] == (1 + Parents(r.kids)[y], 1 + y)
  }

  // One random rooted tree on nodes 1..nn; none if that would pop an empty stack. It is
  // the tree that the random numbers stand for, by the table t.
  method MakeRandomTree(nn: nat, draw: Source)
    returns (r: Option<seq<TreeEdge>>, ghost t: seq<nat>, ghost grown: Growth)
    requires nn >= 1 && IsSource(draw)
    ensures r.Some? <==> nn >= 3
    ensures r.Some? ==> IsRootedTree(r.value, nn)
    ensures TreeTable.IsTable(t) && |t| == nn + 1
    ensures r.Some? ==>
              && Follows(t, grown) && Size(grown) == nn && Taped(draw, Draws(t, grown), 0)
              && EdgesAre(r.value, TreeOf(grown))
  {
    hide TreeTable.IsTable, Parents, Follows, Taped, IsSource;
    var table := TreeTable.GenCnt(nn);
    t := table[..];
    var tree := new Tree(nn + 1);
    tree.Reset();
    var ok;
    ok, grown := GenTree(nn, table, tree, draw);
    if !ok {
      return None, t, grown;
    }
    LayoutIs(grown);
    LayoutRises(grown);
    var es := EdgesOf(tree, nn);
    return Some(es), t, grown;
  }

  method EdgesOf(tree: Tree, nn: nat) returns (es: seq<TreeEdge>)
    requires tree.top == nn >= 1 && nn < tree.p.Length && forall i :: 2 <= i <= nn ==> 1 <= tree.p[i] < i
    ensures IsRootedTree(es, nn) && forall k :: 0 <= k < |es| ==> es[k] == (tree.p[k + 2], k + 2)
  {
    es := WriteTree(tree);
    forall v | 1 <= v <= nn
      ensures Reached(es, v)
    {
      WalkTo(es, v);
    }
  }
}
