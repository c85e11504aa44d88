// View paths: a list of ordered sets searched as one, where a dictionary covers the
// ones after it.
module ViewPath {
  import opened Links
  import opened SplayTree
  import opened OrderedSet

  datatype Move = DtFirst | DtLast | DtNext | DtPrev

  // The dictionaries of the path are in order and share no link; sets[i] are the
  // links of the i-th, cs[i] its contents, and all the links there are.
  ghost predicate PathOk(k: Disc, view: seq<Dt>, sets: seq<set<Link>>, cs: seq<seq<Link>>, all: set<Link>)
    reads view, all
  {
    && |view| == |sets| == |cs|
    && (forall i :: 0 <= i < |view| ==> sets[i] <= all && Nodes(view[i].tree) <= sets[i])
    && (forall i :: 0 <= i < |view| ==> view[i].Valid() && view[i].disc == k && view[i].Contents() == cs[i])
    && (forall i, j :: 0 <= i < j < |view| ==> view[i] != view[j] && sets[i] !! sets[j])
  }

  predicate Upward(m: Move) {
    m == DtFirst || m == DtNext
  }

  // Key k is one the move may go to from key.
  predicate Ahead(m: Move, key: int, v: int) {
    match m
    case DtFirst => true
    case DtLast => true
    case DtNext => key < v
    case DtPrev => v < key
  }

  predicate NotAfter(m: Move, a: int, b: int) {
    if Upward(m) then a <= b else b <= a
  }

  ghost predicate HasKey(k: Disc, s: seq<Link>, key: int) {
    exists x :: x in s && Key(k, x) == key
  }

  // n is the link of s that the move reaches from key, null if there is none.
  ghost predicate Adjacent(k: Disc, s: seq<Link>, m: Move, key: int, n: Link?) {
    if n == null then forall x :: x in s ==> !Ahead(m, key, Key(k, x))
    else
      && n in s && Ahead(m, key, Key(k, n))
      && (forall x :: x in s && Ahead(m, key, Key(k, x)) ==> NotAfter(m, Key(k, n), Key(k, x)))
  }

  // The same over a path: n is in the p-th dictionary and no earlier one has its key.
  ghost predicate AdjacentIn(k: Disc, cs: seq<seq<Link>>, m: Move, key: int, n: Link?, p: int) {
    if n == null then forall i, x :: 0 <= i < |cs| && x in cs[i] ==> !Ahead(m, key, Key(k, x))
    else
      && 0 <= p < |cs| && n in cs[p] && Ahead(m, key, Key(k, n))
      && (forall i, x :: 0 <= i < |cs| && x in cs[i] && Ahead(m, key, Key(k, x)) ==> NotAfter(m, Key(k, n), Key(k, x)))
      && (forall i :: 0 <= i < p ==> !HasKey(k, cs[i], Key(k, n)))
  }

  lemma SortedTail(k: Disc, s: seq<Link>)
    requires Sorted(k, s) && s != []
    ensures Sorted(k, s[1..]) && forall x :: x in s[1..] ==> Key(k, s[0]) < Key(k, x)
  {
  }

  // A smaller link in front comes to the smaller ones.
  lemma CutSmaller(k: Disc, x: Link, t: seq<Link>, key: int)
    requires Key(k, x) < key && t == Below(k, t, key) + At(k, t, key) + Above(k, t, key)
    ensures [x] + t == Below(k, [x] + t, key) + At(k, [x] + t, key) + Above(k, [x] + t, key)
  {
    CutFront(k, [x], t, key);
    hide Below, At, Above;
    Regroup([x], Below(k, t, key), At(k, t, key), Above(k, t, key));
  }

  lemma Regroup(x: seq<Link>, a: seq<Link>, m: seq<Link>, b: seq<Link>)
    ensures x + (a + m + b) == (x + a) + m + b
  {
  }

  // Before larger links only, it is at or above the key.
  lemma CutRest(k: Disc, x: Link, t: seq<Link>, key: int)
    requires Key(k, x) >= key && forall y :: y in t ==> Key(k, x) < Key(k, y)
    ensures [x] + t == Below(k, [x] + t, key) + At(k, [x] + t, key) + Above(k, [x] + t, key)
  {
    if Key(k, x) == key {
      Cut(k, [], [x], t, key);
      assert [] + [x] + t == [x] + t;
    } else {
      Cut(k, [], [], [x] + t, key);
      assert [] + [] + ([x] + t) == [x] + t;
    }
  }

  lemma {:induction false} SortedCut(k: Disc, s: seq<Link>, key: int)
    requires Sorted(k, s)
    ensures s == Below(k, s, key) + At(k, s, key) + Above(k, s, key)
  {
    if s != [] {
      var x, t := s[0], s[1..];
      assert s == [x] + t;
      SortedTail(k, s);
      hide Sorted, Below, At, Above;
      if Key(k, x) < key {
        SortedCut(k, t, key);
        CutSmaller(k, x, t, key);
      } else {
        CutRest(k, x, t, key);
      }
    } else {
      assert Below(k, s, key) == [] && At(k, s, key) == [] && Above(k, s, key) == [];
    }
  }

  lemma SortedPart(k: Disc, a: seq<Link>, b: seq<Link>, c: seq<Link>)
    requires Sorted(k, a + b + c)
    ensures Sorted(k, a) && Sorted(k, c)
  {
    var s := a + b + c;
    forall i, j | 0 <= i < j < |a|
      ensures Key(k, a[i]) < Key(k, a[j])
    {
      assert s[i] == a[i] && s[j] == a[j];
    }
    forall i, j | 0 <= i < j < |c|
      ensures Key(k, c[i]) < Key(k, c[j])
    {
      var o := |a| + |b|;
      assert s[o + i] == c[i] && s[o + j] == c[j];
    }
  }

  lemma SortedEnds(k: Disc, s: seq<Link>, key: int)
    requires Sorted(k, s)
    ensures Adjacent(k, s, DtFirst, key, First(s)) && Adjacent(k, s, DtLast, key, Last(s))
  {
  }

  // The end of the part of s that lies ahead is the link next to key.
  lemma EndOfPart(k: Disc, s: seq<Link>, part: seq<Link>, key: int, n: Link?)
    ensures Adjacent(k, part, DtFirst, key, n) && (forall x :: x in part <==> x in s && key < Key(k, x))
            ==> Adjacent(k, s, DtNext, key, n)
    ensures Adjacent(k, part, DtLast, key, n) && (forall x :: x in part <==> x in s && Key(k, x) < key)
            ==> Adjacent(k, s, DtPrev, key, n)
  {
  }

  lemma OneAdjacent(k: Disc, s: seq<Link>, key: int)
    requires Sorted(k, s)
    ensures Adjacent(k, s, DtFirst, key, First(s)) && Adjacent(k, s, DtLast, key, Last(s))
    ensures Adjacent(k, s, DtNext, key, First(Above(k, s, key)))
    ensures Adjacent(k, s, DtPrev, key, Last(Below(k, s, key)))
  {
    hide Sorted, Below, Above, At, First, Last, Adjacent;
    SortedCut(k, s, key);
    CutMembers(k, s, key);
    SortedPart(k, Below(k, s, key), At(k, s, key), Above(k, s, key));
    SortedEnds(k, s, key);
    SortedEnds(k, Above(k, s, key), key);
    SortedEnds(k, Below(k, s, key), key);
    EndOfPart(k, s, Above(k, s, key), key, First(Above(k, s, key)));
    EndOfPart(k, s, Below(k, s, key), key, Last(Below(k, s, key)));
  }

  // What a search, NEXT, PREV, FIRST and LAST give in a set in order, by the keys that
  // the discipline has for the objects.
  lemma ByKeys(k: Disc, s: seq<Link>, key: int)
    requires Sorted(k, s) && forall x :: x in s ==> x in k
    ensures forall i, j :: 0 <= i < j < |s| ==> k[s[i]] < k[s[j]]
    ensures forall o :: At(k, s, key) == [o] ==> o in s && k[o] == key
    ensures At(k, s, key) == [] ==> forall x :: x in s ==> k[x] != key
    ensures var o := First(Above(k, s, key));
            if o == null then forall x :: x in s ==> k[x] <= key
            else o in s && key < k[o] && forall x :: x in s && key < k[x] ==> k[o] <= k[x]
    ensures var o := Last(Below(k, s, key));
            if o == null then forall x :: x in s ==> key <= k[x]
            else o in s && k[o] < key && forall x :: x in s && k[x] < key ==> k[x] <= k[o]
  {
    hide *;
    RisesByKeys(k, s);
    AtByKeys(k, s, key);
    OneAdjacent(k, s, key);
    AdjacentByKeys(k, s, key, First(Above(k, s, key)), Last(Below(k, s, key)));
  }

  lemma RisesByKeys(k: Disc, s: seq<Link>)
    requires Sorted(k, s) && forall x :: x in s ==> x in k
    ensures forall i, j :: 0 <= i < j < |s| ==> k[s[i]] < k[s[j]]
  {
  }

  lemma AtByKeys(k: Disc, s: seq<Link>, key: int)
    requires forall x :: x in s ==> x in k
    ensures forall o :: At(k, s, key) == [o] ==> o in s && k[o] == key
    ensures At(k, s, key) == [] ==> forall x :: x in s ==> k[x] != key
  {
    CutMembers(k, s, key);
    assert At(k, s, key) != [] ==> At(k, s, key)[0] in At(k, s, key);
    hide At;
  }

  lemma AdjacentByKeys(k: Disc, s: seq<Link>, key: int, next: Link?, prev: Link?)
    requires forall x :: x in s ==> x in k
    requires Adjacent(k, s, DtNext, key, next) && Adjacent(k, s, DtPrev, key, prev)
    ensures if next == null then forall x :: x in s ==> k[x] <= key
            else next in s && key < k[next] && forall x :: x in s && key < k[x] ==> k[next] <= k[x]
    ensures if prev == null then forall x :: x in s ==> key <= k[x]
            else prev in s && k[prev] < key && forall x :: x in s && k[x] < key ==> k[x] <= k[prev]
  {
  }

  // One dictionary's search function, for the moves.
  method SearchOne(ghost k: Disc, d: Dt, obj: Link?, m: Move) returns (o: Link?)
    requires d.Valid() && d.disc == k
    requires m == DtNext || m == DtPrev ==> obj != null
    modifies d, Nodes(d.tree)
    ensures d.Valid() && d.disc == k && d.Contents() == old(d.Contents()) && Nodes(d.tree) == old(Nodes(d.tree))
    ensures Adjacent(k, d.Contents(), m, if obj == null then 0 else Key(k, obj), o)
  {
    hide Adjacent, Holds, Apart, Nodes, Above, Below, First, Last, Sorted;
    ghost var key := if obj == null then 0 else Key(k, obj);
    OneAdjacentIn(k, d, key);
    match m
    case DtFirst => o := d.FirstLink();
    case DtLast => o := d.LastLink();
    case DtNext => o := d.Next(obj);
    case DtPrev => o := d.Prev(obj);
  }

  lemma OneAdjacentIn(k: Disc, d: Dt, key: int)
    requires d.Valid() && d.disc == k
    ensures var s := d.Contents();
            && Adjacent(k, s, DtFirst, key, First(s)) && Adjacent(k, s, DtLast, key, Last(s))
            && Adjacent(k, s, DtNext, key, First(Above(k, s, key)))
            && Adjacent(k, s, DtPrev, key, Last(Below(k, s, key)))
  {
    OneAdjacent(k, d.Contents(), key);
  }

  // The same on the i-th dictionary of a path.
  method SearchAt(ghost k: Disc, view: seq<Dt>, i: nat, obj: Link?, m: Move,
                  ghost sets: seq<set<Link>>, ghost cs: seq<seq<Link>>, ghost all: set<Link>)
    returns (o: Link?)
    requires PathOk(k, view, sets, cs, all) && i < |view|
    requires m == DtNext || m == DtPrev ==> obj != null
    modifies view, all
    ensures PathOk(k, view, sets, cs, all) && view[i].disc == k
    ensures Adjacent(k, cs[i], m, if obj == null then 0 else Key(k, obj), o)
  {
    hide Adjacent, Nodes;
    o := SearchOne(k, view[i], obj, m);
  }

  // Extends the best link of the first i dictionaries, n from the p-th, by the link
  // o of the next one.
  lemma Nearest(k: Disc, cs: seq<seq<Link>>, i: nat, m: Move, key: int, n: Link?, p: int, o: Link?)
    requires i < |cs| && AdjacentIn(k, cs[..i], m, key, n, p) && Adjacent(k, cs[i], m, key, o)
    ensures var take := o != null && (n == null || !NotAfter(m, Key(k, n), Key(k, o)));
            AdjacentIn(k, cs[..i + 1], m, key, if take then o else n, if take then i else p)
  {
    var a, b := cs[..i], cs[..i + 1];
    assert b == a + [cs[i]];
    assert forall j :: 0 <= j < i ==> b[j] == a[j];
    var take := o != null && (n == null || !NotAfter(m, Key(k, n), Key(k, o)));
    if take {
      forall j | 0 <= j < i
        ensures !HasKey(k, b[j], Key(k, o))
      {
        forall x: Link | x in b[j]
          ensures Key(k, x) != Key(k, o)
        {
          assert x in a[j];
        }
      }
    }
  }

  // dtvsearch for the moves: the least or greatest link over the whole path, from
  // the nearest dictionary that has its key; p is where it was found.
  method VSearch(ghost k: Disc, view: seq<Dt>, obj: Link?, m: Move,
                 ghost sets: seq<set<Link>>, ghost cs: seq<seq<Link>>, ghost all: set<Link>)
    returns (n: Link?, walk: int)
    requires PathOk(k, view, sets, cs, all)
    requires m == DtNext || m == DtPrev ==> obj != null
    modifies view, all
    ensures PathOk(k, view, sets, cs, all)
    ensures AdjacentIn(k, cs, m, if obj == null then 0 else Key(k, obj), n, walk)
  {
    hide Adjacent, AdjacentIn, PathOk;
    n, walk := null, -1;
    var nk := 0;
    ghost var key := if obj == null then 0 else Key(k, obj);
    NothingYet(k, cs, m, key);
    SameLength(k, view, sets, cs, all);
    for i := 0 to |view|
      invariant PathOk(k, view, sets, cs, all)
      invariant n != null ==> nk == Key(k, n)
      invariant AdjacentIn(k, cs[..i], m, key, n, walk)
    {
      var o := SearchAt(k, view, i, obj, m, sets, cs, all);
      Nearest(k, cs, i, m, key, n, walk, o);
      if o != null && (n == null || (if Upward(m) then Key(view[i].disc, o) < nk else Key(view[i].disc, o) > nk)) {
        n, nk, walk := o, Key(view[i].disc, o), i;
      }
    }
    assert cs[..|view|] == cs;
  }

  lemma NothingYet(k: Disc, cs: seq<seq<Link>>, m: Move, key: int)
    ensures AdjacentIn(k, cs[..0], m, key, null, -1)
  {
  }

  lemma SameLength(k: Disc, view: seq<Dt>, sets: seq<set<Link>>, cs: seq<seq<Link>>, all: set<Link>)
    requires PathOk(k, view, sets, cs, all)
    ensures |view| == |cs|
  {
  }

  // ------------------------------------------------------------------ walking

  // x is in the p-th dictionary, and no dictionary before it has x's key.
  ghost predicate Uncovered(k: Disc, cs: seq<seq<Link>>, x: Link) {
    exists p :: 0 <= p < |cs| && x in cs[p] && forall i :: 0 <= i < p ==> !HasKey(k, cs[i], Key(k, x))
  }

  ghost predicate HasKeyIn(k: Disc, cs: seq<seq<Link>>, key: int) {
    exists i :: 0 <= i < |cs| && HasKey(k, cs[i], key)
  }

  // seen are the uncovered links of the path with keys up to the last one seen.
  ghost predicate WalkedTo(k: Disc, cs: seq<seq<Link>>, seen: seq<Link>) {
    && Sorted(k, seen)
    && (forall j :: 0 <= j < |seen| ==> Uncovered(k, cs, seen[j]))
    && (seen != [] ==> forall v :: HasKeyIn(k, cs, v) && v <= Key(k, seen[|seen| - 1]) ==> HasKey(k, seen, v))
  }

  // All keys of the path, each once, in order, by the link nearest to the top.
  ghost predicate Walked(k: Disc, cs: seq<seq<Link>>, seen: seq<Link>) {
    && Sorted(k, seen)
    && (forall j :: 0 <= j < |seen| ==> Uncovered(k, cs, seen[j]))
    && (forall v :: HasKeyIn(k, cs, v) <==> HasKey(k, seen, v))
  }

  lemma NextSeen(k: Disc, cs: seq<seq<Link>>, seen: seq<Link>, m: Move, n: Link, p: int)
    requires WalkedTo(k, cs, seen)
    requires m == (if seen == [] then DtFirst else DtNext)
    requires AdjacentIn(k, cs, m, if seen == [] then 0 else Key(k, seen[|seen| - 1]), n, p)
    ensures WalkedTo(k, cs, seen + [n])
  {
    var s := seen + [n];
    assert forall j :: 0 <= j < |s| ==> Uncovered(k, cs, s[j]);
    forall v | HasKeyIn(k, cs, v) && v <= Key(k, n)
      ensures HasKey(k, s, v)
    {
      var i :| 0 <= i < |cs| && HasKey(k, cs[i], v);
      var x :| x in cs[i] && Key(k, x) == v;
      assert n in s;
      if v != Key(k, n) {
        assert !Ahead(m, if seen == [] then 0 else Key(k, seen[|seen| - 1]), v);
        var y :| y in seen && Key(k, y) == v;
        assert y in s;
      }
    }
  }

  lemma AllSeen(k: Disc, cs: seq<seq<Link>>, seen: seq<Link>, m: Move, p: int)
    requires WalkedTo(k, cs, seen)
    requires m == (if seen == [] then DtFirst else DtNext)
    requires AdjacentIn(k, cs, m, if seen == [] then 0 else Key(k, seen[|seen| - 1]), null, p)
    ensures Walked(k, cs, seen)
  {
    forall v | HasKeyIn(k, cs, v)
      ensures HasKey(k, seen, v)
    {
      var i :| 0 <= i < |cs| && HasKey(k, cs[i], v);
      var x :| x in cs[i] && Key(k, x) == v;
    }
    forall v | HasKey(k, seen, v)
      ensures HasKeyIn(k, cs, v)
    {
      var y :| y in seen && Key(k, y) == v;
      var p :| 0 <= p < |cs| && y in cs[p];
      assert HasKey(k, cs[p], v);
    }
  }

  // How many links of the path lie above key.
  ghost function Rest(k: Disc, cs: seq<seq<Link>>, key: int): nat {
    if cs == [] then 0 else |Above(k, cs[0], key)| + Rest(k, cs[1..], key)
  }

  lemma {:induction false} AboveShrinks(k: Disc, s: seq<Link>, a: int, b: int)
    requires a <= b
    ensures |Above(k, s, b)| <= |Above(k, s, a)|
    ensures (exists x :: x in s && a < Key(k, x) <= b) ==> |Above(k, s, b)| < |Above(k, s, a)|
  {
    if s != [] {
      AboveShrinks(k, s[1..], a, b);
      assert s == [s[0]] + s[1..];
    }
  }

  lemma {:induction false} RestShrinks(k: Disc, cs: seq<seq<Link>>, a: int, b: int, i: int, x: Link)
    requires a <= b
    ensures Rest(k, cs, b) <= Rest(k, cs, a)
    ensures 0 <= i < |cs| && x in cs[i] && a < Key(k, x) <= b ==> Rest(k, cs, b) < Rest(k, cs, a)
  {
    if cs != [] {
      AboveShrinks(k, cs[0], a, b);
      RestShrinks(k, cs[1..], a, b, i - 1, x);
    }
  }

  // Only the first dictionary has changed, and only up to key.
  ghost predicate SameAbove(k: Disc, cs: seq<seq<Link>>, now: seq<seq<Link>>, key: int) {
    && |now| == |cs|
    && (forall i, x :: 0 <= i < |cs| && x in now[i] && key < Key(k, x) ==> x in cs[i])
    && (forall i, x :: 0 <= i < |cs| && x in cs[i] && key < Key(k, x) ==> x in now[i])
  }

  lemma AdjacentSame(k: Disc, cs: seq<seq<Link>>, now: seq<seq<Link>>, key: int, n: Link?, p: int)
    requires SameAbove(k, cs, now, key) && AdjacentIn(k, now, DtNext, key, n, p)
    ensures AdjacentIn(k, cs, DtNext, key, n, p)
  {
    if n != null {
      forall i | 0 <= i < p
        ensures !HasKey(k, cs[i], Key(k, n))
      {
        assert !HasKey(k, now[i], Key(k, n));
        forall x: Link | x in cs[i]
          ensures Key(k, x) != Key(k, n)
        {
        }
      }
    }
  }

  // What is left of s: all but the links seen that drop holds for.
  ghost predicate Kept(k: Disc, s: seq<Link>, now: seq<Link>, seen: seq<Link>, drop: Link -> bool) {
    && Sorted(k, now)
    && (forall x :: x in now ==> x in s && !(x in seen && drop(x)))
    && (forall x :: x in s && !(x in seen && drop(x)) ==> x in now)
  }

  // The path now, beside the path cs it was when the walk began.
  ghost predicate During(k: Disc, cs: seq<seq<Link>>, now: seq<seq<Link>>, seen: seq<Link>, drop: Link -> bool) {
    && |now| == |cs| > 0 && now[1..] == cs[1..]
    && Sorted(k, cs[0]) && Kept(k, cs[0], now[0], seen, drop)
  }

  lemma DuringSame(k: Disc, cs: seq<seq<Link>>, now: seq<seq<Link>>, seen: seq<Link>, drop: Link -> bool, key: int)
    requires During(k, cs, now, seen, drop)
    requires forall x :: x in seen ==> Key(k, x) <= key
    ensures SameAbove(k, cs, now, key)
  {
    assert forall i :: 1 <= i < |cs| ==> now[i] == now[1..][i - 1] && cs[i] == cs[1..][i - 1];
  }

  // One more object seen, and the object with its key taken out of the top.
  lemma KeptDrop(k: Disc, s0: seq<Link>, c: seq<Link>, w: seq<Link>, seen: seq<Link>, drop: Link -> bool, x: Link)
    requires Kept(k, s0, c, seen, drop) && Sorted(k, w) && drop(x)
    requires forall y :: y in w <==> y in c && Key(k, y) != Key(k, x)
    requires forall y :: y in s0 && Key(k, y) == Key(k, x) ==> y == x
    ensures Kept(k, s0, w, seen + [x], drop)
  {
    hide Sorted;
    assert forall y :: y in seen + [x] <==> y in seen || y == x;
  }

  // One more object seen that stays.
  lemma KeptSeen(k: Disc, s0: seq<Link>, c: seq<Link>, seen: seq<Link>, drop: Link -> bool, x: Link)
    requires Kept(k, s0, c, seen, drop) && !drop(x)
    ensures Kept(k, s0, c, seen + [x], drop)
  {
    hide Sorted;
    assert forall y :: y in seen + [x] <==> y in seen || y == x;
  }

  // The top dictionary has no other object with the key of one that is uncovered.
  lemma OnlyAtTop(k: Disc, cs: seq<seq<Link>>, x: Link, p: int)
    requires |cs| > 0 && Sorted(k, cs[0])
    requires 0 <= p < |cs| && x in cs[p] && forall i :: 0 <= i < p ==> !HasKey(k, cs[i], Key(k, x))
    ensures forall y :: y in cs[0] && Key(k, y) == Key(k, x) ==> y == x
  {
    forall y | y in cs[0] && Key(k, y) == Key(k, x)
      ensures y == x
    {
      assert HasKey(k, cs[0], Key(k, x));
    }
  }

  lemma CutOne(k: Disc, c: seq<Link>, key: int)
    requires Sorted(k, c)
    ensures var w := Below(k, c, key) + Above(k, c, key);
            Sorted(k, w) && forall y :: y in w <==> y in c && Key(k, y) != key
  {
    SortedCut(k, c, key);
    DeleteSorted(k, c, key);
    CutMembers(k, c, key);
    hide Sorted, Below, Above, At;
  }

  // Deleting the object just seen, or not.
  lemma DuringDrop(k: Disc, cs: seq<seq<Link>>, now: seq<seq<Link>>, seen: seq<Link>, drop: Link -> bool, x: Link,
                   p: int)
    requires During(k, cs, now, seen, drop)
    requires 0 <= p < |cs| && x in cs[p] && forall i :: 0 <= i < p ==> !HasKey(k, cs[i], Key(k, x))
    ensures !drop(x) ==> During(k, cs, now, seen + [x], drop)
    ensures drop(x) ==>
              During(k, cs, now[0 := Below(k, now[0], Key(k, x)) + Above(k, now[0], Key(k, x))], seen + [x], drop)
  {
    OnlyAtTop(k, cs, x, p);
    assert Sorted(k, now[0]);
    CutOne(k, now[0], Key(k, x));
    hide Sorted, Kept, Below, Above, HasKey;
    if drop(x) {
      KeptDrop(k, cs[0], now[0], Below(k, now[0], Key(k, x)) + Above(k, now[0], Key(k, x)), seen, drop, x);
    } else {
      KeptSeen(k, cs[0], now[0], seen, drop, x);
    }
  }

  method DropAt(ghost k: Disc, view: seq<Dt>, obj: Link, ghost sets: seq<set<Link>>, ghost cs: seq<seq<Link>>,
                ghost all: set<Link>)
    requires PathOk(k, view, sets, cs, all) && |view| > 0
    modifies view, all
    ensures PathOk(k, view, sets, cs[0 := Below(k, cs[0], Key(k, obj)) + Above(k, cs[0], Key(k, obj))], all)
  {
    hide Below, Above, At, Nodes, Sorted;
    var o := view[0].Delete(obj, false);
  }

  // dtwalk over the path. The callback gives each link a result, a negative one ends
  // the walk, and it deletes the links that drop holds for from the top dictionary.
  method DtWalk(ghost k: Disc, view: seq<Dt>, userf: Link -> int, drop: Link -> bool,
                ghost sets: seq<set<Link>>, ghost cs: seq<seq<Link>>, ghost all: set<Link>)
    returns (rv: int, seen: seq<Link>, ghost now: seq<seq<Link>>)
    requires PathOk(k, view, sets, cs, all) && |view| > 0
    modifies view, all
    ensures PathOk(k, view, sets, now, all) && During(k, cs, now, seen, drop)
    ensures rv <= 0
    ensures rv == 0 ==> Walked(k, cs, seen) && forall x :: x in seen ==> userf(x) >= 0
    ensures rv < 0 ==> WalkedTo(k, cs, seen) && seen != [] && userf(seen[|seen| - 1]) == rv
    ensures rv < 0 ==> forall j :: 0 <= j < |seen| - 1 ==> userf(seen[j]) >= 0
  {
    hide Adjacent, AdjacentIn, PathOk, During, Walked, WalkedTo, SameAbove;
    now, seen := cs, [];
    WalkStart(k, view, sets, cs, all, drop);
    var obj, walk := VSearch(k, view, null, DtFirst, sets, cs, all);
    while obj != null
      invariant PathOk(k, view, sets, now, all) && During(k, cs, now, seen, drop) && WalkedTo(k, cs, seen)
      invariant AdjacentIn(k, cs, if seen == [] then DtFirst else DtNext,
                           if seen == [] then 0 else Key(k, seen[|seen| - 1]), obj, walk)
      invariant forall x :: x in seen ==> userf(x) >= 0
      decreases if obj == null then 0 else 1 + Rest(k, cs, Key(k, obj))
    {
      Seen(k, cs, now, seen, obj, walk, drop);
      var next, w := VSearch(k, view, obj, DtNext, sets, now, all);
      AdjacentSame(k, cs, now, Key(k, obj), next, w);
      DuringDrop(k, cs, now, seen, drop, obj, walk);
      NextSeen(k, cs, seen, if seen == [] then DtFirst else DtNext, obj, walk);
      seen := seen + [obj];
      rv := userf(obj);
      if drop(obj) {
        DropAt(k, view, obj, sets, now, all);
        now := now[0 := Below(k, now[0], Key(k, obj)) + Above(k, now[0], Key(k, obj))];
      }
      if rv < 0 {
        return;
      }
      Onward(k, cs, Key(k, obj), next, w);
      obj, walk := next, w;
    }
    AllSeen(k, cs, seen, if seen == [] then DtFirst else DtNext, walk);
    rv := 0;
  }

  lemma WalkStart(k: Disc, view: seq<Dt>, sets: seq<set<Link>>, cs: seq<seq<Link>>, all: set<Link>, drop: Link -> bool)
    requires PathOk(k, view, sets, cs, all) && |view| > 0
    ensures During(k, cs, cs, [], drop) && WalkedTo(k, cs, [])
  {
  }

  // The current link is beyond all the links seen.
  lemma Seen(k: Disc, cs: seq<seq<Link>>, now: seq<seq<Link>>, seen: seq<Link>, obj: Link, walk: int,
             drop: Link -> bool)
    requires During(k, cs, now, seen, drop) && WalkedTo(k, cs, seen)
    requires AdjacentIn(k, cs, if seen == [] then DtFirst else DtNext,
                        if seen == [] then 0 else Key(k, seen[|seen| - 1]), obj, walk)
    ensures SameAbove(k, cs, now, Key(k, obj))
    ensures 0 <= walk < |cs| == |now| && obj in cs[walk]
    ensures forall i :: 0 <= i < walk ==> !HasKey(k, cs[i], Key(k, obj))
  {
    forall x | x in seen
      ensures Key(k, x) <= Key(k, obj)
    {
      var j :| 0 <= j < |seen| && seen[j] == x;
      if j < |seen| - 1 {
        assert Key(k, seen[j]) < Key(k, seen[|seen| - 1]);
      }
    }
    hide Sorted, Kept;
    DuringSame(k, cs, now, seen, drop, Key(k, obj));
  }

  lemma Onward(k: Disc, cs: seq<seq<Link>>, key: int, n: Link?, p: int)
    requires AdjacentIn(k, cs, DtNext, key, n, p)
    ensures n != null ==> Rest(k, cs, Key(k, n)) < Rest(k, cs, key)
  {
    if n != null {
      RestShrinks(k, cs, key, Key(k, n), p, n);
    }
  }
}
