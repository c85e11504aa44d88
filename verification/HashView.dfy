// View paths of hash tables: a table covers the objects of the later ones that have
// the same keys, and a walk skips what is covered.
module HashView {
  import opened Links
  import opened HashTable
  import opened HashDict
  import HashFlat

  // The tables of the path are sound and share no link; sets[i] are the links of the
  // i-th, cs[i] is its map, and all the links there are.
  ghost predicate PathOk(k: Disc, view: seq<Hash>, sets: seq<set<Link>>, cs: seq<map<int, Link>>, all: set<Link>)
    reads view, all
  {
    && |view| == |sets| == |cs|
    && (forall i :: 0 <= i < |view| ==> sets[i] <= all && view[i].links == sets[i])
    && (forall i :: 0 <= i < |view| ==> view[i].Valid() && view[i].disc == k && view[i].content == cs[i])
    && (forall i, j :: 0 <= i < j < |view| ==> view[i] != view[j] && sets[i] !! sets[j])
  }

  // An earlier table than the i-th has the key.
  ghost predicate Covered(cs: seq<map<int, Link>>, i: nat, key: int) {
    exists p :: 0 <= p < i && p < |cs| && key in cs[p]
  }

  // Place n of table i comes before place j of table w.
  ghost predicate Before(i: nat, n: nat, w: nat, j: nat) {
    i < w || (i == w && n < j)
  }

  // Every link between two places is covered.
  ghost predicate Skipped(k: Disc, cs: seq<map<int, Link>>, flats: seq<seq<Link>>, w: nat, j: nat, w': nat, j': nat) {
    forall i, n :: 0 <= i < |flats| && 0 <= n < |flats[i]| && Before(w, j, i, n) && Before(i, n, w', j') ==>
                     Covered(cs, i, Key(k, flats[i][n]))
  }

  // The tables from n on have the orders flats.
  ghost predicate Ordered(view: seq<Hash>, flats: seq<seq<Link>>, n: nat)
    reads view
  {
    |flats| == |view| && forall i :: n <= i < |view| ==> Flat(view[i].chains) == flats[i]
  }

  // From number j on, f has the links that g has.
  ghost predicate EndsWith(f: seq<Link>, g: seq<Link>, j: nat) {
    j <= |g| && |g| - j <= |f| && f[|f| - (|g| - j)..] == g[j..]
  }

  // obj is number j in the order of table w, and what comes after it is as in flats.
  ghost predicate Standing(view: seq<Hash>, flats: seq<seq<Link>>, w: nat, j: nat, obj: Link)
    reads view
  {
    && w < |view| && Ordered(view, flats, w + 1)
    && j < |flats[w]| && flats[w][j] == obj && EndsWith(Flat(view[w].chains), flats[w], j)
  }

  lemma StandAt(view: seq<Hash>, flats: seq<seq<Link>>, w: nat, j: nat)
    requires w < |view| && Ordered(view, flats, w) && j < |flats[w]|
    ensures Standing(view, flats, w, j, flats[w][j])
  {
  }

  // The link after the one the walk stands at.
  lemma StandNext(f: seq<Link>, g: seq<Link>, j: nat, o: Link?)
    requires EndsWith(f, g, j) && j < |g| && Distinct(f) && Follows(f, g[j], o)
    ensures o == At(g, j + 1) && EndsWith(f, g, j + 1)
  {
    var b := |f| - (|g| - j);
    assert f[b..][0] == g[j..][0];
    var m :| 0 <= m < |f| && f[m] == g[j] && o == At(f, m + 1);
    assert m == b;
    assert f[b + 1..] == f[b..][1..] && g[j + 1..] == g[j..][1..];
    if j + 1 < |g| {
      assert f[b + 1..][0] == g[j + 1..][0];
    }
  }

  lemma StandIn(f: seq<Link>, g: seq<Link>, j: nat)
    requires EndsWith(f, g, j) && j < |g|
    ensures g[j] in f
  {
    assert f[|f| - (|g| - j)..][0] == g[j..][0];
  }

  // ------------------------------------------------------ one table of the path

  method SearchAt(view: seq<Hash>, i: nat, key: int, ghost k: Disc, ghost sets: seq<set<Link>>,
                  ghost cs: seq<map<int, Link>>, ghost all: set<Link>)
    returns (o: Link?)
    requires PathOk(k, view, sets, cs, all) && i < |view|
    modifies view[i], all`right
    ensures PathOk(k, view, sets, cs, all)
    ensures o == if key in cs[i] then cs[i][key] else null
    ensures view[i].loop == old(view[i].loop) && (o != null ==> view[i].here == o)
    ensures view[i].loop > 0 ==> view[i].chains == old(view[i].chains)
  {
    hide Hash.Valid;
    o := view[i].Search(key);
  }

  method FirstAt(view: seq<Hash>, i: nat, ghost k: Disc, ghost sets: seq<set<Link>>,
                 ghost cs: seq<map<int, Link>>, ghost all: set<Link>, ghost flats: seq<seq<Link>>)
    returns (o: Link?)
    requires PathOk(k, view, sets, cs, all) && i < |view| && Ordered(view, flats, i)
    modifies view[i]
    ensures PathOk(k, view, sets, cs, all) && Ordered(view, flats, i)
    ensures o == At(flats[i], 0) && (o == null <==> cs[i] == map[])
    ensures o != null ==> view[i].loop > 0 && view[i].here == o
  {
    hide Flat;
    o := view[i].FirstLink();
  }

  method NextAt(view: seq<Hash>, i: nat, obj: Link, ghost j: nat, ghost k: Disc, ghost sets: seq<set<Link>>,
                ghost cs: seq<map<int, Link>>, ghost all: set<Link>, ghost flats: seq<seq<Link>>)
    returns (o: Link?)
    requires PathOk(k, view, sets, cs, all) && Standing(view, flats, i, j, obj)
    modifies view[i], all`right
    ensures PathOk(k, view, sets, cs, all) && Ordered(view, flats, i + 1)
    ensures o == At(flats[i], j + 1)
    ensures o != null ==>
              Standing(view, flats, i, j + 1, o) && view[i].loop == old(view[i].loop) && view[i].here == o
  {
    hide Flat, Hash.Valid, EndsWith, Follows;
    StandIn(Flat(view[i].chains), flats[i], j);
    InFlat(view[i]);
    ItsKey(view[i], obj);
    ghost var f := Flat(view[i].chains);
    o := view[i].Next(obj);
    StandNext(f, flats[i], j, o);
  }

  lemma InFlat(d: Hash)
    requires d.Valid()
    ensures Distinct(Flat(d.chains)) && forall x :: x in Flat(d.chains) <==> x in d.links
  {
    FlatOf(d.htab, d.chains, d.links);
  }

  // Some table before the w-th has the key of obj.
  method IsCovered(view: seq<Hash>, w: nat, obj: Link, ghost k: Disc, ghost sets: seq<set<Link>>,
                   ghost cs: seq<map<int, Link>>, ghost all: set<Link>)
    returns (covered: bool)
    requires PathOk(k, view, sets, cs, all) && w < |view|
    modifies view[..w], all`right
    ensures PathOk(k, view, sets, cs, all)
    ensures covered <==> Covered(cs, w, Key(k, obj))
    ensures forall i :: w <= i < |view| ==> view[i].chains == old(view[i].chains) && view[i].loop == old(view[i].loop)
    ensures view[w].here == old(view[w].here)
  {
    hide Flat, Hash.Valid;
    var p := 0;
    while p < w
      invariant p <= w && PathOk(k, view, sets, cs, all)
      invariant forall q :: 0 <= q < p ==> Key(k, obj) !in cs[q]
      invariant forall i :: w <= i < |view| ==>
                  view[i].chains == old(view[i].chains) && view[i].loop == old(view[i].loop)
      invariant view[w].here == old(view[w].here)
    {
      assert view[p] in view[..w];
      var o := SearchAt(view, p, Key(view[p].disc, obj), k, sets, cs, all);
      if o != null {
        return true;
      }
      p := p + 1;
    }
    return false;
  }

  // ------------------------------------------------------------- dtvsearch

  // DT_FIRST: the first object of the first table that has one.
  method VFirst(view: seq<Hash>, ghost k: Disc, ghost sets: seq<set<Link>>, ghost cs: seq<map<int, Link>>,
                ghost all: set<Link>, ghost flats: seq<seq<Link>>)
    returns (o: Link?, walk: nat)
    requires PathOk(k, view, sets, cs, all) && Ordered(view, flats, 0)
    modifies view, all
    ensures PathOk(k, view, sets, cs, all)
    ensures if o == null then walk == |view|
            else Standing(view, flats, walk, 0, o) && view[walk].loop > 0 && view[walk].here == o
    ensures forall i :: 0 <= i < walk ==> cs[i] == map[] && flats[i] == []
  {
    hide Flat, Hash.Valid, EndsWith;
    walk := 0;
    while walk < |view|
      invariant walk <= |view| == |cs| == |flats| && PathOk(k, view, sets, cs, all) && Ordered(view, flats, walk)
      invariant forall i :: 0 <= i < walk ==> cs[i] == map[] && flats[i] == []
    {
      o := FirstAt(view, walk, k, sets, cs, all, flats);
      if o != null {
        StandAt(view, flats, walk, 0);
        return;
      }
      walk := walk + 1;
    }
    o := null;
  }

  // The inner loop for DT_NEXT: from o, link number j of table w, to the first one
  // that is not covered.
  method SkipCovered(view: seq<Hash>, w: nat, o0: Link?, ghost j0: nat, ghost k: Disc, ghost sets: seq<set<Link>>,
                     ghost cs: seq<map<int, Link>>, ghost all: set<Link>, ghost flats: seq<seq<Link>>)
    returns (o: Link?, ghost j: nat)
    requires PathOk(k, view, sets, cs, all) && |flats| == |view| && w < |view|
    requires j0 <= |flats[w]| && o0 == At(flats[w], j0)
    requires if o0 == null then Ordered(view, flats, w + 1)
             else Standing(view, flats, w, j0, o0) && view[w].here == o0
    modifies view, all
    ensures PathOk(k, view, sets, cs, all)
    ensures j0 <= j && forall n :: j0 <= n < j && n < |flats[w]| ==> Covered(cs, w, Key(k, flats[w][n]))
    ensures o == null ==> Ordered(view, flats, w + 1) && j == |flats[w]|
    ensures o != null ==>
              && Standing(view, flats, w, j, o) && !Covered(cs, w, Key(k, o))
              && view[w].here == o && view[w].loop == old(view[w].loop)
  {
    hide Flat, Hash.Valid, Covered, EndsWith;
    o, j := o0, j0;
    while o != null
      invariant PathOk(k, view, sets, cs, all) && j0 <= j <= |flats[w]| && o == At(flats[w], j)
      invariant if o == null then Ordered(view, flats, w + 1)
                else Standing(view, flats, w, j, o) && view[w].here == o && view[w].loop == old(view[w].loop)
      invariant forall n :: j0 <= n < j ==> Covered(cs, w, Key(k, flats[w][n]))
      decreases |flats[w]| - j
    {
      var covered := IsCovered(view, w, o, k, sets, cs, all);
      if !covered {
        return;
      }
      o := NextAt(view, w, o, j, k, sets, cs, all, flats);
      j := j + 1;
    }
  }

  // The outer loop for DT_NEXT: from obj, link number j0 of table w0, to the next one
  // that is not covered, there or in a later table.
  method Onward(view: seq<Hash>, w0: nat, obj: Link, ghost j0: nat, ghost k: Disc, ghost sets: seq<set<Link>>,
                ghost cs: seq<map<int, Link>>, ghost all: set<Link>, ghost flats: seq<seq<Link>>)
    returns (o: Link?, walk: nat, ghost j: nat)
    requires PathOk(k, view, sets, cs, all) && Standing(view, flats, w0, j0, obj)
    modifies view, all
    ensures PathOk(k, view, sets, cs, all) && walk <= |view|
    ensures Skipped(k, cs, flats, w0, j0, walk, j)
    ensures o == null ==> walk == |view| && j == 0
    ensures o != null ==> Standing(view, flats, walk, j, o) && !Covered(cs, walk, Key(k, o)) && view[walk].here == o
    ensures o != null ==> if walk == w0 then j0 < j && view[w0].loop == old(view[w0].loop)
                          else w0 < walk && view[walk].loop > 0
  {
    hide Flat, Hash.Valid, Covered, EndsWith;
    walk, j := w0, j0 + 1;
    o := NextAt(view, walk, obj, j0, k, sets, cs, all, flats);
    while true
      invariant PathOk(k, view, sets, cs, all) && |flats| == |view| && w0 <= walk < |view|
      invariant j <= |flats[walk]| && o == At(flats[walk], j) && Skipped(k, cs, flats, w0, j0, walk, j)
      invariant if o == null then Ordered(view, flats, walk + 1)
                else Standing(view, flats, walk, j, o) && view[walk].here == o
      invariant o != null ==> if walk == w0 then j0 < j && view[w0].loop == old(view[w0].loop)
                              else view[walk].loop > 0
      decreases |view| - walk
    {
      ghost var i := j;
      o, j := SkipCovered(view, walk, o, j, k, sets, cs, all, flats);
      SkippedOn(k, cs, flats, w0, j0, walk, i, j);
      if o != null {
        return;
      }
      SkippedTable(k, cs, flats, w0, j0, walk);
      walk, j := walk + 1, 0;
      if walk == |view| {
        return;
      }
      o := FirstAt(view, walk, k, sets, cs, all, flats);
      if o != null {
        StandAt(view, flats, walk, 0);
      }
    }
  }

  lemma SkippedOn(k: Disc, cs: seq<map<int, Link>>, flats: seq<seq<Link>>, w0: nat, j0: nat, w: nat, i: nat, j: nat)
    requires Skipped(k, cs, flats, w0, j0, w, i) && w < |flats|
    requires forall n :: i <= n < j && n < |flats[w]| ==> Covered(cs, w, Key(k, flats[w][n]))
    ensures Skipped(k, cs, flats, w0, j0, w, j)
  {
  }

  lemma SkippedTable(k: Disc, cs: seq<map<int, Link>>, flats: seq<seq<Link>>, w0: nat, j0: nat, w: nat)
    requires w < |flats| && Skipped(k, cs, flats, w0, j0, w, |flats[w]|)
    ensures Skipped(k, cs, flats, w0, j0, w + 1, 0)
  {
  }

  // The object a step starts from: obj itself if the walk stands there, otherwise the
  // nearest object with its key.
  ghost predicate IsHome(k: Disc, cs: seq<map<int, Link>>, key: int, x: Link?, w: nat) {
    if x == null then w == |cs| && forall i :: 0 <= i < |cs| ==> key !in cs[i]
    else w < |cs| && key in cs[w] && cs[w][key] == x && !Covered(cs, w, key)
  }

  lemma HomeOnce(k: Disc, cs: seq<map<int, Link>>, key: int, x: Link, w: nat, y: Link, v: nat)
    requires IsHome(k, cs, key, x, w) && (IsHome(k, cs, key, y, v) || (y == x && v == w))
    ensures y == x && v == w
  {
  }

  method VHome(view: seq<Hash>, walk: nat, obj: Link, ghost k: Disc, ghost sets: seq<set<Link>>,
               ghost cs: seq<map<int, Link>>, ghost all: set<Link>)
    returns (x: Link?, w: nat)
    requires PathOk(k, view, sets, cs, all)
    modifies view, all
    ensures PathOk(k, view, sets, cs, all) && w <= |view| && (x != null ==> w < |view|)
    ensures if walk < |view| && old(view[walk].here) == obj then x == obj && w == walk
            else IsHome(k, cs, Key(k, obj), x, w)
    ensures forall i :: w <= i < |view| ==> view[i].loop == old(view[i].loop)
    ensures forall i :: w < i < |view| ==> view[i].chains == old(view[i].chains)
    ensures w < |view| && view[w].loop > 0 ==> view[w].chains == old(view[w].chains)
    ensures x != null ==> x in view[w].links
  {
    hide Flat, Hash.Valid;
    if walk < |view| && view[walk].here == obj {
      HereIn(view[walk]);
      return obj, walk;
    }
    w := 0;
    while w < |view|
      invariant w <= |view| && PathOk(k, view, sets, cs, all)
      invariant forall i :: 0 <= i < w ==> Key(k, obj) !in cs[i]
      invariant forall i :: w <= i < |view| ==>
                  view[i].chains == old(view[i].chains) && view[i].loop == old(view[i].loop)
    {
      x := SearchAt(view, w, Key(view[w].disc, obj), k, sets, cs, all);
      if x != null {
        ItIn(view[w], Key(k, obj));
        return;
      }
      w := w + 1;
    }
    x := null;
  }

  lemma HereIn(d: Hash)
    requires d.Valid()
    ensures d.here != null ==> d.here in d.links
  {
  }

  lemma ItIn(d: Hash, key: int)
    requires d.Valid() && key in d.content
    ensures d.content[key] in d.links && Key(d.disc, d.content[key]) == key
  {
  }

  // The walk stands at obj, in table w, where a search for its key leads as well.
  ghost predicate Walking(k: Disc, view: seq<Hash>, cs: seq<map<int, Link>>, flats: seq<seq<Link>>, w: nat, j: nat,
                          obj: Link)
    reads view
  {
    Standing(view, flats, w, j, obj) && view[w].loop > 0 && |cs| == |view| && IsHome(k, cs, Key(k, obj), obj, w)
  }

  // The table orders of the path.
  ghost function Orders(view: seq<Hash>): (r: seq<seq<Link>>)
    reads view
    ensures |r| == |view| && forall i :: 0 <= i < |view| ==> r[i] == Flat(view[i].chains)
  {
    seq(|view|, i requires 0 <= i < |view| reads view => Flat(view[i].chains))
  }

  // DT_NEXT: from the object x that obj stands for, number j of table w in the order
  // that flats then has, to the next one that no earlier table covers. A walk under way
  // that stands at obj, as flats0 and j0 say, goes on from there.
  method VNext(view: seq<Hash>, walk0: nat, obj: Link, ghost flats0: seq<seq<Link>>, ghost j0: nat,
               ghost k: Disc, ghost sets: seq<set<Link>>, ghost cs: seq<map<int, Link>>, ghost all: set<Link>)
    returns (o: Link?, walk: nat, ghost j': nat, ghost x: Link?, ghost w: nat, ghost flats: seq<seq<Link>>,
             ghost j: nat)
    requires PathOk(k, view, sets, cs, all)
    modifies view, all
    ensures PathOk(k, view, sets, cs, all) && walk <= |view| && (o == null ==> walk == |view| && j' == 0)
    ensures if walk0 < |view| && old(view[walk0].here) == obj then x == obj && w == walk0
            else IsHome(k, cs, Key(k, obj), x, w)
    ensures x == null ==> o == null
    ensures x != null ==> |flats| == |view| && w < |view| && j < |flats[w]| && flats[w][j] == x
    ensures x != null ==> Skipped(k, cs, flats, w, j, walk, j')
    ensures o != null ==> Standing(view, flats, walk, j', o) && !Covered(cs, walk, Key(k, o)) && Before(w, j, walk, j')
    ensures if old(Walking(k, view, cs, flats0, walk0, j0, obj))
            then x == obj && w == walk0 && flats == flats0 && j == j0 && (o != null ==> view[walk].loop > 0)
            else x != null ==> forall i :: w < i < |view| ==> flats[i] == old(Flat(view[i].chains))
  {
    hide Flat, Hash.Valid, Covered, EndsWith;
    ghost var at := Walking(k, view, cs, flats0, walk0, j0, obj);
    var y, v := VHome(view, walk0, obj, k, sets, cs, all);
    x, w := y, v;
    if y == null {
      return null, |view|, 0, null, w, [], 0;
    }
    if at {
      HomeOnce(k, cs, Key(k, obj), obj, walk0, y, v);
      flats, j := flats0, j0;
    } else {
      flats := Orders(view);
      j := PlaceIn(view[v], y);
      StandAt(view, flats, v, j);
    }
    o, walk, j' := Onward(view, v, y, j, k, sets, cs, all, flats);
  }

  lemma PlaceIn(d: Hash, x: Link) returns (j: nat)
    requires d.Valid() && x in d.links
    ensures j < |Flat(d.chains)| && Flat(d.chains)[j] == x
  {
    InFlat(d);
    j :| 0 <= j < |Flat(d.chains)| && Flat(d.chains)[j] == x;
  }

  // ------------------------------------------------------- what a walk meets

  // The orders flats are those of tables with the maps cs.
  ghost predicate Layout(k: Disc, cs: seq<map<int, Link>>, flats: seq<seq<Link>>) {
    && |flats| == |cs|
    && (forall i :: 0 <= i < |cs| ==> LaidOut(k, cs[i], flats[i]))
    && (forall i, j, n, m :: 0 <= i < j < |flats| && 0 <= n < |flats[i]| && 0 <= m < |flats[j]| ==>
                               flats[i][n] != flats[j][m])
  }

  ghost predicate LaidOut(k: Disc, c: map<int, Link>, f: seq<Link>) {
    && Distinct(f)
    && (forall n :: 0 <= n < |f| ==> Key(k, f[n]) in c && c[Key(k, f[n])] == f[n])
    && (forall key :: key in c ==> Key(k, c[key]) == key && c[key] in f)
  }

  // The maps when those of the objects seen that the callback drops have gone from the
  // first table.
  ghost predicate During(cs: seq<map<int, Link>>, now: seq<map<int, Link>>, seen: seq<Link>, drop: Link -> bool) {
    && |now| == |cs|
    && (forall i :: 1 <= i < |cs| ==> now[i] == cs[i])
    && (|cs| > 0 ==> Gone(cs[0], now[0], seen, drop))
  }

  ghost predicate Gone(c: map<int, Link>, c': map<int, Link>, seen: seq<Link>, drop: Link -> bool) {
    && (forall key :: key in c' <==> key in c && !(c[key] in seen && drop(c[key])))
    && (forall key :: key in c' ==> c'[key] == c[key])
  }

  // Before place n of table i an object of a later table than the first has been met.
  ghost predicate Beyond(flats: seq<seq<Link>>, seen: seq<Link>, i: nat, n: nat) {
    exists j, m :: 1 <= j < |flats| && 0 <= m < |flats[j]| && Before(j, m, i, n) && flats[j][m] in seen
  }

  // The object with this key at place n of table i is to be met: no earlier table has
  // the key, or only the first one, whose object is dropped. If that is the last of its
  // table, it goes only after the walk has fetched one from beyond.
  ghost predicate Meets(cs: seq<map<int, Link>>, flats: seq<seq<Link>>, drop: Link -> bool, seen: seq<Link>,
                        i: nat, n: nat, key: int) {
    forall p :: 0 <= p < i && p < |cs| && key in cs[p] ==>
                  && p == 0 && drop(cs[0][key]) && |flats| > 0
                  && (cs[0][key] != Final(flats[0]) || Beyond(flats, seen, i, n))
  }

  ghost predicate PlacedBefore(flats: seq<seq<Link>>, x: Link, w: nat, j: nat) {
    exists i, n :: 0 <= i < |flats| && 0 <= n < |flats[i]| && Before(i, n, w, j) && flats[i][n] == x
  }

  // seen are the objects met when the walk has come to number j of table w: each once,
  // and exactly those that are to be met.
  ghost predicate Met(k: Disc, cs: seq<map<int, Link>>, flats: seq<seq<Link>>, drop: Link -> bool,
                      w: nat, j: nat, seen: seq<Link>) {
    && Distinct(seen)
    && (forall a :: 0 <= a < |seen| ==> PlacedBefore(flats, seen[a], w, j))
    && (forall i, n :: 0 <= i < |flats| && 0 <= n < |flats[i]| && Before(i, n, w, j) ==>
                         (flats[i][n] in seen <==> Meets(cs, flats, drop, seen, i, n, Key(k, flats[i][n]))))
  }

  // Nothing in seen is at a place from number j of table w on.
  lemma NotYetSeen(k: Disc, cs: seq<map<int, Link>>, flats: seq<seq<Link>>, drop: Link -> bool, w: nat, j: nat,
                   seen: seq<Link>, i: nat, n: nat)
    requires Layout(k, cs, flats) && Met(k, cs, flats, drop, w, j, seen)
    requires i < |flats| && n < |flats[i]| && !Before(i, n, w, j)
    ensures flats[i][n] !in seen
  {
    assert LaidOut(k, cs[i], flats[i]);
    forall a | 0 <= a < |seen|
      ensures seen[a] != flats[i][n]
    {
      assert PlacedBefore(flats, seen[a], w, j);
    }
  }

  // One more object met, and those up to the next one passed over.
  lemma MetStep(k: Disc, cs: seq<map<int, Link>>, now: seq<map<int, Link>>, flats: seq<seq<Link>>, drop: Link -> bool,
                w: nat, j: nat, seen: seq<Link>, w': nat, j': nat)
    requires Layout(k, cs, flats) && Met(k, cs, flats, drop, w, j, seen) && During(cs, now, seen, drop)
    requires w < |flats| && j < |flats[w]| && Meets(cs, flats, drop, seen, w, j, Key(k, flats[w][j]))
    requires Skipped(k, now, flats, w, j, w', j') && Before(w, j, w', j') && w' <= |flats|
    ensures Met(k, cs, flats, drop, w', j', seen + [flats[w][j]])
  {
    hide Meets, Skipped, Layout, LaidOut, During;
    var x := flats[w][j];
    var s := seen + [x];
    NotYetSeen(k, cs, flats, drop, w, j, seen, w, j);
    forall a | 0 <= a < |s|
      ensures PlacedBefore(flats, s[a], w', j')
    {
      if a < |seen| {
        assert PlacedBefore(flats, seen[a], w, j);
      }
    }
    forall i, n | 0 <= i < |flats| && 0 <= n < |flats[i]| && Before(i, n, w', j')
      ensures flats[i][n] in s <==> Meets(cs, flats, drop, s, i, n, Key(k, flats[i][n]))
    {
      if Before(i, n, w, j) {
        SameMeets(k, cs, flats, drop, w, j, seen, i, n);
      } else if i == w && n == j {
        MeetsOn(cs, flats, drop, seen, x, w, j, Key(k, x));
      } else {
        PassedOver(k, cs, now, flats, drop, w, j, seen, w', j', i, n);
      }
    }
  }

  // Whether an object that has been passed is to be met does not change.
  lemma SameMeets(k: Disc, cs: seq<map<int, Link>>, flats: seq<seq<Link>>, drop: Link -> bool, w: nat, j: nat,
                  seen: seq<Link>, i: nat, n: nat)
    requires Layout(k, cs, flats) && w < |flats| && j < |flats[w]|
    requires i < |flats| && n < |flats[i]| && Before(i, n, w, j)
    ensures var key, s := Key(k, flats[i][n]), seen + [flats[w][j]];
            Meets(cs, flats, drop, seen, i, n, key) <==> Meets(cs, flats, drop, s, i, n, key)
    ensures flats[i][n] != flats[w][j]
  {
    var x := flats[w][j];
    assert LaidOut(k, cs[w], flats[w]);
    assert Beyond(flats, seen, i, n) <==> Beyond(flats, seen + [x], i, n) by {
      forall u, m | 1 <= u < |flats| && 0 <= m < |flats[u]| && Before(u, m, i, n)
        ensures flats[u][m] in seen + [x] <==> flats[u][m] in seen
      {
        assert LaidOut(k, cs[u], flats[u]);
      }
      BeyondSame(flats, seen, seen + [x], i, n);
      BeyondSame(flats, seen + [x], seen, i, n);
    }
  }

  lemma BeyondSame(flats: seq<seq<Link>>, s: seq<Link>, s': seq<Link>, i: nat, n: nat)
    requires forall u, m :: 1 <= u < |flats| && 0 <= m < |flats[u]| && Before(u, m, i, n) && flats[u][m] in s ==>
                              flats[u][m] in s'
    ensures Beyond(flats, s, i, n) ==> Beyond(flats, s', i, n)
  {
  }

  lemma MeetsOn(cs: seq<map<int, Link>>, flats: seq<seq<Link>>, drop: Link -> bool, seen: seq<Link>, x: Link,
                i: nat, n: nat, key: int)
    requires Meets(cs, flats, drop, seen, i, n, key)
    ensures Meets(cs, flats, drop, seen + [x], i, n, key)
  {
    BeyondSame(flats, seen, seen + [x], i, n);
  }

  // What is passed over because it is covered is not to be met.
  lemma PassedOver(k: Disc, cs: seq<map<int, Link>>, now: seq<map<int, Link>>, flats: seq<seq<Link>>,
                   drop: Link -> bool, w: nat, j: nat, seen: seq<Link>, w': nat, j': nat, i: nat, n: nat)
    requires Layout(k, cs, flats) && Met(k, cs, flats, drop, w, j, seen) && During(cs, now, seen, drop)
    requires w < |flats| && j < |flats[w]| && Skipped(k, now, flats, w, j, w', j')
    requires i < |flats| && n < |flats[i]| && Before(w, j, i, n) && Before(i, n, w', j')
    ensures flats[i][n] !in seen + [flats[w][j]]
    ensures !Meets(cs, flats, drop, seen + [flats[w][j]], i, n, Key(k, flats[i][n]))
  {
    var key, x := Key(k, flats[i][n]), flats[w][j];
    NotYetSeen(k, cs, flats, drop, w, j, seen, i, n);
    assert LaidOut(k, cs[i], flats[i]);
    assert Covered(now, i, key);
    var p :| 0 <= p < i && p < |now| && key in now[p];
    if p == 0 {
      LastOrSeen(k, cs, now, flats, drop, w, j, seen, w', j', key);
      if w == 0 {
        NothingBeyond(k, cs, flats, drop, j, seen, i, n);
      }
    }
  }

  // As long as the walk is in the first table it has met nothing from beyond.
  lemma NothingBeyond(k: Disc, cs: seq<map<int, Link>>, flats: seq<seq<Link>>, drop: Link -> bool, j: nat,
                      seen: seq<Link>, i: nat, n: nat)
    requires Layout(k, cs, flats) && Met(k, cs, flats, drop, 0, j, seen) && |flats| > 0 && j < |flats[0]|
    ensures !Beyond(flats, seen + [flats[0][j]], i, n)
  {
    forall u, m | 1 <= u < |flats| && 0 <= m < |flats[u]|
      ensures flats[u][m] !in seen + [flats[0][j]]
    {
      NotYetSeen(k, cs, flats, drop, 0, j, seen, u, m);
    }
  }

  // When the walk goes on beyond the first table, it has seen all of that, or all but
  // the last object while it stands there.
  lemma LastOrSeen(k: Disc, cs: seq<map<int, Link>>, now: seq<map<int, Link>>, flats: seq<seq<Link>>,
                   drop: Link -> bool, w: nat, j: nat, seen: seq<Link>, w': nat, j': nat, key: int)
    requires Layout(k, cs, flats) && Met(k, cs, flats, drop, w, j, seen) && During(cs, now, seen, drop)
    requires w < |flats| && j < |flats[w]| && Skipped(k, now, flats, w, j, w', j') && w' > 0
    requires key in cs[0]
    ensures cs[0][key] in seen || (w == 0 && cs[0][key] == Final(flats[0]))
  {
    assert LaidOut(k, cs[0], flats[0]);
    var y, last := cs[0][key], |flats[0]| - 1;
    var m :| 0 <= m < |flats[0]| && flats[0][m] == y;
    assert w == 0 && j < last ==> Before(w, j, 0, last) && Before(0, last, w', j');
    assert !Covered(now, 0, Key(k, flats[0][last]));
    if w > 0 || m < last {
      assert Before(0, m, w, j);
      assert Meets(cs, flats, drop, seen, 0, m, Key(k, flats[0][m]));
    }
  }

  // What is not covered when it is fetched is to be met.
  lemma FetchedMeets(k: Disc, cs: seq<map<int, Link>>, now: seq<map<int, Link>>, flats: seq<seq<Link>>,
                     drop: Link -> bool, w: nat, j: nat, seen: seq<Link>, w': nat, j': nat, key: int)
    requires Layout(k, cs, flats) && Met(k, cs, flats, drop, w, j, seen) && During(cs, now, seen, drop)
    requires w < |flats| && j < |flats[w]| && Before(w, j, w', j') && !Covered(now, w', key)
    ensures Meets(cs, flats, drop, seen + [flats[w][j]], w', j', key)
  {
    var s := seen + [flats[w][j]];
    forall p | 0 <= p < w' && p < |cs| && key in cs[p]
      ensures p == 0 && drop(cs[0][key]) && (cs[0][key] != Final(flats[0]) || Beyond(flats, s, w', j'))
    {
      assert p == 0;
      assert cs[0][key] in seen && drop(cs[0][key]);
      if cs[0][key] == Final(flats[0]) {
        LastSeen(k, cs, flats, drop, w, j, seen);
        assert flats[w][j] in s;
      }
    }
  }

  lemma LastSeen(k: Disc, cs: seq<map<int, Link>>, flats: seq<seq<Link>>, drop: Link -> bool, w: nat, j: nat,
                 seen: seq<Link>)
    requires Layout(k, cs, flats) && Met(k, cs, flats, drop, w, j, seen) && w < |flats| && j < |flats[w]|
    requires flats[0] != [] && Final(flats[0]) in seen
    ensures w > 0
  {
    assert LaidOut(k, cs[0], flats[0]);
    var a :| 0 <= a < |seen| && seen[a] == Final(flats[0]);
    assert PlacedBefore(flats, seen[a], w, j);
  }

  lemma MetStart(k: Disc, cs: seq<map<int, Link>>, flats: seq<seq<Link>>, drop: Link -> bool, w: nat)
    requires w <= |flats| && forall i :: 0 <= i < w ==> flats[i] == []
    ensures Met(k, cs, flats, drop, w, 0, []) && During(cs, cs, [], drop)
  {
  }

  // ------------------------------------------------------------------ dtwalk

  // One object taken out of the list that is walked over, before the current place.
  lemma EndsWithout(f: seq<Link>, f': seq<Link>, x: Link, g: seq<Link>, j: nat)
    requires PutIn(f', f, x) && EndsWith(f, g, j) && forall m :: j <= m < |g| ==> g[m] != x
    ensures EndsWith(f', g, j)
  {
    var m :| 0 <= m <= |f'| && f == f'[..m] + [x] + f'[m..];
    var b := |f| - (|g| - j);
    forall n | b <= n < |f|
      ensures f[n] != x
    {
      assert f[b..][n - b] == g[j..][n - b];
    }
    assert f[m] == x;
    assert f[b..] == f'[b - 1..];
  }

  lemma HomeStays(k: Disc, now: seq<map<int, Link>>, obj: Link, next: Link, w: nat)
    requires IsHome(k, now, Key(k, next), next, w) && next != obj
    requires Key(k, obj) in now[0] ==> now[0][Key(k, obj)] == obj
    ensures IsHome(k, now[0 := Without(now[0], Key(k, obj))], Key(k, next), next, w)
  {
  }

  // The callback takes obj, which it has been called with, out of the first table.
  method DropAt(view: seq<Hash>, obj: Link, next: Link?, w': nat, ghost j': nat, ghost k: Disc,
                ghost sets: seq<set<Link>>, ghost now: seq<map<int, Link>>, ghost all: set<Link>,
                ghost flats: seq<seq<Link>>)
    returns (ghost sets': seq<set<Link>>)
    requires PathOk(k, view, sets, now, all) && |view| > 0
    requires next != null ==>
               && Walking(k, view, now, flats, w', j', next) && next != obj
               && (w' == 0 ==> forall m :: j' <= m < |flats[0]| ==> flats[0][m] != obj)
    requires Key(k, obj) in now[0] ==> now[0][Key(k, obj)] == obj
    modifies view, all
    ensures PathOk(k, view, sets', now[0 := Without(now[0], Key(k, obj))], all)
    ensures next != null ==> Walking(k, view, now[0 := Without(now[0], Key(k, obj))], flats, w', j', next)
  {
    hide Flat, Hash.Valid, EndsWith, Covered, PutIn;
    ghost var f := Flat(view[0].chains);
    var o := view[0].Delete(obj);
    sets' := sets[0 := view[0].links];
    if next != null {
      HomeStays(k, now, obj, next, w');
      if w' == 0 && o != null {
        EndsWithout(f, Flat(view[0].chains), obj, flats[0], j');
      }
    }
  }

  // What the walk stands at is the object of its key, unless that is covered.
  lemma StandHome(k: Disc, view: seq<Hash>, sets: seq<set<Link>>, cs: seq<map<int, Link>>, all: set<Link>,
                  flats: seq<seq<Link>>, w: nat, j: nat, o: Link)
    requires PathOk(k, view, sets, cs, all) && Standing(view, flats, w, j, o) && !Covered(cs, w, Key(k, o))
    ensures IsHome(k, cs, Key(k, o), o, w)
  {
    hide Hash.Valid, Flat, EndsWith, Covered;
    StandIn(Flat(view[w].chains), flats[w], j);
    InFlat(view[w]);
    ItsKey(view[w], o);
  }

  lemma DuringStep(k: Disc, cs: seq<map<int, Link>>, now: seq<map<int, Link>>, flats: seq<seq<Link>>,
                   drop: Link -> bool, w: nat, j: nat, seen: seq<Link>, x: Link)
    requires Layout(k, cs, flats) && During(cs, now, seen, drop)
    requires w < |flats| && j < |flats[w]| && flats[w][j] == x && IsHome(k, now, Key(k, x), x, w)
    ensures Key(k, x) in now[0] ==> now[0][Key(k, x)] == x
    ensures During(cs, if drop(x) then now[0 := Without(now[0], Key(k, x))] else now, seen + [x], drop)
  {
    var now' := if drop(x) then now[0 := Without(now[0], Key(k, x))] else now;
    assert LaidOut(k, cs[0], flats[0]);
    forall key
      ensures key in now'[0] <==> key in cs[0] && !(cs[0][key] in seen + [x] && drop(cs[0][key]))
    {
      if key in cs[0] && cs[0][key] == x {
        var m :| 0 <= m < |flats[0]| && flats[0][m] == x;
      }
    }
  }

  lemma Different(k: Disc, cs: seq<map<int, Link>>, flats: seq<seq<Link>>, w: nat, j: nat, w': nat, j': nat)
    requires Layout(k, cs, flats) && Before(w, j, w', j')
    requires w < |flats| && j < |flats[w]| && w' < |flats|
    ensures forall m :: j' <= m < |flats[w']| ==> flats[w'][m] != flats[w][j]
  {
    assert LaidOut(k, cs[w], flats[w]);
  }

  // The facts of a path that the walk starts from.
  lemma PathFacts(k: Disc, view: seq<Hash>, sets: seq<set<Link>>, cs: seq<map<int, Link>>, all: set<Link>)
    requires PathOk(k, view, sets, cs, all)
    ensures Layout(k, cs, Orders(view)) && Ordered(view, Orders(view), 0)
  {
    hide Hash.Valid, Flat;
    var flats := Orders(view);
    forall i | 0 <= i < |view|
      ensures LaidOut(k, cs[i], flats[i]) && SetOf(flats[i]) == sets[i]
    {
      InFlat(view[i]);
      HashFlat.MapOf(view[i]);
      assert SetOf(Flat(view[i].chains)) == view[i].links;
      assert forall n :: 0 <= n < |flats[i]| ==> flats[i][n] in SetOf(flats[i]);
    }
    forall i, j, n, m | 0 <= i < j < |flats| && 0 <= n < |flats[i]| && 0 <= m < |flats[j]|
      ensures flats[i][n] != flats[j][m]
    {
      assert flats[i][n] in SetOf(flats[i]) && flats[j][m] in SetOf(flats[j]);
    }
  }

  // The state of a walk: obj is the object fetched already, seen those met before it.
  ghost predicate Going(k: Disc, view: seq<Hash>, sets: seq<set<Link>>, cs: seq<map<int, Link>>,
                        now: seq<map<int, Link>>, all: set<Link>, flats: seq<seq<Link>>, drop: Link -> bool,
                        w: nat, j: nat, obj: Link?, seen: seq<Link>)
    reads view, all
  {
    && PathOk(k, view, sets, now, all) && During(cs, now, seen, drop) && |flats| == |view|
    && Met(k, cs, flats, drop, w, j, seen)
    && if obj == null then w == |view| && j == 0
       else Walking(k, view, now, flats, w, j, obj) && Meets(cs, flats, drop, seen, w, j, Key(k, obj))
  }

  // One round: fetches the next object, calls the callback with obj, and takes obj out
  // of the first table if the callback says so.
  method Round(view: seq<Hash>, walk: nat, obj: Link, userf: Link -> int, drop: Link -> bool, ghost j: nat,
               ghost k: Disc,
               ghost sets: seq<set<Link>>, ghost cs: seq<map<int, Link>>, ghost now: seq<map<int, Link>>,
               ghost all: set<Link>, ghost flats: seq<seq<Link>>, ghost seen: seq<Link>)
    returns (rv: int, next: Link?, walk': nat, ghost j': nat, ghost sets': seq<set<Link>>,
             ghost now': seq<map<int, Link>>)
    requires Going(k, view, sets, cs, now, all, flats, drop, walk, j, obj, seen) && Layout(k, cs, flats)
    modifies view, all
    ensures Going(k, view, sets', cs, now', all, flats, drop, walk', j', next, seen + [obj])
    ensures rv == userf(obj) && (next != null ==> Before(walk, j, walk', j'))
  {
    hide Hash.Valid, Flat, EndsWith, Covered, Met, During, Layout, Skipped, IsHome, Meets;
    ghost var x, w, f, n;
    next, walk', j', x, w, f, n := VNext(view, walk, obj, flats, j, k, sets, now, all);
    AtHome(k, now, obj, walk);
    MetStep(k, cs, now, flats, drop, walk, j, seen, walk', j');
    DuringStep(k, cs, now, flats, drop, walk, j, seen, obj);
    if next != null {
      FetchedMeets(k, cs, now, flats, drop, walk, j, seen, walk', j', Key(k, next));
      StandHome(k, view, sets, now, all, flats, walk', j', next);
      Different(k, cs, flats, walk, j, walk', j');
    }
    rv := userf(obj);
    sets', now' := sets, now;
    if drop(obj) {
      sets' := DropAt(view, obj, next, walk', j', k, sets, now, all, flats);
      now' := now[0 := Without(now[0], Key(k, obj))];
    }
  }

  lemma AtHome(k: Disc, cs: seq<map<int, Link>>, x: Link, w: nat)
    requires IsHome(k, cs, Key(k, x), x, w)
    ensures w < |cs| && !Covered(cs, w, Key(k, x))
  {
  }

  // dtwalk over a path of hash tables, with a callback that may take the object it is
  // called with out of the first table.
  method DtWalk(view: seq<Hash>, userf: Link -> int, drop: Link -> bool, ghost k: Disc, ghost sets0: seq<set<Link>>,
                ghost cs: seq<map<int, Link>>, ghost all: set<Link>)
    returns (rv: int, seen: seq<Link>, ghost sets: seq<set<Link>>, ghost now: seq<map<int, Link>>,
             ghost flats: seq<seq<Link>>, ghost w: nat, ghost j: nat)
    requires PathOk(k, view, sets0, cs, all)
    modifies view, all
    ensures PathOk(k, view, sets, now, all) && During(cs, now, seen, drop)
    ensures flats == old(Orders(view)) && Layout(k, cs, flats)
    ensures Met(k, cs, flats, drop, w, j, seen)
    ensures rv <= 0
    ensures rv == 0 ==> w == |flats| && forall x :: x in seen ==> userf(x) >= 0
    ensures rv < 0 ==> seen != [] && userf(seen[|seen| - 1]) == rv
    ensures rv < 0 ==> forall a :: 0 <= a < |seen| - 1 ==> userf(seen[a]) >= 0
  {
    hide Hash.Valid, Flat, Met, During, Layout, Going, Walking, PathOk;
    flats := Orders(view);
    PathFacts(k, view, sets0, cs, all);
    sets, now, seen, j, rv := sets0, cs, [], 0, 0;
    var obj: Link?, walk: nat := Begin(view, drop, k, sets, cs, all, flats);
    GoingMeans(k, view, sets, cs, now, all, flats, drop, walk, j, obj, seen);
    while obj != null
      invariant Going(k, view, sets, cs, now, all, flats, drop, walk, j, obj, seen)
      invariant walk <= |view| == |flats| && (obj == null ==> walk == |view|)
      invariant obj != null ==> walk < |view| && j < |flats[walk]|
      invariant forall a :: 0 <= a < |seen| ==> userf(seen[a]) >= 0
      decreases if obj == null then 0 else 1 + |view| - walk, if obj == null then 0 else |flats[walk]| - j
    {
      var next: Link?, w': nat;
      ghost var j': nat;
      rv, next, w', j', sets, now := Round(view, walk, obj, userf, drop, j, k, sets, cs, now, all, flats, seen);
      seen := seen + [obj];
      GoingMeans(k, view, sets, cs, now, all, flats, drop, w', j', next, seen);
      obj, walk, j := next, w', j';
      if rv < 0 {
        w := walk;
        return;
      }
    }
    GoingMeans(k, view, sets, cs, now, all, flats, drop, walk, j, obj, seen);
    w, rv := walk, 0;
  }

  lemma GoingMeans(k: Disc, view: seq<Hash>, sets: seq<set<Link>>, cs: seq<map<int, Link>>, now: seq<map<int, Link>>,
                   all: set<Link>, flats: seq<seq<Link>>, drop: Link -> bool, w: nat, j: nat, obj: Link?,
                   seen: seq<Link>)
    requires Going(k, view, sets, cs, now, all, flats, drop, w, j, obj, seen)
    ensures PathOk(k, view, sets, now, all) && During(cs, now, seen, drop) && Met(k, cs, flats, drop, w, j, seen)
    ensures |flats| == |view|
    ensures if obj == null then w == |view| && j == 0 else w < |view| && j < |flats[w]|
  {
  }

  lemma NothingBefore(cs: seq<map<int, Link>>, flats: seq<seq<Link>>, drop: Link -> bool, w: nat)
    requires w <= |cs| && forall i :: 0 <= i < w ==> cs[i] == map[]
    ensures forall key :: !Covered(cs, w, key) && Meets(cs, flats, drop, [], w, 0, key)
  {
  }

  // FIRST, before the first call.
  method Begin(view: seq<Hash>, ghost drop: Link -> bool, ghost k: Disc, ghost sets: seq<set<Link>>,
               ghost cs: seq<map<int, Link>>, ghost all: set<Link>, ghost flats: seq<seq<Link>>)
    returns (obj: Link?, walk: nat)
    requires PathOk(k, view, sets, cs, all) && Ordered(view, flats, 0)
    modifies view, all
    ensures Going(k, view, sets, cs, cs, all, flats, drop, walk, 0, obj, [])
  {
    hide Hash.Valid, Flat, EndsWith, Covered, Met, During, IsHome, Meets;
    obj, walk := VFirst(view, k, sets, cs, all, flats);
    NothingBefore(cs, flats, drop, walk);
    MetStart(k, cs, flats, drop, walk);
    if obj != null {
      StandHome(k, view, sets, cs, all, flats, walk, 0, obj);
    }
  }

  // ----------------------------------------------------- the walk as a whole

  // Each key of all tables once, by the object of the nearest table.
  ghost predicate NearestOnce(k: Disc, cs: seq<map<int, Link>>, e: seq<Link>) {
    && (forall a, b :: 0 <= a < b < |e| ==> Key(k, e[a]) != Key(k, e[b]))
    && (forall a :: 0 <= a < |e| ==> IsNearest(k, cs, e[a]))
    && (forall i, key :: 0 <= i < |cs| && key in cs[i] ==> HasKey(k, e, key))
  }

  // x is the object of its key in some table, and no earlier table has that key.
  ghost predicate IsNearest(k: Disc, cs: seq<map<int, Link>>, x: Link) {
    exists i :: 0 <= i < |cs| && IsHome(k, cs, Key(k, x), x, i)
  }

  ghost predicate HasKey(k: Disc, e: seq<Link>, key: int) {
    exists a :: 0 <= a < |e| && Key(k, e[a]) == key
  }

  // Where an object of table i is.
  lemma PlaceOf(k: Disc, cs: seq<map<int, Link>>, flats: seq<seq<Link>>, i: nat, key: int) returns (n: nat)
    requires Layout(k, cs, flats) && i < |cs| && key in cs[i]
    ensures n < |flats[i]| && flats[i][n] == cs[i][key] && Key(k, flats[i][n]) == key && Before(i, n, |flats|, 0)
  {
    assert LaidOut(k, cs[i], flats[i]);
    n :| 0 <= n < |flats[i]| && flats[i][n] == cs[i][key];
  }

  // The nearest table with a key.
  lemma {:induction false} NearestTable(cs: seq<map<int, Link>>, i: nat, key: int) returns (p: nat)
    requires i < |cs| && key in cs[i]
    ensures p <= i && key in cs[p] && !Covered(cs, p, key)
    decreases i
  {
    p := i;
    if Covered(cs, i, key) {
      var q :| 0 <= q < i && q < |cs| && key in cs[q];
      p := NearestTable(cs, q, key);
    }
  }

  // With nothing dropped, every key of the union is met once, by its nearest object.
  lemma NothingDropped(k: Disc, cs: seq<map<int, Link>>, flats: seq<seq<Link>>, drop: Link -> bool, seen: seq<Link>)
    requires Layout(k, cs, flats) && Met(k, cs, flats, drop, |flats|, 0, seen)
    requires forall x :: x in seen ==> !drop(x)
    ensures NearestOnce(k, cs, seen)
  {
    hide Met, Covered, Layout;
    forall a | 0 <= a < |seen|
      ensures IsNearest(k, cs, seen[a])
    {
      var i := HomeOf(k, cs, flats, drop, seen, seen[a]);
    }
    forall a, b | 0 <= a < b < |seen|
      ensures Key(k, seen[a]) != Key(k, seen[b])
    {
      var i := HomeOf(k, cs, flats, drop, seen, seen[a]);
      var j := HomeOf(k, cs, flats, drop, seen, seen[b]);
      SeenOnce(k, cs, flats, drop, seen, a, b);
      if Key(k, seen[a]) == Key(k, seen[b]) {
        HomeOnce(k, cs, Key(k, seen[a]), seen[a], i, seen[b], j);
      }
    }
    forall i, key | 0 <= i < |cs| && key in cs[i]
      ensures HasKey(k, seen, key)
    {
      var p := NearestTable(cs, i, key);
      NearestMet(k, cs, flats, drop, seen, p, key);
      var n := PlaceOf(k, cs, flats, p, key);
      var a :| 0 <= a < |seen| && seen[a] == cs[p][key];
    }
  }

  lemma SeenOnce(k: Disc, cs: seq<map<int, Link>>, flats: seq<seq<Link>>, drop: Link -> bool, seen: seq<Link>,
                 a: nat, b: nat)
    requires Met(k, cs, flats, drop, |flats|, 0, seen) && a < b < |seen|
    ensures seen[a] != seen[b]
  {
  }

  // The nearest object of a key is met in any case.
  lemma NearestMet(k: Disc, cs: seq<map<int, Link>>, flats: seq<seq<Link>>, drop: Link -> bool, seen: seq<Link>,
                   i: nat, key: int)
    requires Layout(k, cs, flats) && Met(k, cs, flats, drop, |flats|, 0, seen)
    requires i < |cs| && key in cs[i] && !Covered(cs, i, key)
    ensures cs[i][key] in seen
  {
    var n := PlaceOf(k, cs, flats, i, key);
    assert Meets(cs, flats, drop, seen, i, n, key);
  }

  lemma HomeOf(k: Disc, cs: seq<map<int, Link>>, flats: seq<seq<Link>>, drop: Link -> bool, seen: seq<Link>, x: Link)
    returns (i: nat)
    requires Layout(k, cs, flats) && Met(k, cs, flats, drop, |flats|, 0, seen) && x in seen
    requires forall y :: y in seen ==> !drop(y)
    ensures IsHome(k, cs, Key(k, x), x, i)
  {
    var a :| 0 <= a < |seen| && seen[a] == x;
    assert PlacedBefore(flats, x, |flats|, 0);
    var m, n :| 0 <= m < |flats| && 0 <= n < |flats[m]| && Before(m, n, |flats|, 0) && flats[m][n] == x;
    assert LaidOut(k, cs[m], flats[m]);
    var key := Key(k, x);
    assert Meets(cs, flats, drop, seen, m, n, key);
    if m > 0 && key in cs[0] {
      NearestMet(k, cs, flats, drop, seen, 0, key);
    }
    i := m;
  }

  // An object that only the first table covers is met exactly if the object there is
  // dropped, unless that is the last of its table and nothing from beyond comes first.
  // The walk then meets the key twice.
  lemma MetAgain(k: Disc, cs: seq<map<int, Link>>, flats: seq<seq<Link>>, drop: Link -> bool, seen: seq<Link>,
                 i: nat, n: nat)
    requires Layout(k, cs, flats) && Met(k, cs, flats, drop, |flats|, 0, seen)
    requires 0 < i < |flats| && n < |flats[i]|
    requires var key := Key(k, flats[i][n]); key in cs[0] && forall p :: 1 <= p < i ==> key !in cs[p]
    ensures var y := cs[0][Key(k, flats[i][n])];
            && y in seen && Key(k, y) == Key(k, flats[i][n]) && y != flats[i][n]
            && (flats[i][n] in seen <==> drop(y) && (y != Final(flats[0]) || Beyond(flats, seen, i, n)))
  {
    var key := Key(k, flats[i][n]);
    NearestMet(k, cs, flats, drop, seen, 0, key);
    var m := PlaceOf(k, cs, flats, 0, key);
    assert Before(i, n, |flats|, 0);
  }
}
