// String attributes: numbered symbols in dictionaries layered along the tree of
// subgraphs, and the value arrays of graphs, nodes and edges.
module Attr {
  import opened Wrappers

  datatype Kind = AGRAPH | AGNODE | AGEDGE

  // A declared attribute: its default value and its place in value arrays.
  datatype Agsym = Agsym(defval: string, id: nat)

  // The attributes declared at one graph, by name.
  type Dict = map<string, Agsym>

  // The value array of an object; a slot may not have been filled.
  type Values = seq<Option<string>>

  // ------------------------------------------------------------- dictionaries

  // The ids are exactly 0..|d|-1, each for one name.
  ghost predicate Dense(d: Dict) {
    && (forall n :: n in d ==> d[n].id < |d|)
    && (forall n, m :: n in d && m in d && d[n].id == d[m].id ==> n == m)
    && (forall i :: 0 <= i < |d| ==> HasId(d, i))
  }

  ghost predicate HasId(d: Dict, i: nat) {
    exists n :: n in d && d[n].id == i
  }

  // A symbol of a subgraph has the id of the root's symbol of that name.
  ghost predicate DictsOk(d: seq<Dict>) {
    && |d| > 0 && Dense(d[0])
    && (forall g, n :: 0 <= g < |d| && n in d[g] ==> n in d[0] && d[g][n].id == d[0][n].id)
  }

  ghost predicate Filled(v: Values, k: nat) {
    |v| == k && forall i :: 0 <= i < k ==> v[i].Some?
  }

  ghost predicate ValuesOk(s: seq<Values>, k: nat) {
    forall o :: 0 <= o < |s| ==> Filled(s[o], k)
  }

  ghost predicate TreeOk(parent: seq<nat>) {
    |parent| > 0 && forall g :: 1 <= g < |parent| ==> parent[g] < g
  }

  // The symbol that counts at graph g: the one declared nearest to it.
  function Nearest(parent: seq<nat>, d: seq<Dict>, g: nat, name: string): (r: Option<Agsym>)
    requires TreeOk(parent) && |d| == |parent| && g < |d|
    decreases g
  {
    if name in d[g] then Some(d[g][name])
    else if g == 0 then None
    else Nearest(parent, d, parent[g], name)
  }

  // From h upwards, g is the first graph that could declare the name, or does.
  ghost predicate Covers(parent: seq<nat>, d: seq<Dict>, g: nat, h: nat, name: string)
    requires TreeOk(parent) && |d| == |parent| && h < |d|
    decreases h
  {
    h == g || (name !in d[h] && h > 0 && Covers(parent, d, g, parent[h], name))
  }

  // Exactly the names of the root are known at every graph, under the root's id.
  lemma {:induction false} NearestKnown(parent: seq<nat>, d: seq<Dict>, g: nat, name: string)
    requires TreeOk(parent) && |d| == |parent| && g < |d| && DictsOk(d)
    ensures Nearest(parent, d, g, name).Some? <==> name in d[0]
    ensures name in d[0] ==> Nearest(parent, d, g, name).value.id == d[0][name].id
    decreases g
  {
    if name !in d[g] && g > 0 {
      NearestKnown(parent, d, parent[g], name);
    }
  }

  // The symbol is declared at a graph on the way up from g, and at none before it.
  lemma {:induction false} NearestWhere(parent: seq<nat>, d: seq<Dict>, g: nat, name: string) returns (a: nat)
    requires TreeOk(parent) && |d| == |parent| && g < |d| && Nearest(parent, d, g, name).Some?
    ensures a <= g && Covers(parent, d, a, g, name) && name in d[a] && Nearest(parent, d, g, name) == Some(d[a][name])
    decreases g
  {
    if name in d[g] {
      a := g;
    } else {
      a := NearestWhere(parent, d, parent[g], name);
    }
  }

  // A declaration at g is what counts exactly at the graphs below g that have none
  // of their own on the way.
  lemma {:induction false} DeclaredNearest(parent: seq<nat>, d: seq<Dict>, g: nat, name: string, sym: Agsym, h: nat,
                                           other: string)
    requires TreeOk(parent) && |d| == |parent| && g < |d| && h < |d|
    ensures Nearest(parent, d[g := d[g][name := sym]], h, other) ==
            if other == name && Covers(parent, d, g, h, name) then Some(sym) else Nearest(parent, d, h, other)
    decreases h
  {
    if h > 0 {
      DeclaredNearest(parent, d, g, name, sym, parent[h], other);
    }
  }

  // Another subgraph below p sees what p sees, and changes nothing for the others.
  lemma {:induction false} SubgraphSees(parent: seq<nat>, d: seq<Dict>, p: nat, h: nat, name: string)
    requires TreeOk(parent) && |d| == |parent| && p < |d| && h <= |d|
    ensures Nearest(parent + [p], d + [map[]], h, name) == Nearest(parent, d, if h < |d| then h else p, name)
    decreases h
  {
    var par, d' := parent + [p], d + [map[]];
    if h == |d| {
      SubgraphSees(parent, d, p, p, name);
    } else if h > 0 {
      SubgraphSees(parent, d, p, parent[h], name);
    }
  }

  // A local declaration with the root's id keeps the dictionaries in order.
  lemma LocalOk(d: seq<Dict>, g: nat, name: string, sym: Agsym)
    requires DictsOk(d) && g < |d| && name in d[0] && sym.id == d[0][name].id
    ensures DictsOk(d[g := d[g][name := sym]])
    ensures |d[g := d[g][name := sym]][0]| == |d[0]|
  {
    var e := d[g][name := sym];
    if g == 0 {
      assert e.Keys == d[0].Keys;
      assert |e| == |e.Keys| == |d[0].Keys| == |d[0]|;
      forall i | 0 <= i < |e|
        ensures HasId(e, i)
      {
        assert HasId(d[0], i);
        var n :| n in d[0] && d[0][n].id == i;
        assert n in e && e[n].id == i;
      }
    }
  }

  // A new name at the root gets the next id.
  lemma GlobalOk(d: seq<Dict>, name: string, value: string)
    requires DictsOk(d) && name !in d[0]
    ensures DictsOk(d[0 := d[0][name := Agsym(value, |d[0]|)]])
    ensures |d[0 := d[0][name := Agsym(value, |d[0]|)]][0]| == |d[0]| + 1
  {
    var e := d[0][name := Agsym(value, |d[0]|)];
    forall i | 0 <= i < |e|
      ensures HasId(e, i)
    {
      if i < |d[0]| {
        assert HasId(d[0], i);
        var n :| n in d[0] && d[0][n].id == i;
        assert n in e && e[n].id == i;
      } else {
        assert name in e && e[name].id == i;
      }
    }
  }

  // The names a walk over the dictionaries seen from g meets.
  function Visible(parent: seq<nat>, d: seq<Dict>, g: nat): set<string>
    requires TreeOk(parent) && |d| == |parent| && g < |d|
    decreases g
  {
    d[g].Keys + if g == 0 then {} else Visible(parent, d, parent[g])
  }

  lemma {:induction false} VisibleNames(parent: seq<nat>, d: seq<Dict>, g: nat)
    requires TreeOk(parent) && |d| == |parent| && g < |d| && DictsOk(d)
    ensures Visible(parent, d, g) == d[0].Keys
    decreases g
  {
    assert d[g].Keys <= d[0].Keys by {
      forall n | n in d[g].Keys
        ensures n in d[0].Keys
      {
      }
    }
    if g > 0 {
      VisibleNames(parent, d, parent[g]);
    }
  }

  // v holds, for every declared name, the default that counts at g.
  ghost predicate HasDefaults(parent: seq<nat>, d: seq<Dict>, g: nat, v: Values) {
    && TreeOk(parent) && |d| == |parent| && g < |d| && DictsOk(d)
    && Filled(v, |d[0]|)
    && forall n :: n in d[0] ==>
         Nearest(parent, d, g, n).Some? && v[d[0][n].id] == Some(Nearest(parent, d, g, n).value.defval)
  }

  // agmakeattrs: the value array of a new object in graph g.
  method AgMakeAttrs(parent: seq<nat>, d: seq<Dict>, g: nat) returns (v: Values)
    requires TreeOk(parent) && |d| == |parent| && g < |d| && DictsOk(d)
    ensures HasDefaults(parent, d, g, v)
  {
    v := seq(|d[0]|, _ => None);
    var rest := Visible(parent, d, g);
    VisibleNames(parent, d, g);
    while rest != {}
      invariant |v| == |d[0]| && rest <= d[0].Keys
      invariant forall n :: n in d[0] && n !in rest ==>
                  (Nearest(parent, d, g, n).Some? && v[d[0][n].id] == Some(Nearest(parent, d, g, n).value.defval))
    {
      var name :| name in rest;
      NearestKnown(parent, d, g, name);
      var sym := Nearest(parent, d, g, name).value;
      v := v[sym.id := Some(sym.defval)];
      rest := rest - {name};
    }
    forall i | 0 <= i < |v|
      ensures v[i].Some?
    {
      assert HasId(d[0], i);
    }
  }

  // ------------------------------------------------------- changing a default

  // unviewsubgraphsattr: every direct subgraph of g that sees g's symbol gets one of
  // its own, with the value it has now.
  function Pinned(parent: seq<nat>, d: seq<Dict>, s: seq<Values>, g: nat, name: string, id: nat): (r: seq<Dict>)
    requires |d| == |parent| == |s| && |d| > 0 && ValuesOk(s, |d[0]|) && id < |d[0]|
    ensures |r| == |d|
  {
    seq(|d|, c requires 0 <= c < |d| =>
      if Pins(parent, d, g, name, c) then d[c][name := Agsym(s[c][id].value, id)] else d[c])
  }

  predicate Pins(parent: seq<nat>, d: seq<Dict>, g: nat, name: string, c: nat)
    requires |d| == |parent| && c < |d|
  {
    c > 0 && parent[c] == g && name !in d[c]
  }

  method UnviewSubgraphsAttr(parent: seq<nat>, d0: seq<Dict>, s: seq<Values>, g: nat, name: string, psym: Agsym)
    returns (d: seq<Dict>)
    requires TreeOk(parent) && |d0| == |parent| == |s| && ValuesOk(s, |d0[0]|) && psym.id < |d0[0]|
    ensures d == Pinned(parent, d0, s, g, name, psym.id)
    ensures forall c :: 0 <= c < |d| ==>
              d[c] == if c > 0 && parent[c] == g && name !in d0[c]
                      then d0[c][name := Agsym(s[c][psym.id].value, psym.id)] else d0[c]
  {
    d := d0;
    ghost var p := Pinned(parent, d0, s, g, name, psym.id);
    for c := 1 to |parent|
      invariant |d| == |d0|
      invariant forall b :: 0 <= b < c ==> d[b] == p[b]
      invariant forall b :: c <= b < |d| ==> d[b] == d0[b]
    {
      if parent[c] == g && name !in d[c] {
        d := d[c := d[c][name := Agsym(s[c][psym.id].value, psym.id)]];
      }
    }
  }

  lemma PinnedOk(parent: seq<nat>, d: seq<Dict>, s: seq<Values>, g: nat, name: string, id: nat)
    requires |d| == |parent| == |s| && DictsOk(d) && ValuesOk(s, |d[0]|)
    requires name in d[0] && id == d[0][name].id && id < |d[0]|
    ensures DictsOk(Pinned(parent, d, s, g, name, id)) && Pinned(parent, d, s, g, name, id)[0] == d[0]
  {
  }

  // Pinning changes no other name, and after it g's symbol counts at g alone.
  lemma {:induction false} PinnedNearest(parent: seq<nat>, d: seq<Dict>, s: seq<Values>, g: nat, name: string, id: nat,
                                         h: nat, other: string)
    requires TreeOk(parent) && |d| == |parent| == |s| && g < |d| && h < |d| && ValuesOk(s, |d[0]|)
    requires id < |d[0]| && name in d[g]
    ensures var p := Pinned(parent, d, s, g, name, id);
            && (other != name ==> Nearest(parent, p, h, other) == Nearest(parent, d, h, other))
            && (!Covers(parent, d, g, h, name) || h == g ==> Nearest(parent, p, h, name) == Nearest(parent, d, h, name))
            && (h > 0 && parent[h] == g && name !in d[h] ==>
                 Nearest(parent, p, h, name) == Some(Agsym(s[h][id].value, id)))
            && (Covers(parent, d, g, h, name) && h != g && parent[h] != g ==>
                 Nearest(parent, p, h, name) == Nearest(parent, p, parent[h], name))
            && (Covers(parent, p, g, h, name) <==> h == g)
    decreases h
  {
    var p := Pinned(parent, d, s, g, name, id);
    assert p[h] == if Pins(parent, d, g, name, h) then d[h][name := Agsym(s[h][id].value, id)] else d[h];
    if h > 0 {
      PinnedNearest(parent, d, s, g, name, id, parent[h], other);
      if name !in d[h] && !Covers(parent, d, g, h, name) {
        assert !Covers(parent, d, g, parent[h], name) && parent[h] != g;
      }
    }
  }

  // The dictionaries and arrays of one kind of object.
  ghost predicate KindOk(parent: seq<nat>, d: seq<Dict>, s: seq<Values>) {
    |d| == |parent| && DictsOk(d) && ValuesOk(s, |d[0]|)
  }

  // How the default of name changes at graph h when it is declared at g.
  ghost predicate DeclaredAt(parent: seq<nat>, d0: seq<Dict>, s0: seq<Values>, d: seq<Dict>, kind: Kind, g: nat,
                             name: string, sym: Agsym, h: nat)
    requires TreeOk(parent) && |d0| == |d| == |parent| && g < |d| && h < |d| && DictsOk(d0)
  {
    var was, now := Nearest(parent, d0, h, name), Nearest(parent, d, h, name);
    if name !in d0[0] then now == Some(sym)
    else if kind == AGRAPH && name in d0[g] then
      && (h == g ==> now == Some(sym))
      && (!Covers(parent, d0, g, h, name) ==> now == was)
      && (h > 0 && parent[h] == g && name !in d0[h] ==>
           h < |s0| && sym.id < |s0[h]| && s0[h][sym.id].Some? && now == Some(Agsym(s0[h][sym.id].value, sym.id)))
      && (Covers(parent, d0, g, h, name) && h != g && parent[h] != g ==>
           now == Nearest(parent, d, parent[h], name))
    else now == if Covers(parent, d0, g, h, name) then Some(sym) else was
  }

  ghost predicate OthersSame(parent: seq<nat>, d0: seq<Dict>, d: seq<Dict>, name: string)
    requires TreeOk(parent) && |d0| == |d| == |parent|
  {
    forall h, n :: 0 <= h < |d| && n != name ==> Nearest(parent, d, h, n) == Nearest(parent, d0, h, n)
  }

  // A declaration that reaches down: all graphs that see g see it.
  lemma DeclareLocal(parent: seq<nat>, d: seq<Dict>, s: seq<Values>, kind: Kind, g: nat, name: string, sym: Agsym)
    requires TreeOk(parent) && KindOk(parent, d, s) && g < |d| && name in d[0] && sym.id == d[0][name].id
    requires kind == AGRAPH ==> name !in d[g]
    ensures var d' := d[g := d[g][name := sym]];
            && KindOk(parent, d', s) && |d'[0]| == |d[0]| && OthersSame(parent, d, d', name)
            && Nearest(parent, d', g, name) == Some(sym)
            && forall h :: 0 <= h < |d| ==> DeclaredAt(parent, d, s, d', kind, g, name, sym, h)
  {
    LocalOk(d, g, name, sym);
    var d' := d[g := d[g][name := sym]];
    forall h, n | 0 <= h < |d|
      ensures Nearest(parent, d', h, n) ==
              if n == name && Covers(parent, d, g, h, name) then Some(sym) else Nearest(parent, d, h, n)
    {
      DeclaredNearest(parent, d, g, name, sym, h, n);
    }
    hide DictsOk;
  }

  // A graph attribute declared at g already: the direct subgraphs keep their values, and
  // the graphs below them see what they see.
  lemma DeclarePinned(parent: seq<nat>, d: seq<Dict>, s: seq<Values>, g: nat, name: string, sym: Agsym)
    requires TreeOk(parent) && KindOk(parent, d, s) && |s| == |d| && g < |d| && name in d[g] && sym.id == d[0][name].id
    requires name in d[0] && sym.id < |d[0]|
    ensures var p := Pinned(parent, d, s, g, name, sym.id);
            var d' := p[g := p[g][name := sym]];
            && KindOk(parent, d', s) && |d'[0]| == |d[0]| && OthersSame(parent, d, d', name)
            && Nearest(parent, d', g, name) == Some(sym)
            && forall h :: 0 <= h < |d| ==> DeclaredAt(parent, d, s, d', AGRAPH, g, name, sym, h)
  {
    PinnedOk(parent, d, s, g, name, sym.id);
    var p := Pinned(parent, d, s, g, name, sym.id);
    LocalOk(p, g, name, sym);
    var d' := p[g := p[g][name := sym]];
    forall h, n | 0 <= h < |d|
      ensures n != name ==> Nearest(parent, d', h, n) == Nearest(parent, d, h, n)
      ensures DeclaredAt(parent, d, s, d', AGRAPH, g, name, sym, h)
    {
      PinnedNearest(parent, d, s, g, name, sym.id, h, n);
      DeclaredNearest(parent, p, g, name, sym, h, n);
      DeclaredNearest(parent, p, g, name, sym, h, name);
      assert Filled(s[h], |d[0]|);
    }
    hide DictsOk;
  }

  // s with one more slot at the end of every array.
  ghost function Added(s: seq<Values>, value: string): (r: seq<Values>)
    ensures |r| == |s| && forall o :: 0 <= o < |s| ==> r[o] == s[o] + [Some(value)]
  {
    seq(|s|, o requires 0 <= o < |s| => s[o] + [Some(value)])
  }

  // A name nobody knows: declared at the root, whichever graph it was for.
  lemma DeclareGlobal(parent: seq<nat>, d: seq<Dict>, s: seq<Values>, kind: Kind, g: nat, name: string, value: string)
    requires TreeOk(parent) && KindOk(parent, d, s) && g < |d| && name !in d[0]
    ensures var sym := Agsym(value, |d[0]|);
            var d' := d[0 := d[0][name := sym]];
            && KindOk(parent, d', Added(s, value)) && |d'[0]| == |d[0]| + 1 && OthersSame(parent, d, d', name)
            && Nearest(parent, d', g, name) == Some(sym)
            && forall h :: 0 <= h < |d| ==> DeclaredAt(parent, d, s, d', kind, g, name, sym, h)
  {
    GlobalOk(d, name, value);
    var sym := Agsym(value, |d[0]|);
    var d' := d[0 := d[0][name := sym]];
    forall h, n | 0 <= h < |d|
      ensures Nearest(parent, d', h, n) == if n == name then Some(sym) else Nearest(parent, d, h, n)
    {
      DeclaredNearest(parent, d, 0, name, sym, h, n);
      RootCovers(parent, d, h, name);
    }
  }

  lemma {:induction false} RootCovers(parent: seq<nat>, d: seq<Dict>, h: nat, name: string)
    requires TreeOk(parent) && |d| == |parent| && h < |d| && DictsOk(d) && name !in d[0]
    ensures Covers(parent, d, 0, h, name)
    decreases h
  {
    if h > 0 {
      RootCovers(parent, d, parent[h], name);
    }
  }

  // Setting the value of graph g itself does not change what g's declaration says.
  lemma GraphValue(parent: seq<nat>, d: seq<Dict>, s: seq<Values>, g: nat, name: string, value: string, id: nat)
    requires TreeOk(parent) && KindOk(parent, d, s) && |s| == |d| && g < |d| && name in d[0] && id == d[0][name].id
    requires id < |d[0]| && Nearest(parent, d, g, name) == Some(Agsym(value, id))
    ensures var d' := d[g := d[g][name := Agsym(value, id)]];
            && KindOk(parent, d', s[g := s[g][id := Some(value)]]) && |d'[0]| == |d[0]|
            && forall h, n :: 0 <= h < |d| ==> Nearest(parent, d', h, n) == Nearest(parent, d, h, n)
  {
    var sym := Agsym(value, id);
    LocalOk(d, g, name, sym);
    assert Filled(s[g], |d[0]|);
    forall h, n | 0 <= h < |d|
      ensures Nearest(parent, d[g := d[g][name := sym]], h, n) == Nearest(parent, d, h, n)
    {
      DeclaredNearest(parent, d, g, name, sym, h, n);
      if Covers(parent, d, g, h, name) {
        CoveredSees(parent, d, g, h, name);
      }
    }
    hide DictsOk;
  }

  lemma {:induction false} CoveredSees(parent: seq<nat>, d: seq<Dict>, g: nat, h: nat, name: string)
    requires TreeOk(parent) && |d| == |parent| && h < |d| && g < |d| && Covers(parent, d, g, h, name)
    ensures Nearest(parent, d, h, name) == Nearest(parent, d, g, name)
    decreases h
  {
    if h != g {
      CoveredSees(parent, d, g, parent[h], name);
    }
  }

  lemma SameDeclared(parent: seq<nat>, d0: seq<Dict>, s0: seq<Values>, d1: seq<Dict>, d: seq<Dict>, kind: Kind, g: nat,
                     name: string, sym: Agsym)
    requires TreeOk(parent) && |d0| == |d1| == |d| == |parent| && g < |d| && DictsOk(d0)
    requires forall h :: 0 <= h < |d| ==> DeclaredAt(parent, d0, s0, d1, kind, g, name, sym, h)
    requires OthersSame(parent, d0, d1, name)
    requires forall h, n :: 0 <= h < |d| ==> Nearest(parent, d, h, n) == Nearest(parent, d1, h, n)
    ensures forall h :: 0 <= h < |d| ==> DeclaredAt(parent, d0, s0, d, kind, g, name, sym, h)
    ensures OthersSame(parent, d0, d, name)
  {
    forall h | 0 <= h < |d|
      ensures DeclaredAt(parent, d0, s0, d, kind, g, name, sym, h)
    {
      assert DeclaredAt(parent, d0, s0, d1, kind, g, name, sym, h);
    }
  }

  // addattr for all objects of a kind: one more slot, with the default.
  method AddAttr(s0: seq<Values>, value: string) returns (s: seq<Values>)
    ensures s == Added(s0, value) && forall o :: 0 <= o < |s0| ==> s[o] == s0[o] + [Some(value)]
  {
    s := s0;
    for o := 0 to |s0|
      invariant |s| == |s0|
      invariant forall i :: 0 <= i < o ==> s[i] == Added(s0, value)[i]
      invariant forall i :: o <= i < |s| ==> s[i] == s0[i]
    {
      s := s[o := s[o] + [Some(value)]];
    }
  }

  // What declaring an attribute does to the arrays of the objects of its kind: a new
  // slot if the name is new, and graph g's own value is set.
  ghost predicate ValuesAfter(s0: seq<Values>, s: seq<Values>, kind: Kind, g: nat, isNew: bool, sym: Agsym) {
    && |s| == |s0|
    && forall o :: 0 <= o < |s| ==>
         var v := if isNew then s0[o] + [Some(sym.defval)] else s0[o];
         if kind == AGRAPH && o == g then sym.id < |v| && s[o] == v[sym.id := Some(sym.defval)] else s[o] == v
  }

  // For one kind of object: the dictionaries by graph, and the arrays by object.
  datatype Table = Table(dicts: seq<Dict>, values: seq<Values>)

  ghost predicate TableOk(parent: seq<nat>, kind: Kind, t: Table) {
    && KindOk(parent, t.dicts, t.values)
    && (kind == AGRAPH ==> |t.values| == |parent|)
  }

  // The attribute state of a root graph: graph 0 is the root, the others its subgraphs.
  class AttrState {
    var parent: seq<nat>
    var tab: map<Kind, Table>

    ghost predicate Valid()
      reads this
    {
      && TreeOk(parent)
      && forall k: Kind :: k in tab && TableOk(parent, k, tab[k])
    }

    // A new root graph gets the declarations of the prototype graph.
    constructor (proto: map<Kind, Dict>)
      requires forall k: Kind :: k in proto && Dense(proto[k])
      ensures Valid() && parent == [0] && forall k: Kind :: tab[k].dicts == [proto[k]]
      ensures forall k: Kind :: k != AGRAPH ==> tab[k].values == []
      ensures |tab[AGRAPH].values| == 1 && HasDefaults(parent, tab[AGRAPH].dicts, 0, tab[AGRAPH].values[0])
    {
      hide HasDefaults, Dense, TableOk;
      parent := [0];
      RootTables(proto);
      var v := AgMakeAttrs([0], [proto[AGRAPH]], 0);
      tab := map[AGRAPH := Table([proto[AGRAPH]], [v]),
                 AGNODE := Table([proto[AGNODE]], []),
                 AGEDGE := Table([proto[AGEDGE]], [])];
      FirstTable(proto, v);
      new;
      forall k: Kind
        ensures k in tab && TableOk(parent, k, tab[k])
        ensures tab[k].dicts == [proto[k]] && (k != AGRAPH ==> tab[k].values == [])
      {
        match k case AGRAPH => case AGNODE => case AGEDGE =>
      }
    }

    // A subgraph of p: no declarations of its own, and the defaults it sees as values.
    method NewSubgraph(p: nat) returns (g: nat)
      requires Valid() && p < |parent|
      modifies this
      ensures Valid() && g == old(|parent|) && parent == old(parent) + [p]
      ensures forall k: Kind :: tab[k].dicts == old(tab)[k].dicts + [map[]]
      ensures forall k: Kind :: k != AGRAPH ==> tab[k].values == old(tab)[k].values
      ensures |tab[AGRAPH].values| == g + 1 && tab[AGRAPH].values[..g] == old(tab)[AGRAPH].values
      ensures HasDefaults(parent, tab[AGRAPH].dicts, g, tab[AGRAPH].values[g])
    {
      hide HasDefaults, TableOk, TreeOk, DictsOk;
      g := |parent|;
      var t := tab[AGRAPH];
      TableFacts(parent, AGRAPH, t);
      var v := AgMakeAttrs(parent, t.dicts, p);
      SubgraphDefaults(parent, t.dicts, p, v);
      TreeGrows(parent, p);
      ghost var tab0 := tab;
      tab := map k: Kind | k in tab ::
               Table(tab[k].dicts + [map[]], if k == AGRAPH then tab[k].values + [v] else tab[k].values);
      forall k: Kind
        ensures TableOk(parent + [p], k, tab[k])
      {
        SubgraphTable(parent, k, tab0[k], p, t, v);
      }
      parent := parent + [p];
    }

    // A node or edge made in graph g.
    method NewObject(kind: Kind, g: nat) returns (o: nat)
      requires Valid() && kind != AGRAPH && g < |parent|
      modifies this`tab
      ensures Valid() && forall k: Kind :: k != kind ==> tab[k] == old(tab)[k]
      ensures tab[kind].dicts == old(tab)[kind].dicts
      ensures o == |old(tab)[kind].values| && |tab[kind].values| == o + 1
      ensures tab[kind].values[..o] == old(tab)[kind].values
      ensures HasDefaults(parent, tab[kind].dicts, g, tab[kind].values[o])
    {
      hide HasDefaults, TableOk, TreeOk, DictsOk;
      var t := tab[kind];
      TableFacts(parent, kind, t);
      var v := AgMakeAttrs(parent, t.dicts, g);
      o := |t.values|;
      ObjectTable(parent, kind, t, g, v);
      tab := tab[kind := Table(t.dicts, t.values + [v])];
    }

    // getattr: the default of a name at graph g.
    method GetAttr(kind: Kind, g: nat, name: string) returns (r: Option<Agsym>)
      requires Valid() && g < |parent|
      ensures TableOk(parent, kind, tab[kind])
      ensures r == Nearest(parent, tab[kind].dicts, g, name)
      ensures r.Some? <==> name in tab[kind].dicts[0]
      ensures r.Some? ==> exists a :: 0 <= a <= g && Covers(parent, tab[kind].dicts, a, g, name)
                                      && name in tab[kind].dicts[a] && r.value == tab[kind].dicts[a][name]
    {
      hide TreeOk, DictsOk;
      NearestKnown(parent, tab[kind].dicts, g, name);
      if name in tab[kind].dicts[0] {
        ghost var a := NearestWhere(parent, tab[kind].dicts, g, name);
      }
      return Nearest(parent, tab[kind].dicts, g, name);
    }

    // agget: an object's value, which is kept under the id that the root has for the name.
    method AgGet(kind: Kind, o: nat, name: string) returns (r: Option<string>)
      requires Valid() && o < |tab[kind].values|
      ensures TableOk(parent, kind, tab[kind])
      ensures if name in tab[kind].dicts[0]
              then
                var id := tab[kind].dicts[0][name].id;
                id < |tab[kind].values[o]| && r == tab[kind].values[o][id] && r.Some?
              else r == None
    {
      var t := tab[kind];
      SlotOf(parent, kind, t, o, name);
      hide TableOk;
      if name !in t.dicts[0] { return None; }
      return t.values[o][t.dicts[0][name].id];
    }

    // setattr: declares a default at graph g, or for a new name at the root.
    method SetAttr(g: nat, kind: Kind, name: string, value: string) returns (sym: Agsym)
      requires Valid() && g < |parent|
      modifies this`tab
      ensures Valid() && forall k: Kind :: k != kind ==> tab[k] == old(tab)[k]
      ensures sym.defval == value && Declares(parent, old(tab)[kind], tab[kind], kind, g, name, sym)
    {
      hide TableOk, TreeOk, DictsOk, Declared, Declares;
      var t := tab[kind];
      TableFacts(parent, kind, t);
      var d: seq<Dict>, s: seq<Values> := t.dicts, t.values;
      SymFacts(parent, kind, t, g, name);
      if name in d[g] {
        sym := Agsym(value, d[g][name].id);
        if kind == AGRAPH {
          ValuesFilled(parent, kind, t);
          d := UnviewSubgraphsAttr(parent, d, s, g, name, d[g][name]);
        }
        DeclareTable(parent, kind, t, g, name, sym);
        d := d[g := d[g][name := sym]];
      } else {
        var psym := Nearest(parent, d, g, name);
        if psym.Some? {
          sym := Agsym(value, psym.value.id);
          DeclareTable(parent, kind, t, g, name, sym);
          d := d[g := d[g][name := sym]];
        } else {
          sym := Agsym(value, |d[0]|);
          DeclareTable(parent, kind, t, g, name, sym);
          d := d[0 := d[0][name := sym]];
          s := AddAttr(s, value);
        }
      }
      tab := tab[kind := Table(d, s)];
      if kind == AGRAPH {
        DeclareGraph(parent, t, tab[kind], g, name, sym);
        ghost var t1 := tab[kind];
        AgXSet(kind, g, name, value);
        SetIs(t1, tab[kind], kind, g, name, value);
      } else {
        DeclareDone(parent, kind, t, tab[kind], g, name, sym);
      }
    }

    // agxset_: sets an object's value; a graph's value is its own default as well.
    method AgXSet(kind: Kind, o: nat, name: string, value: string)
      requires Valid() && o < |tab[kind].values|
      requires |tab[kind].dicts| > 0 && name in tab[kind].dicts[0]
      modifies this`tab
      ensures Valid() && forall k: Kind :: k != kind ==> tab[k] == old(tab)[k]
      ensures var t0, t, id := old(tab)[kind], tab[kind], old(tab)[kind].dicts[0][name].id;
              && o < |t0.values| == |t.values| && id < |t0.values[o]|
              && t.values[o] == t0.values[o][id := Some(value)]
              && forall p :: 0 <= p < |t.values| && p != o ==> t.values[p] == t0.values[p]
      ensures var t0, t, id := old(tab)[kind], tab[kind], old(tab)[kind].dicts[0][name].id;
              if kind == AGRAPH then
                && o < |t0.dicts| == |t.dicts| && t.dicts[o] == t0.dicts[o][name := Agsym(value, id)]
                && forall g :: 0 <= g < |t.dicts| && g != o ==> t.dicts[g] == t0.dicts[g]
              else t.dicts == t0.dicts
    {
      hide TableOk, TreeOk, DictsOk;
      var t := tab[kind];
      SlotOf(parent, kind, t, o, name);
      var id := t.dicts[0][name].id;
      SetTable(parent, kind, t, o, name, value);
      var d, s := t.dicts, t.values[o := t.values[o][id := Some(value)]];
      if kind == AGRAPH {
        GraphSlot(parent, t, o);
        d := d[o := d[o][name := Agsym(value, id)]];
      }
      tab := tab[kind := Table(d, s)];
    }

    // Getting a value after setting one: the new value for the same object and name, what
    // was there for any other, and for a graph the new value is its default as well.
    method SetThenGet(kind: Kind, o: nat, name: string, value: string, kind': Kind, o': nat, name': string)
      returns (was: Option<string>, r: Option<string>)
      requires Valid() && o < |tab[kind].values| && o' < |tab[kind'].values|
      requires |tab[kind].dicts| > 0 && name in tab[kind].dicts[0]
      modifies this`tab
      ensures Valid()
      ensures r == if kind' == kind && o' == o && name' == name then Some(value) else was
      ensures kind == AGRAPH ==> o < |tab[kind].dicts| && name in tab[kind].dicts[o]
                                 && tab[kind].dicts[o][name].defval == value
    {
      hide TableOk, TreeOk, DictsOk;
      was := AgGet(kind', o', name');
      ghost var t0 := tab[kind'];
      TableFacts(parent, kind', t0);
      AgXSet(kind, o, name, value);
      r := AgGet(kind', o', name');
      if kind' == kind && name' != name && name' in t0.dicts[0] {
        OtherSlot(t0.dicts, name, name');
      }
    }
  }

  // Two names have two slots.
  lemma OtherSlot(d: seq<Dict>, name: string, name': string)
    requires DictsOk(d) && name in d[0] && name' in d[0] && name != name'
    ensures d[0][name].id != d[0][name'].id
  {
  }

  // One value set: in the object's array, and for a graph in its own dictionary.
  ghost function ValueSet(t: Table, kind: Kind, o: nat, name: string, value: string): Table {
    if |t.dicts| == 0 || o >= |t.values| || name !in t.dicts[0] || t.dicts[0][name].id >= |t.values[o]| then t
    else
      var id := t.dicts[0][name].id;
      Table(if kind == AGRAPH && o < |t.dicts| then t.dicts[o := t.dicts[o][name := Agsym(value, id)]] else t.dicts,
            t.values[o := t.values[o][id := Some(value)]])
  }

  lemma SetIs(t0: Table, t: Table, kind: Kind, o: nat, name: string, value: string)
    requires |t0.dicts| > 0 && name in t0.dicts[0] && o < |t0.values| == |t.values|
    requires var id := t0.dicts[0][name].id;
             && id < |t0.values[o]| && t.values[o] == t0.values[o][id := Some(value)]
             && (forall p :: 0 <= p < |t.values| && p != o ==> t.values[p] == t0.values[p])
             && if kind == AGRAPH then
                  && o < |t0.dicts| == |t.dicts| && t.dicts[o] == t0.dicts[o][name := Agsym(value, id)]
                  && forall g :: 0 <= g < |t.dicts| && g != o ==> t.dicts[g] == t0.dicts[g]
                else t.dicts == t0.dicts
    ensures t == ValueSet(t0, kind, o, name, value)
  {
    var s := ValueSet(t0, kind, o, name, value);
    assert t.values == s.values && t.dicts == s.dicts;
  }

  lemma RootTables(proto: map<Kind, Dict>)
    requires forall k: Kind :: k in proto && Dense(proto[k])
    ensures forall k: Kind :: DictsOk([proto[k]])
    ensures TreeOk([0])
  {
  }

  lemma FirstTable(proto: map<Kind, Dict>, v: Values)
    requires forall k: Kind :: k in proto && Dense(proto[k])
    requires HasDefaults([0], [proto[AGRAPH]], 0, v)
    ensures TableOk([0], AGRAPH, Table([proto[AGRAPH]], [v]))
    ensures forall k: Kind :: k != AGRAPH ==> TableOk([0], k, Table([proto[k]], []))
  {
    RootTables(proto);
  }

  lemma TableFacts(parent: seq<nat>, kind: Kind, t: Table)
    requires TableOk(parent, kind, t)
    ensures |t.dicts| == |parent| && DictsOk(t.dicts) && (kind == AGRAPH ==> |t.values| == |parent|)
  {
  }

  lemma TreeGrows(parent: seq<nat>, p: nat)
    requires TreeOk(parent) && p < |parent|
    ensures TreeOk(parent + [p])
  {
  }

  lemma SubgraphTable(parent: seq<nat>, kind: Kind, t: Table, p: nat, tg: Table, v: Values)
    requires TableOk(parent, kind, t) && HasDefaults(parent, tg.dicts, p, v) && (kind == AGRAPH ==> t == tg)
    ensures TableOk(parent + [p], kind, Table(t.dicts + [map[]], if kind == AGRAPH then t.values + [v] else t.values))
  {
    hide Dense;
    var d' := t.dicts + [map[]];
    assert d'[0] == t.dicts[0];
  }

  lemma ObjectTable(parent: seq<nat>, kind: Kind, t: Table, g: nat, v: Values)
    requires TableOk(parent, kind, t) && kind != AGRAPH && HasDefaults(parent, t.dicts, g, v)
    ensures TableOk(parent, kind, Table(t.dicts, t.values + [v]))
  {
    hide DictsOk;
  }

  lemma SlotOf(parent: seq<nat>, kind: Kind, t: Table, o: nat, name: string)
    requires TableOk(parent, kind, t) && o < |t.values|
    ensures |t.dicts| > 0
    ensures name in t.dicts[0] ==> t.dicts[0][name].id < |t.values[o]| && t.values[o][t.dicts[0][name].id].Some?
  {
    assert Filled(t.values[o], |t.dicts[0]|);
  }

  lemma GraphSlot(parent: seq<nat>, t: Table, o: nat)
    requires TableOk(parent, AGRAPH, t) && o < |t.values|
    ensures o < |t.dicts|
  {
  }

  lemma SetTable(parent: seq<nat>, kind: Kind, t: Table, o: nat, name: string, value: string)
    requires TableOk(parent, kind, t) && o < |t.values| && |t.dicts| > 0 && name in t.dicts[0]
    ensures TableOk(parent, kind, ValueSet(t, kind, o, name, value))
  {
    SlotOf(parent, kind, t, o, name);
    var id := t.dicts[0][name].id;
    assert Filled(t.values[o], |t.dicts[0]|);
    if kind == AGRAPH {
      LocalOk(t.dicts, o, name, Agsym(value, id));
    }
    hide DictsOk;
  }

  // What p sees, a new subgraph of it sees.
  lemma SubgraphDefaults(parent: seq<nat>, d: seq<Dict>, p: nat, v: Values)
    requires TreeOk(parent) && |d| == |parent| && p < |d| && DictsOk(d) && HasDefaults(parent, d, p, v)
    ensures DictsOk(d + [map[]]) && HasDefaults(parent + [p], d + [map[]], |d|, v)
  {
    var par, d' := parent + [p], d + [map[]];
    assert d'[0] == d[0];
    forall n | n in d[0]
      ensures Nearest(par, d', |d|, n) == Nearest(parent, d, p, n)
    {
      SubgraphSees(parent, d, p, |d|, n);
    }
  }

  // The effect of declaring sym at g on the defaults and on the arrays.
  ghost predicate Declares(parent: seq<nat>, t0: Table, t: Table, kind: Kind, g: nat, name: string, sym: Agsym) {
    && TreeOk(parent) && |t0.dicts| == |t.dicts| == |parent| && g < |parent| && DictsOk(t0.dicts)
    && OthersSame(parent, t0.dicts, t.dicts, name)
    && Nearest(parent, t.dicts, g, name) == Some(sym)
    && (forall h :: 0 <= h < |parent| ==> DeclaredAt(parent, t0.dicts, t0.values, t.dicts, kind, g, name, sym, h))
    && ValuesAfter(t0.values, t.values, kind, g, name !in t0.dicts[0], sym)
  }

  // The same before a graph's own value is set.
  ghost predicate Declared(parent: seq<nat>, t0: Table, t: Table, kind: Kind, g: nat, name: string, sym: Agsym) {
    && TreeOk(parent) && |t0.dicts| == |t.dicts| == |parent| && g < |parent| && DictsOk(t0.dicts)
    && OthersSame(parent, t0.dicts, t.dicts, name)
    && Nearest(parent, t.dicts, g, name) == Some(sym)
    && (forall h :: 0 <= h < |parent| ==> DeclaredAt(parent, t0.dicts, t0.values, t.dicts, kind, g, name, sym, h))
    && t.values == (if name in t0.dicts[0] then t0.values else Added(t0.values, sym.defval))
    && name in t.dicts[0] && t.dicts[0][name].id == sym.id < |t.dicts[0]|
    && |t.dicts[0]| == |t0.dicts[0]| + (if name in t0.dicts[0] then 0 else 1)
  }

  // The three cases of setattr.
  ghost function DeclareIn(parent: seq<nat>, kind: Kind, t: Table, g: nat, name: string, sym: Agsym): Table
    requires TreeOk(parent) && TableOk(parent, kind, t) && g < |parent|
  {
    ghost var d := t.dicts;
    if name in d[g] && kind == AGRAPH && sym.id < |d[0]| then
      var p := Pinned(parent, d, t.values, g, name, sym.id);
      Table(p[g := p[g][name := sym]], t.values)
    else if name in d[0] then Table(d[g := d[g][name := sym]], t.values)
    else Table(d[0 := d[0][name := sym]], Added(t.values, sym.defval))
  }

  lemma SymFacts(parent: seq<nat>, kind: Kind, t: Table, g: nat, name: string)
    requires TreeOk(parent) && TableOk(parent, kind, t) && g < |parent|
    ensures |t.dicts| > 0
    ensures name in t.dicts[g] ==> name in t.dicts[0] && t.dicts[g][name].id == t.dicts[0][name].id < |t.dicts[0]|
    ensures Nearest(parent, t.dicts, g, name).Some? <==> name in t.dicts[0]
    ensures name in t.dicts[0] ==> Nearest(parent, t.dicts, g, name).value.id == t.dicts[0][name].id < |t.dicts[0]|
  {
    NearestKnown(parent, t.dicts, g, name);
  }

  lemma ValuesFilled(parent: seq<nat>, kind: Kind, t: Table)
    requires TableOk(parent, kind, t)
    ensures |t.dicts| > 0 && ValuesOk(t.values, |t.dicts[0]|)
  {
  }

  lemma DeclareTable(parent: seq<nat>, kind: Kind, t: Table, g: nat, name: string, sym: Agsym)
    requires TreeOk(parent) && TableOk(parent, kind, t) && g < |parent|
    requires |t.dicts| > 0 && sym.id == if name in t.dicts[0] then t.dicts[0][name].id else |t.dicts[0]|
    ensures var t' := DeclareIn(parent, kind, t, g, name, sym);
            TableOk(parent, kind, t') && Declared(parent, t, t', kind, g, name, sym)
  {
    var d := t.dicts;
    SymFacts(parent, kind, t, g, name);
    if name in d[g] && kind == AGRAPH {
      DeclarePinned(parent, d, t.values, g, name, sym);
    } else if name in d[0] {
      DeclareLocal(parent, d, t.values, kind, g, name, sym);
    } else {
      DeclareGlobal(parent, d, t.values, kind, g, name, sym.defval);
    }
    hide Dense, OthersSame, DeclaredAt, Nearest, ValuesOk;
    RootSym(parent, kind, t, g, name, sym);
  }

  // The root's symbol has the id.
  lemma RootSym(parent: seq<nat>, kind: Kind, t: Table, g: nat, name: string, sym: Agsym)
    requires TreeOk(parent) && TableOk(parent, kind, t) && g < |parent|
    requires |t.dicts| > 0 && sym.id == if name in t.dicts[0] then t.dicts[0][name].id else |t.dicts[0]|
    ensures var d := DeclareIn(parent, kind, t, g, name, sym).dicts;
            |d| > 0 && name in d[0] && d[0][name].id == sym.id
  {
    if name in t.dicts[g] && kind == AGRAPH && sym.id < |t.dicts[0]| {
      PinnedOk(parent, t.dicts, t.values, g, name, sym.id);
    }
  }

  lemma DeclareDone(parent: seq<nat>, kind: Kind, t0: Table, t: Table, g: nat, name: string, sym: Agsym)
    requires kind != AGRAPH && Declared(parent, t0, t, kind, g, name, sym)
    ensures Declares(parent, t0, t, kind, g, name, sym)
  {
    hide OthersSame, DeclaredAt, Nearest, DictsOk;
  }

  lemma DeclareGraph(parent: seq<nat>, t0: Table, t: Table, g: nat, name: string, sym: Agsym)
    requires Declared(parent, t0, t, AGRAPH, g, name, sym) && TableOk(parent, AGRAPH, t) && TableOk(parent, AGRAPH, t0)
    ensures |t.dicts| > 0 && g < |t.values| && name in t.dicts[0]
    ensures Declares(parent, t0, ValueSet(t, AGRAPH, g, name, sym.defval), AGRAPH, g, name, sym)
  {
    var d := t.dicts;
    GraphValue(parent, d, t.values, g, name, sym.defval, sym.id);
    var t' := ValueSet(t, AGRAPH, g, name, sym.defval);
    SlotOf(parent, AGRAPH, t, g, name);
    assert t'.dicts == d[g := d[g][name := sym]];
    SameDeclared(parent, t0.dicts, t0.values, d, t'.dicts, AGRAPH, g, name, sym);
    hide OthersSame, DeclaredAt, DictsOk;
  }
}
