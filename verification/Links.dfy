// The records that dictionaries link together, and the keys of the objects they are
// embedded in.
module Links {

  // The link of an object. Ordered sets use left and right; hash tables use right, and
  // hash for the hash value of the object's key.
  class Link {
    var left: Link?
    var right: Link?
    var hash: nat

    constructor ()
      ensures left == null && right == null && hash == 0
    {
      left, right, hash := null, null, 0;
    }
  }

  // A discipline, as far as it matters here: the key that each object has.
  type Disc = map<Link, int>

  function Key(k: Disc, x: Link): int {
    if x in k then k[x] else 0
  }

  // No link before number i of xs has its key.
  ghost predicate NewKey(k: Disc, xs: seq<Link>, i: nat)
    requires i < |xs|
  {
    forall j :: 0 <= j < i ==> Key(k, xs[j]) != Key(k, xs[i])
  }

  ghost predicate Distinct(xs: seq<Link>) {
    forall i, j :: 0 <= i < j < |xs| ==> xs[i] != xs[j]
  }

  // The objects but x have the same keys under both disciplines.
  ghost predicate SameBut(k0: Disc, k: Disc, x: Link) {
    forall y :: y in k0.Keys + k.Keys && y != x ==> Key(k0, y) == Key(k, y)
  }

  ghost function SetOf(f: seq<Link>): set<Link> {
    set x | x in f
  }

  // links are those of the list f whose key no earlier one has.
  ghost predicate FirstLinks(k: Disc, links: set<Link>, f: seq<Link>) {
    && (forall x :: x in links ==> x in f)
    && forall i :: 0 <= i < |f| ==> (f[i] in links <==> NewKey(k, f, i))
  }

  // Every key that was put in has a link.
  lemma {:induction false} KeyHeld(k: Disc, links: set<Link>, f: seq<Link>, i: nat)
    requires FirstLinks(k, links, f) && i < |f|
    ensures exists y :: y in links && Key(k, y) == Key(k, f[i])
    decreases i
  {
    if !NewKey(k, f, i) {
      var j :| 0 <= j < i && Key(k, f[j]) == Key(k, f[i]);
      KeyHeld(k, links, f, j);
    }
  }

  lemma LinksStep(k: Disc, links: set<Link>, f: seq<Link>, x: Link, links': set<Link>)
    requires FirstLinks(k, links, f) && x !in f
    requires if exists y :: y in links && Key(k, y) == Key(k, x) then links' == links else links' == links + {x}
    ensures FirstLinks(k, links', f + [x])
  {
    var g := f + [x];
    forall i | 0 <= i < |g|
      ensures g[i] in links' <==> NewKey(k, g, i)
    {
      if i < |f| {
        assert forall j :: 0 <= j <= i ==> g[j] == f[j];
        assert NewKey(k, g, i) ==> NewKey(k, f, i) by {
          assert NewKey(k, g, i) ==> forall j :: 0 <= j < i ==> Key(k, f[j]) == Key(k, g[j]) != Key(k, f[i]);
        }
        assert f[i] in f;
      } else if exists y :: y in links && Key(k, y) == Key(k, x) {
        var y :| y in links && Key(k, y) == Key(k, x);
        var j :| 0 <= j < |f| && f[j] == y;
        assert Key(k, g[j]) == Key(k, g[i]);
      } else {
        forall j | 0 <= j < i
          ensures Key(k, g[j]) != Key(k, x)
        {
          KeyHeld(k, links, f, j);
        }
      }
    }
  }
}
