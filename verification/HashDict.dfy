// The hash method of the container library: a chained table that moves the elements
// found to the front, grows in place, and holds still while it is being walked.
module HashDict {
  import opened Links
  import opened HashTable

  // The links are the objects of the map content, with their keys' hash values.
  ghost predicate KeysOk(k: Disc, hashf: int -> nat, links: set<Link>, content: map<int, Link>)
    reads links`hash
  {
    && (forall x :: x in links ==> Key(k, x) in content && content[Key(k, x)] == x && x.hash == hashf(Key(k, x)))
    && (forall n :: n in content ==> content[n] in links && Key(k, content[n]) == n)
  }

  ghost function Without(content: map<int, Link>, key: int): map<int, Link> {
    map n | n in content && n != key :: content[n]
  }

  // A chain with no link for key.
  ghost predicate Lacks(k: Disc, c: seq<Link>, i: nat, key: int)
  {
    i <= |c| && forall j :: 0 <= j < i ==> Key(k, c[j]) != key
  }

  ghost predicate HereOk(here: Link?, links: set<Link>) {
    here != null ==> here in links
  }

  // Link number i of chain s is in its place.
  lemma ChainFacts(htab: seq<Link?>, chains: seq<seq<Link>>, links: set<Link>, s: nat, i: nat)
    requires Shape(htab, chains, links) && s < |chains| && i < |chains[s]|
    ensures |htab| == |chains| && chains[s][i] in links && chains[s][i].right == At(chains[s], i + 1)
  {
    NextIs(htab, chains, links, s, i);
  }

  // A key that its chain lacks is not in the table.
  lemma NotThere(k: Disc, hashf: int -> nat, chains: seq<seq<Link>>, links: set<Link>, content: map<int, Link>,
                 htab: seq<Link?>, key: int)
    requires Shape(htab, chains, links) && AllFiled(chains, links) && KeysOk(k, hashf, links, content)
    requires |htab| == 0 || (var s := HIndex(|htab|, hashf(key)); s < |chains| && Lacks(k, chains[s], |chains[s]|, key))
    ensures key !in content
  {
    forall x | x in links
      ensures Key(k, x) != key
    {
      var s :| 0 <= s < |chains| && x in chains[s];
      assert Filed(chains, s, |chains|);
    }
  }

  // The last link of the chain for a hash value, null if that is empty.
  ghost function LastOfSlot(chains: seq<seq<Link>>, hsh: nat): Link? {
    if |chains| > 0 && HIndex(|chains|, hsh) < |chains| then Final(chains[HIndex(|chains|, hsh)]) else null
  }

  ghost predicate SameSlot(n: nat, h: nat, h': nat) {
    n > 0 && HIndex(n, h) == HIndex(n, h')
  }

  // It is null exactly if no link of the table has the slot of the hash value, and
  // otherwise is one of those that do.
  lemma SlotEnd(htab: seq<Link?>, chains: seq<seq<Link>>, links: set<Link>, hsh: nat)
    requires Shape(htab, chains, links) && AllFiled(chains, links) && TableSize(|htab|)
    ensures var o := LastOfSlot(chains, hsh);
            if o == null then forall x :: x in links ==> !SameSlot(|htab|, x.hash, hsh)
            else o in links && SameSlot(|htab|, o.hash, hsh)
  {
    if |htab| > 0 {
      var s := HIndex(|htab|, hsh);
      SlotInRange(|htab|, hsh);
      assert Filed(chains, s, |chains|);
      if chains[s] == [] {
        forall x | x in links
          ensures HIndex(|htab|, x.hash) != s
        {
          var u :| 0 <= u < |chains| && x in chains[u];
          InItsSlot(chains, links, u, x);
        }
      } else {
        assert Final(chains[s]) in chains[s];
        InItsSlot(chains, links, s, Final(chains[s]));
      }
    }
  }

  lemma SlotInRange(n: nat, h: nat)
    requires TableSize(n) && n > 0
    ensures HIndex(n, h) < n
  {
    IndexGrows(n, n, h);
  }

  // ------------------------------------------------------------------ the order

  // The links of the table in the order a walk meets them.
  ghost function Flat(chains: seq<seq<Link>>): seq<Link> {
    if chains == [] then [] else chains[0] + Flat(chains[1..])
  }

  lemma {:induction false} FlatSplit(a: seq<seq<Link>>, b: seq<seq<Link>>)
    ensures Flat(a + b) == Flat(a) + Flat(b)
  {
    if a == [] {
      assert a + b == b;
    } else {
      assert (a + b)[1..] == a[1..] + b;
      FlatSplit(a[1..], b);
    }
  }

  lemma FlatAt(chains: seq<seq<Link>>, s: nat)
    requires s < |chains|
    ensures Flat(chains) == Flat(chains[..s]) + chains[s] + Flat(chains[s + 1..])
  {
    assert chains == chains[..s] + chains[s..];
    FlatSplit(chains[..s], chains[s..]);
    assert chains[s..][0] == chains[s] && chains[s..][1..] == chains[s + 1..];
  }

  lemma {:induction false} FlatMembers(chains: seq<seq<Link>>)
    ensures forall x :: x in Flat(chains) <==> InTable(chains, x)
  {
    if chains != [] {
      var rest := chains[1..];
      FlatMembers(rest);
      forall x
        ensures InTable(chains, x) <==> x in chains[0] || InTable(rest, x)
      {
        if InTable(chains, x) {
          var s :| 0 <= s < |chains| && x in chains[s];
          if s > 0 {
            assert x in rest[s - 1];
          }
        }
        if InTable(rest, x) {
          var s :| 0 <= s < |rest| && x in rest[s];
          assert x in chains[s + 1];
        }
      }
    }
  }

  lemma {:induction false} FlatDistinct(chains: seq<seq<Link>>)
    requires Apart(chains)
    ensures Distinct(Flat(chains))
  {
    if chains != [] {
      var rest := chains[1..];
      assert forall s :: 0 <= s < |rest| ==> rest[s] == chains[s + 1];
      FlatDistinct(rest);
      FlatMembers(rest);
      forall x | x in chains[0]
        ensures x !in Flat(rest)
      {
        forall s | 0 <= s < |rest|
          ensures x !in rest[s]
        {
          assert rest[s] == chains[s + 1];
        }
      }
      var a, b := chains[0], Flat(rest);
      forall i, j | 0 <= i < j < |a + b|
        ensures (a + b)[i] != (a + b)[j]
      {
        if i < |a| && j >= |a| {
          assert b[j - |a|] in b && a[i] in a;
        }
      }
    }
  }

  // f1 is f0 with x put in somewhere.
  ghost predicate PutIn(f0: seq<Link>, f1: seq<Link>, x: Link) {
    exists m :: 0 <= m <= |f0| && f1 == f0[..m] + [x] + f0[m..]
  }

  lemma PushFlat(chains: seq<seq<Link>>, s: nat, x: Link)
    requires s < |chains|
    ensures PutIn(Flat(chains), Flat(chains[s := [x] + chains[s]]), x)
  {
    var c1 := chains[s := [x] + chains[s]];
    FlatAt(chains, s);
    FlatAt(c1, s);
    hide Flat;
    assert c1[..s] == chains[..s] && c1[s + 1..] == chains[s + 1..];
    var f0, m := Flat(chains), |Flat(chains[..s])|;
    assert Flat(c1) == f0[..m] + [x] + f0[m..];
  }

  lemma RemoveFlat(chains: seq<seq<Link>>, s: nat, i: nat)
    requires s < |chains| && i < |chains[s]|
    ensures PutIn(Flat(chains[s := RemoveAt(chains[s], i)]), Flat(chains), chains[s][i])
  {
    var c1 := chains[s := RemoveAt(chains[s], i)];
    FlatAt(chains, s);
    FlatAt(c1, s);
    hide Flat;
    assert c1[..s] == chains[..s] && c1[s + 1..] == chains[s + 1..];
    CutPlace(Flat(chains[..s]), chains[s], Flat(chains[s + 1..]), i);
  }

  lemma CutPlace(a: seq<Link>, c: seq<Link>, b: seq<Link>, i: nat)
    requires i < |c|
    ensures PutIn(a + RemoveAt(c, i) + b, a + c + b, c[i])
  {
    var f0, f1, m := a + RemoveAt(c, i) + b, a + c + b, |a| + i;
    assert f0[..m] == a + c[..i];
    assert f0[m..] == c[i + 1..] + b;
    assert c == c[..i] + [c[i]] + c[i + 1..];
    assert f1 == a + c[..i] + [c[i]] + c[i + 1..] + b;
    assert f1 == f0[..m] + [c[i]] + f0[m..];
  }

  // o comes right after x, null if x is the last.
  ghost predicate Follows(f: seq<Link>, x: Link, o: Link?) {
    exists j :: 0 <= j < |f| && f[j] == x && o == At(f, j + 1)
  }

  lemma {:induction false} FirstOfFlat(chains: seq<seq<Link>>, u: nat)
    requires u <= |chains| && (forall v :: 0 <= v < u ==> chains[v] == [])
    requires u < |chains| ==> chains[u] != []
    ensures At(Flat(chains), 0) == if u < |chains| then chains[u][0] else null
  {
    if u > 0 {
      assert forall v :: 0 <= v < u - 1 ==> chains[1..][v] == chains[v + 1];
      FirstOfFlat(chains[1..], u - 1);
    }
  }

  lemma NextInChain(chains: seq<seq<Link>>, s: nat, i: nat)
    requires s < |chains| && i + 1 < |chains[s]|
    ensures Follows(Flat(chains), chains[s][i], chains[s][i + 1])
  {
    FlatAt(chains, s);
    var f, j := Flat(chains), |Flat(chains[..s])| + i;
    assert f[j] == chains[s][i] && f[j + 1] == chains[s][i + 1];
  }

  lemma NextInTable(chains: seq<seq<Link>>, s: nat, i: nat, u: nat)
    requires s < |chains| && i + 1 == |chains[s]| && s < u <= |chains|
    requires forall v :: s < v < u ==> chains[v] == []
    requires u < |chains| ==> chains[u] != []
    ensures Follows(Flat(chains), chains[s][i], if u < |chains| then chains[u][0] else null)
  {
    FlatAt(chains, s);
    var rest := chains[s + 1..];
    assert forall v :: 0 <= v < |rest| ==> rest[v] == chains[s + 1 + v];
    FirstOfFlat(rest, u - s - 1);
    var f, j := Flat(chains), |Flat(chains[..s])| + i;
    assert f[j] == chains[s][i] && At(f, j + 1) == At(Flat(rest), 0);
  }

  // x has come to the front of its chain, and nothing else has moved.
  ghost predicate ToFront(c0: seq<seq<Link>>, c1: seq<seq<Link>>, x: Link) {
    exists s, i :: 0 <= s < |c0| && 0 <= i < |c0[s]| && c0[s][i] == x
                   && c1 == c0[s := [x] + (c0[s][..i] + c0[s][i + 1..])]
  }

  ghost predicate LeadsChain(chains: seq<seq<Link>>, x: Link) {
    exists s :: 0 <= s < |chains| && chains[s] != [] && chains[s][0] == x
  }

  // The finger after x has been taken out: the link before it in its chain, or what is
  // the first there now.
  ghost predicate FingerFrom(c0: seq<seq<Link>>, c1: seq<seq<Link>>, x: Link, here: Link?) {
    exists s, i :: 0 <= s < |c0| == |c1| && 0 <= i < |c0[s]| && c0[s][i] == x
                   && here == if i > 0 then c0[s][i - 1] else HashTable.At(c1[s], 0)
  }

  lemma FrontIs(chains: seq<seq<Link>>, s: nat, i: nat)
    requires s < |chains| && i < |chains[s]|
    ensures ToFront(chains, Moved(chains, s, i, s), chains[s][i])
    ensures i == 0 ==> ToFront(chains, chains, chains[s][i])
  {
    var c := chains[s];
    assert Moved(chains, s, i, s) == chains[s := [c[i]] + (c[..i] + c[i + 1..])];
    if i == 0 {
      assert c == [c[0]] + (c[..0] + c[1..]);
      assert chains == chains[s := [c[0]] + (c[..0] + c[1..])];
    }
  }

  lemma LeadsNow(chains: seq<seq<Link>>, s: nat, x: Link)
    requires s < |chains|
    ensures LeadsChain(chains[s := [x] + chains[s]], x)
  {
    assert chains[s := [x] + chains[s]][s][0] == x;
  }

  lemma FingerIs(c0: seq<seq<Link>>, c1: seq<seq<Link>>, s: nat, i: nat, here: Link?)
    requires s < |c0| == |c1| && i < |c0[s]| && here == if i > 0 then c0[s][i - 1] else HashTable.At(c1[s], 0)
    ensures FingerFrom(c0, c1, c0[s][i], here)
  {
  }

  class Hash {
    const hashf: int -> nat
    // The keys of the objects.
    var disc: Disc
    var here: Link?
    var htab: seq<Link?>
    var size: int
    var loop: nat
    ghost var chains: seq<seq<Link>>
    ghost var links: set<Link>
    // What the dictionary means: a finite map from keys to objects.
    ghost var content: map<int, Link>

    ghost predicate Valid()
      reads this, links
    {
      ValidUnder(disc)
    }

    ghost predicate ValidUnder(k: Disc)
      reads this, links
    {
      && Shape(htab, chains, links) && AllFiled(chains, links) && TableSize(|htab|)
      && KeysOk(k, hashf, links, content) && HereOk(here, links)
      && Loaded()
    }

    // The size is exact; with no walk under way the table has room for it, and one
    // can be under way only in a table that exists.
    ghost predicate Loaded()
      reads this
    {
      && size == |content|
      && (if loop > 0 then |htab| > 0 else size <= HLoad(|htab|))
    }

    constructor (hashf: int -> nat, disc: Disc)
      ensures this.disc == disc && Valid() && content == map[] && links == {} && loop == 0 && this.hashf == hashf
      ensures htab == [] && here == null && size == 0
    {
      this.hashf, this.disc := hashf, disc;
      here, htab, size, loop := null, [], 0, 0;
      chains, links, content := [], {}, map[];
    }

    // do_search: walks the chain of the key.
    method Find(key: int, hsh: nat) returns (s: nat, p: Link?, t: Link?, ghost i: nat)
      requires Valid() && hsh == hashf(key)
      ensures t == null <==> key !in content
      ensures t != null ==> t == content[key] && s < |chains| && i < |chains[s]| && chains[s][i] == t
      ensures t != null ==> p == if i == 0 then null else chains[s][i - 1]
      ensures t == null ==> p == LastOfSlot(chains, hsh)
    {
      hide Shape, AllFiled, HIndex;
      s, p, t, i := 0, null, null, 0;
      SameLength();
      if |htab| > 0 {
        s := HIndex(|htab|, hsh);
        SlotInRange(|htab|, hsh);
        ChainStart(htab, chains, links, s);
        t := htab[s];
        while t != null && !(hsh == t.hash && key == Key(disc, t))
          invariant i <= |chains[s]| && t == At(chains[s], i) && Lacks(disc, chains[s], i, key)
          invariant p == if i == 0 then null else chains[s][i - 1]
          decreases |chains[s]| - i
        {
          ChainFacts(htab, chains, links, s, i);
          p, t := t, t.right;
          i := i + 1;
        }
        if t != null {
          ChainFacts(htab, chains, links, s, i);
        }
      }
      if t == null {
        NotThere(disc, hashf, chains, links, content, htab, key);
      }
    }

    lemma SameLength()
      requires Shape(htab, chains, links)
      ensures |htab| == |chains|
    {
    }

    // DT_SEARCH and DT_MATCH: with no walk under way, the link comes to the front
    // of its chain.
    method Search(key: int) returns (o: Link?)
      requires Valid()
      modifies this, links`right
      ensures Valid() && disc == old(disc) && content == old(content) && loop == old(loop) && links == old(links)
      ensures if key in content then o == content[key] == here else o == null && here == old(here)
      ensures loop > 0 || key !in content ==> chains == old(chains)
      ensures loop == 0 && key in content ==> ToFront(old(chains), chains, content[key])
    {
      hide Shape, AllFiled, HIndex, Moved, ToFront;
      var hsh := hashf(key);
      var s, p, t;
      ghost var i;
      s, p, t, i := Find(key, hsh);
      if t == null {
        return null;
      }
      FrontIs(chains, s, i);
      if p != null && loop <= 0 {
        FrontFiled(chains, links, s, i);
        htab := MoveOne(htab, s, p, t, s, chains, i, links);
        chains := Moved(chains, s, i, s);
      }
      here := t;
      return t;
    }

    // DT_INSERT: puts x in unless its key is taken; returns the object that has it.
    method Insert(x: Link) returns (o: Link)
      requires Valid()
      modifies this, links`right, x`hash, x`right
      ensures Valid() && disc == old(disc) && loop == old(loop) && here == o && Key(disc, o) == Key(disc, x)
      ensures Key(disc, x) in old(content) ==>
                && o == old(content)[Key(disc, x)] && content == old(content)
                && chains == old(chains) && links == old(links)
      ensures Key(disc, x) !in old(content) ==>
                o == x && content == old(content)[Key(disc, x) := x] && links == old(links) + {x}
      ensures Key(disc, x) !in old(content) ==> LeadsChain(chains, x)
      ensures Key(disc, x) !in old(content) && loop > 0 ==> PutIn(old(Flat(chains)), Flat(chains), x)
    {
      hide Shape, AllFiled, HIndex, Flat, PutIn, LeadsChain;
      var hsh := hashf(Key(disc, x));
      var s, p, t;
      ghost var i;
      s, p, t, i := Find(Key(disc, x), hsh);
      if t != null {
        FoundIn(t);
        here := t;
        return t;
      }
      Add(x, hsh);
      return x;
    }

    // DT_RENEW: as DT_INSERT, with the hash value that r has already.
    method Renew(r: Link) returns (o: Link)
      requires Valid() && r.hash == hashf(Key(disc, r))
      modifies this, links`right, r`hash, r`right
      ensures Valid() && disc == old(disc) && loop == old(loop) && Key(disc, o) == Key(disc, r) && r.hash == old(r.hash)
      ensures Key(disc, r) in old(content) ==>
                && o == old(content)[Key(disc, r)] && content == old(content)
                && chains == old(chains) && links == old(links)
      ensures Key(disc, r) !in old(content) ==>
                && o == r && content == old(content)[Key(disc, r) := r] && links == old(links) + {r}
                && LeadsChain(chains, r)
    {
      hide Shape, AllFiled, HIndex, Flat, PutIn, LeadsChain;
      var s, p, t;
      ghost var i;
      s, p, t, i := Find(Key(disc, r), r.hash);
      if t != null {
        FoundIn(t);
        return t;
      }
      Add(r, r.hash);
      return r;
    }

    // do_insert, when the key is not taken.
    method Add(x: Link, hsh: nat)
      requires Valid() && Key(disc, x) !in content && hsh == hashf(Key(disc, x))
      modifies this, links`right, x`hash, x`right
      ensures Valid() && disc == old(disc) && loop == old(loop) && here == x && x.hash == hsh
      ensures content == old(content)[Key(disc, x) := x] && links == old(links) + {x} && LeadsChain(chains, x)
      ensures loop > 0 ==> PutIn(old(Flat(chains)), Flat(chains), x)
    {
      hide Shape, AllFiled, HIndex, Flat, PutIn, TableSize, KeysOk, LeadsChain;
      NotALink(x);
      MakeRoom(x, hsh);
      PutFront(x, hsh);
      KeysAdd(disc, hashf, links, content, x);
      links, content := links + {x}, content[Key(disc, x) := x];
      here := x;
    }

    // Counts x, and grows the table for it if no walk is under way.
    method MakeRoom(x: Link, hsh: nat)
      requires Valid() && x !in links
      modifies this`size, this`htab, this`chains, links`right, x`hash
      ensures Sound() && KeysOk(disc, hashf, links, content) && |htab| > 0 && x.hash == hsh
      ensures size == |content| + 1 && (loop > 0 || size <= HLoad(|htab|))
      ensures loop > 0 ==> chains == old(chains)
    {
      hide Shape, AllFiled, TableSize, KeysOk;
      x.hash := hsh;
      size := size + 1;
      if size > HLoad(|htab|) && loop <= 0 {
        Grow();
      }
    }

    // The table and its chains, whatever the size is said to be.
    ghost predicate Sound()
      reads this, links
    {
      Shape(htab, chains, links) && AllFiled(chains, links) && TableSize(|htab|)
    }

    method Grow()
      requires Sound()
      modifies this`htab, this`chains, links`right
      ensures Sound() && |htab| >= HSLOT && |htab| >= old(|htab|) && size <= HLoad(|htab|)
      ensures |htab| == old(|htab|) ==> chains == old(chains)
    {
      hide Shape, AllFiled, TableSize;
      htab, chains := DtHtab(htab, size, chains, links);
    }

    method PutFront(x: Link, hsh: nat)
      requires Sound() && x !in links && x.hash == hsh && |htab| > 0
      modifies this`htab, this`chains, x`right
      ensures Shape(htab, chains, links + {x}) && AllFiled(chains, links + {x}) && |htab| == old(|htab|)
      ensures PutIn(old(Flat(chains)), Flat(chains), x) && LeadsChain(chains, x)
    {
      hide Shape, AllFiled, HIndex, Flat, PutIn, TableSize;
      var s := HIndex(|htab|, hsh);
      SlotInRange(|htab|, hsh);
      SameLength();
      PushFiled(chains, links, s, x);
      PushFlat(chains, s, x);
      htab := PushFront(htab, s, x, chains, links);
      LeadsNow(chains, s, x);
      chains := chains[s := [x] + chains[s]];
    }

    lemma NotALink(x: Link)
      requires KeysOk(disc, hashf, links, content) && Key(disc, x) !in content
      ensures x !in links
    {
    }

    lemma FoundIn(t: Link)
      requires KeysOk(disc, hashf, links, content) && Key(disc, t) in content && t == content[Key(disc, t)]
      ensures t in links
    {
    }

    // DT_DELETE: takes out the object with obj's key.
    method Delete(obj: Link) returns (o: Link?)
      requires Valid()
      modifies this, links`right
      ensures Valid() && disc == old(disc) && loop == old(loop) && links <= old(links)
      ensures content == Without(old(content), Key(disc, obj))
      ensures Key(disc, obj) !in old(content) ==>
                o == null && chains == old(chains) && links == old(links) && here == old(here)
      ensures |htab| == old(|htab|)
      ensures Key(disc, obj) in old(content) ==>
                && o == old(content)[Key(disc, obj)] && links == old(links) - {o}
                && PutIn(Flat(chains), old(Flat(chains)), o) && FingerFrom(old(chains), chains, o, here)
    {
      hide Shape, AllFiled, HIndex, Flat, PutIn, FingerFrom;
      var s, p, t;
      ghost var i;
      s, p, t, i := Locate(obj);
      if t == null {
        return null;
      }
      SameLength();
      p := Before(s, p, t, i);
      TakeOut(s, p, t, i);
      return t;
    }

    method TakeOut(s: nat, p0: Link?, t: Link, ghost i: nat)
      requires Valid() && s < |htab| == |chains| && i < |chains[s]| && t == chains[s][i]
      requires p0 == if i == 0 then null else chains[s][i - 1]
      requires Key(disc, t) in content && t == content[Key(disc, t)]
      modifies this, links`right
      ensures Valid() && disc == old(disc) && loop == old(loop) && links == old(links) - {t}
      ensures content == Without(old(content), Key(disc, t))
      ensures PutIn(Flat(chains), old(Flat(chains)), t) && |htab| == old(|htab|)
      ensures FingerFrom(old(chains), chains, t, here)
    {
      hide Shape, AllFiled, HIndex, Flat, PutIn, TableSize, KeysOk, Without, FingerFrom;
      var p := p0;
      FoundIn(t);
      PredecessorStays(htab, chains, links, s, i);
      CutOut(s, p, t, i);
      KeysRemove(disc, hashf, links, content, t);
      links := links - {t};
      content := Without(content, Key(disc, t));
      if p == null {
        FirstIn(htab, chains, links, s);
        p := htab[s];
      }
      size := size - 1;
      here := p;
      FingerIs(old(chains), chains, s, i, here);
    }

    method CutOut(s: nat, p: Link?, t: Link, ghost i: nat)
      requires Sound() && s < |htab| == |chains| && i < |chains[s]| && t == chains[s][i]
      requires p == if i == 0 then null else chains[s][i - 1]
      modifies this`htab, this`chains, links`right
      ensures Shape(htab, chains, links - {t}) && AllFiled(chains, links - {t})
      ensures |htab| == |chains| == old(|htab|)
      ensures PutIn(Flat(chains), old(Flat(chains)), t)
    {
      hide Shape, AllFiled, HIndex, Flat, PutIn, TableSize;
      IsApart(htab, chains, links);
      RemoveFiled(chains, links, s, i);
      RemoveFlat(chains, s, i);
      htab := Unlink(htab, s, p, t, chains, i, links);
      chains := chains[s := RemoveAt(chains[s], i)];
    }

    // Finds an object: at once if it is the one found last.
    method Locate(obj: Link) returns (s: nat, p: Link?, t: Link?, ghost i: nat)
      requires Valid()
      ensures t == null <==> Key(disc, obj) !in content
      ensures t != null ==> t == content[Key(disc, obj)] && s < |chains| && i < |chains[s]| && chains[s][i] == t
      ensures t != null ==> p == null || (i > 0 && p == chains[s][i - 1])
      ensures t == null ==> p == LastOfSlot(chains, hashf(Key(disc, obj)))
    {
      hide AllFiled, HIndex, LastOfSlot;
      if here != null && here == obj {
        t, p := here, null;
        SameLength();
        ghost var s' :| 0 <= s' < |chains| && t in chains[s'];
        InItsSlot(chains, links, s', t);
        s := HIndex(|htab|, t.hash);
        i :| 0 <= i < |chains[s]| && chains[s][i] == t;
      } else {
        s, p, t, i := Find(Key(disc, obj), hashf(Key(disc, obj)));
      }
    }

    // The link before t in its chain, null if t is the first.
    method Before(s: nat, p0: Link?, t: Link, ghost i: nat) returns (p: Link?)
      requires Sound() && s < |htab| == |chains| && i < |chains[s]| && chains[s][i] == t
      requires p0 == null || (i > 0 && p0 == chains[s][i - 1])
      ensures p == if i == 0 then null else chains[s][i - 1]
    {
      hide AllFiled, HIndex;
      p := p0;
      assert Linked(htab[s], chains[s]);
      if p == null && htab[s] != t {
        p := htab[s];
        ghost var j := 0;
        while p.right != t
          invariant j < i && p == chains[s][j]
          decreases i - j
        {
          j := j + 1;
          p := p.right;
        }
      }
    }

    // The first link from slot s on.
    method Scan(from: nat) returns (p: Link?, ghost u: nat)
      requires Valid() && from <= |htab|
      ensures from <= u <= |htab| == |chains|
      ensures forall v :: from <= v < u ==> chains[v] == []
      ensures if u < |chains| then chains[u] != [] && p == chains[u][0] else p == null
    {
      hide Shape, AllFiled, HIndex, TableSize;
      SameLength();
      var s := from;
      p := null;
      while s < |htab| && p == null
        invariant from <= s <= |htab|
        invariant p == null ==> forall v :: from <= v < s ==> chains[v] == []
        invariant p != null ==> s > from && chains[s - 1] != [] && p == chains[s - 1][0]
                                && forall v :: from <= v < s - 1 ==> chains[v] == []
      {
        ChainStart(htab, chains, links, s);
        p := htab[s];
        s := s + 1;
      }
      u := if p == null then s else s - 1;
    }

    // DT_FIRST: starts a walk, unless there is nothing to walk over.
    method FirstLink() returns (o: Link?)
      requires Valid()
      modifies this`here, this`loop
      ensures Valid() && o == At(Flat(chains), 0)
      ensures o == null <==> content == map[]
      ensures if o == null then loop == old(loop) && here == old(here) else loop == old(loop) + 1 && here == o
    {
      hide Shape, AllFiled, HIndex, TableSize, Flat;
      if size <= 0 {
        NoLinks(disc, hashf, links, content);
        FlatOf(htab, chains, links);
        FirstIsLink(chains, links);
        return null;
      }
      SomeLink(disc, hashf, links, content);
      var t;
      ghost var u;
      t, u := Scan(0);
      FirstOfFlat(chains, u);
      FlatOf(htab, chains, links);
      FirstIsLink(chains, links);
      loop := loop + 1;
      here := t;
      return t;
    }

    // DT_NEXT: the object after the one with obj's key. If there is none with that key,
    // it is the last one of the chain in which such an object would be. At the end, the
    // walk is over, and the growth that has been put off is done.
    method Next(obj: Link) returns (o: Link?)
      requires Valid()
      modifies this, links`right
      ensures Valid() && disc == old(disc) && content == old(content) && links == old(links)
      ensures Key(disc, obj) in old(content) ==> Follows(old(Flat(chains)), old(content)[Key(disc, obj)], o)
      ensures Key(disc, obj) !in old(content) ==> o == old(LastOfSlot(chains, hashf(Key(disc, obj))))
      ensures o != null ==> o in links && chains == old(chains) && loop == old(loop) && here == o
      ensures o == null ==> here == null && loop == (if old(loop) > 0 then old(loop) - 1 else 0)
    {
      hide Shape, AllFiled, HIndex, TableSize, Flat, Follows, LastOfSlot, KeysOk;
      var s, p, t;
      ghost var i;
      s, p, t, i := Locate(obj);
      if t != null {
        p := After(s, t, i);
      } else {
        SlotEnd(htab, chains, links, hashf(Key(disc, obj)));
      }
      if p == null {
        EndWalk();
        return null;
      }
      here := p;
      return p;
    }

    // The link after t, in its chain or at the start of the next one that is not empty.
    method After(s: nat, t: Link, ghost i: nat) returns (p: Link?)
      requires Valid() && s < |chains| && i < |chains[s]| && chains[s][i] == t
      ensures Follows(Flat(chains), t, p) && (p != null ==> p in links)
    {
      hide Shape, AllFiled, HIndex, TableSize, Flat, Follows;
      SameLength();
      ChainFacts(htab, chains, links, s, i);
      p := t.right;
      if p == null {
        ghost var u;
        p, u := Scan(s + 1);
        NextInTable(chains, s, i, u);
      } else {
        NextInChain(chains, s, i);
      }
      if p != null {
        AfterIn(htab, chains, links, t, p);
      }
    }

    // end_walk.
    method EndWalk()
      requires Valid()
      modifies this`here, this`loop, this`htab, this`chains, links`right
      ensures Valid() && here == null && loop == (if old(loop) > 0 then old(loop) - 1 else 0)
    {
      hide Shape, AllFiled, TableSize;
      here := null;
      loop := if loop > 0 then loop - 1 else 0;
      if size > HLoad(|htab|) && loop <= 0 {
        Grow();
      }
    }
  }

  lemma FrontFiled(chains: seq<seq<Link>>, links: set<Link>, s: nat, i: nat)
    requires AllFiled(chains, links) && s < |chains| && i < |chains[s]|
    ensures AllFiled(Moved(chains, s, i, s), links) && |Moved(chains, s, i, s)| == |chains|
  {
    var c, m := chains[s], Moved(chains, s, i, s);
    assert m[s] == [c[i]] + RemoveAt(c, i);
    forall u | 0 <= u < |m|
      ensures Filed(m, u, |m|)
    {
      assert Filed(chains, u, |chains|);
    }
  }

  lemma PushFiled(chains: seq<seq<Link>>, links: set<Link>, s: nat, x: Link)
    requires AllFiled(chains, links) && s < |chains| && HIndex(|chains|, x.hash) == s
    ensures AllFiled(chains[s := [x] + chains[s]], links + {x})
  {
    var m := chains[s := [x] + chains[s]];
    forall u | 0 <= u < |m|
      ensures Filed(m, u, |m|)
    {
      assert Filed(chains, u, |chains|);
    }
  }

  lemma RemoveFiled(chains: seq<seq<Link>>, links: set<Link>, s: nat, i: nat)
    requires AllFiled(chains, links) && s < |chains| && i < |chains[s]| && Apart(chains)
    ensures AllFiled(chains[s := RemoveAt(chains[s], i)], links - {chains[s][i]})
  {
    var c, c' := chains[s], RemoveAt(chains[s], i);
    var m := chains[s := c'];
    assert forall j :: 0 <= j < |c'| ==> c'[j] == if j < i then c[j] else c[j + 1];
    forall u | 0 <= u < |m|
      ensures Filed(m, u, |m|)
    {
      assert Filed(chains, u, |chains|);
    }
  }

  lemma InItsSlot(chains: seq<seq<Link>>, links: set<Link>, s: nat, x: Link)
    requires AllFiled(chains, links) && s < |chains| && x in chains[s]
    ensures s == HIndex(|chains|, x.hash)
  {
    assert Filed(chains, s, |chains|);
  }

  lemma IsApart(htab: seq<Link?>, chains: seq<seq<Link>>, links: set<Link>)
    requires Shape(htab, chains, links)
    ensures Apart(chains)
  {
  }

  lemma PredecessorStays(htab: seq<Link?>, chains: seq<seq<Link>>, links: set<Link>, s: nat, i: nat)
    requires Shape(htab, chains, links) && s < |chains| && i < |chains[s]|
    ensures i > 0 ==> chains[s][i - 1] in links - {chains[s][i]}
  {
  }

  lemma FirstIn(htab: seq<Link?>, chains: seq<seq<Link>>, links: set<Link>, s: nat)
    requires Shape(htab, chains, links) && s < |chains|
    ensures s < |htab| && (htab[s] != null ==> htab[s] in links) && htab[s] == HashTable.At(chains[s], 0)
  {
    assert Linked(htab[s], chains[s]);
  }

  lemma KeysAdd(k: Disc, hashf: int -> nat, links: set<Link>, content: map<int, Link>, x: Link)
    requires KeysOk(k, hashf, links, content) && Key(k, x) !in content && x.hash == hashf(Key(k, x))
    ensures KeysOk(k, hashf, links + {x}, content[Key(k, x) := x]) && |content[Key(k, x) := x]| == |content| + 1
  {
  }

  lemma KeysRemove(k: Disc, hashf: int -> nat, links: set<Link>, content: map<int, Link>, x: Link)
    requires KeysOk(k, hashf, links, content) && x in links
    ensures var rest := Without(content, Key(k, x));
            KeysOk(k, hashf, links - {x}, rest) && |rest| == |content| - 1
  {
    SizeWithout(content, Key(k, x));
  }

  lemma SizeWithout(content: map<int, Link>, key: int)
    requires key in content
    ensures |Without(content, key)| == |content| - 1
  {
    var m := Without(content, key);
    assert content == m[key := content[key]];
  }

  lemma FlatOf(htab: seq<Link?>, chains: seq<seq<Link>>, links: set<Link>)
    requires Shape(htab, chains, links)
    ensures Distinct(Flat(chains)) && forall x :: x in Flat(chains) <==> x in links
  {
    FlatDistinct(chains);
    FlatMembers(chains);
  }

  lemma FirstIsLink(chains: seq<seq<Link>>, links: set<Link>)
    requires forall x :: x in Flat(chains) <==> x in links
    ensures if links == {} then Flat(chains) == [] else Flat(chains) != [] && Flat(chains)[0] in links
  {
    if x :| x in links {
      assert x in Flat(chains);
    }
    assert Flat(chains) != [] ==> Flat(chains)[0] in Flat(chains);
  }

  lemma NoLinks(k: Disc, hashf: int -> nat, links: set<Link>, content: map<int, Link>)
    requires KeysOk(k, hashf, links, content) && |content| == 0
    ensures links == {} && content == map[]
  {
    assert content == map[];
  }

  lemma SomeLink(k: Disc, hashf: int -> nat, links: set<Link>, content: map<int, Link>)
    requires KeysOk(k, hashf, links, content) && |content| > 0
    ensures links != {} && content != map[]
  {
    assert forall k :: k in content ==> content[k] in links;
    assert links == {} ==> content == map[];
  }

  // Every object is found under the key that the discipline has for it.
  lemma HashByKeys(d: Hash)
    requires d.Valid() && forall x :: x in d.links ==> x in d.disc
    ensures forall x :: x in d.links ==>
              d.disc[x] in d.content && d.content[d.disc[x]] == x && x.hash == d.hashf(d.disc[x])
    ensures forall key :: key in d.content ==> d.content[key] in d.links && d.disc[d.content[key]] == key
  {
  }

  lemma ItsKey(d: Hash, obj: Link)
    requires d.Valid()
    ensures obj in d.links ==> Key(d.disc, obj) in d.content && d.content[Key(d.disc, obj)] == obj
  {
  }

  lemma AfterIn(htab: seq<Link?>, chains: seq<seq<Link>>, links: set<Link>, x: Link, o: Link)
    requires Shape(htab, chains, links) && Follows(Flat(chains), x, o)
    ensures o in links
  {
    FlatOf(htab, chains, links);
  }
}
