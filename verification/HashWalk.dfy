// Walking a hash table while the callback searches it, puts objects in and takes
// objects out.
module HashWalk {
  import opened Links
  import opened HashTable
  import opened HashDict

  // What a callback may do to the dictionary.
  datatype Op = Lookup(key: int) | Put(x: Link) | Take(x: Link)

  // One call of the callback: what it does, and its result.
  datatype Call = Call(ops: seq<Op>, rv: int)

  // Of the links in the order f, those in kept that come before next have been seen
  // once, the others not yet. With no next, all of kept have been seen once.
  ghost predicate WalkOk(f: seq<Link>, seen: seq<Link>, kept: set<Link>, next: Link?) {
    && Distinct(f)
    && (forall x :: x in kept ==> x in f)
    && if next == null then forall x :: x in kept ==> multiset(seen)[x] == 1
       else exists j :: 0 <= j < |f| && SeenTo(f, seen, kept, next, j)
  }

  ghost predicate SeenTo(f: seq<Link>, seen: seq<Link>, kept: set<Link>, next: Link, j: nat)
    requires j < |f|
  {
    f[j] == next && forall i :: 0 <= i < |f| && f[i] in kept ==> multiset(seen)[f[i]] == (if i < j then 1 else 0)
  }

  // f1 is f0 with x at place m.
  ghost predicate Spliced(f0: seq<Link>, f1: seq<Link>, x: Link, m: nat) {
    && m <= |f0| && |f1| == |f0| + 1 && f1[m] == x
    && (forall i :: 0 <= i < m ==> f1[i] == f0[i])
    && (forall i :: m < i < |f1| ==> f1[i] == f0[i - 1])
  }

  lemma PutInAt(f0: seq<Link>, f1: seq<Link>, x: Link) returns (m: nat)
    requires PutIn(f0, f1, x)
    ensures Spliced(f0, f1, x, m)
  {
    m :| 0 <= m <= |f0| && f1 == f0[..m] + [x] + f0[m..];
  }

  // What is in one of the two lists is in the other, but for x.
  lemma SplicedIn(f0: seq<Link>, f1: seq<Link>, x: Link, m: nat, y: Link)
    requires Spliced(f0, f1, x, m)
    ensures y in f1 <==> y in f0 || y == x
  {
    if y in f0 {
      var i :| 0 <= i < |f0| && f0[i] == y;
      assert f1[if i < m then i else i + 1] == y;
    }
  }

  lemma SplicedDistinct(f0: seq<Link>, f1: seq<Link>, x: Link, m: nat)
    requires Spliced(f0, f1, x, m) && Distinct(f1)
    ensures Distinct(f0) && x !in f0
  {
    forall i, j | 0 <= i < j < |f0|
      ensures f0[i] != f0[j]
    {
      assert f1[if i < m then i else i + 1] != f1[if j < m then j else j + 1];
    }
    forall i | 0 <= i < |f0|
      ensures f0[i] != x
    {
      assert f1[if i < m then i else i + 1] != f1[m];
    }
  }

  lemma SeenPut(f0: seq<Link>, f1: seq<Link>, seen: seq<Link>, kept: set<Link>, next: Link, x: Link, m: nat, j: nat)
    requires Spliced(f0, f1, x, m) && j < |f0| && SeenTo(f0, seen, kept, next, j) && x !in kept
    ensures SeenTo(f1, seen, kept, next, if j < m then j else j + 1)
  {
  }

  lemma SeenTake(f0: seq<Link>, f1: seq<Link>, seen: seq<Link>, kept: set<Link>, next: Link, x: Link, m: nat, j: nat)
    requires Spliced(f1, f0, x, m) && j < |f0| && j != m && SeenTo(f0, seen, kept, next, j)
    ensures j < m || j > 0
    ensures SeenTo(f1, seen, kept - {x}, next, if j < m then j else j - 1)
  {
    var j' := if j < m then j else j - 1;
    forall i | 0 <= i < |f1| && f1[i] in kept - {x}
      ensures multiset(seen)[f1[i]] == (if i < j' then 1 else 0)
    {
      assert f1[i] == f0[if i < m then i else i + 1];
    }
  }

  lemma WalkPut(f0: seq<Link>, f1: seq<Link>, seen: seq<Link>, kept: set<Link>, next: Link?, x: Link)
    requires WalkOk(f0, seen, kept, next) && PutIn(f0, f1, x) && x !in f0 && Distinct(f1)
    ensures WalkOk(f1, seen, kept, next)
  {
    var m := PutInAt(f0, f1, x);
    hide PutIn, Spliced, SeenTo, Distinct;
    forall y | y in kept
      ensures y in f1
    {
      SplicedIn(f0, f1, x, m, y);
    }
    if next != null {
      var j :| 0 <= j < |f0| && SeenTo(f0, seen, kept, next, j);
      SplicedLength(f0, f1, x, m);
      SeenPut(f0, f1, seen, kept, next, x, m, j);
    }
  }

  lemma SplicedLength(f0: seq<Link>, f1: seq<Link>, x: Link, m: nat)
    requires Spliced(f0, f1, x, m)
    ensures |f1| == |f0| + 1 && m < |f1| && f1[m] == x
  {
  }

  lemma WalkTake(f0: seq<Link>, f1: seq<Link>, seen: seq<Link>, kept: set<Link>, next: Link?, x: Link)
    requires WalkOk(f0, seen, kept, next) && PutIn(f1, f0, x) && x != next
    ensures WalkOk(f1, seen, kept - {x}, next)
  {
    var m := PutInAt(f1, f0, x);
    SplicedDistinct(f1, f0, x, m);
    SplicedLength(f1, f0, x, m);
    hide PutIn, Spliced, Distinct;
    forall y | y in kept - {x}
      ensures y in f1
    {
      SplicedIn(f1, f0, x, m, y);
    }
    if next != null {
      var j :| 0 <= j < |f0| && SeenTo(f0, seen, kept, next, j);
      assert f0[j] == next;
      hide SeenTo;
      SeenTake(f0, f1, seen, kept, next, x, m, j);
    }
  }

  lemma WalkStart(f: seq<Link>, links: set<Link>)
    requires Distinct(f) && forall x :: x in links ==> x in f
    ensures WalkOk(f, [], links, At(f, 0))
  {
    if f != [] {
      assert SeenTo(f, [], links, f[0], 0);
    }
  }

  lemma WalkNext(f: seq<Link>, seen: seq<Link>, kept: set<Link>, obj: Link, next: Link?)
    requires WalkOk(f, seen, kept, obj) && Follows(f, obj, next)
    ensures WalkOk(f, seen + [obj], kept, next)
  {
    var j :| 0 <= j < |f| && SeenTo(f, seen, kept, obj, j);
    var j' :| 0 <= j' < |f| && f[j'] == obj && next == At(f, j' + 1);
    assert j' == j;
    var s := seen + [obj];
    forall i | 0 <= i < |f| && f[i] in kept
      ensures multiset(s)[f[i]] == (if i < j + 1 then 1 else 0)
    {
      assert multiset(s)[f[i]] == multiset(seen)[f[i]] + (if i == j then 1 else 0);
    }
    if next != null {
      assert SeenTo(f, s, kept, next, j + 1);
    } else {
      forall x | x in kept
        ensures multiset(s)[x] == 1
      {
        var i :| 0 <= i < |f| && f[i] == x;
      }
    }
  }

  // How many links there are from x on.
  ghost function Ahead(f: seq<Link>, x: Link): nat {
    if f == [] then 0 else if f[0] == x then |f| else Ahead(f[1..], x)
  }

  lemma {:induction false} AheadAt(f: seq<Link>, j: nat)
    requires Distinct(f) && j < |f|
    ensures Ahead(f, f[j]) == |f| - j
  {
    if j > 0 {
      assert forall i :: 0 <= i < |f[1..]| ==> f[1..][i] == f[i + 1];
      AheadAt(f[1..], j - 1);
    }
  }

  // The steps a walk can still take from x, which need not be in the table.
  ghost function Left(f: seq<Link>, x: Link): nat {
    if x in f then Ahead(f, x) else |f| + 1
  }

  lemma FewerLeft(f: seq<Link>, x: Link, o: Link?)
    requires Distinct(f) && (x in f ==> Follows(f, x, o)) && (o != null ==> o in f)
    ensures o != null ==> Left(f, o) < Left(f, x)
  {
    if x in f {
      var j :| 0 <= j < |f| && f[j] == x && o == At(f, j + 1);
      AheadAt(f, j);
      if o != null {
        AheadAt(f, j + 1);
      }
    } else if o != null {
      var j :| 0 <= j < |f| && f[j] == o;
      AheadAt(f, j);
    }
  }

  ghost predicate TakesKey(k: Disc, ops: seq<Op>, key: int) {
    exists b :: 0 <= b < |ops| && ops[b].Take? && Key(k, ops[b].x) == key
  }

  // Some call takes the key out.
  ghost predicate Taken(k: Disc, calls: seq<Call>, key: int) {
    exists a :: 0 <= a < |calls| && TakesKey(k, calls[a].ops, key)
  }

  ghost predicate InPool(ops: seq<Op>, pool: set<Link>) {
    forall b :: 0 <= b < |ops| && ops[b].Put? ==> ops[b].x in pool
  }

  // The state of a walk: next is the object it has fetched already.
  ghost predicate Walking(d: Hash, seen: seq<Link>, kept: set<Link>, next: Link?, pool: set<Link>)
    reads d, pool
  {
    && d.links <= pool && d.Valid()
    && (if next == null then kept <= d.links && forall x :: x in kept ==> multiset(seen)[x] == 1
        else d.loop > 0 && WalkOk(Flat(d.chains), seen, kept, next))
  }

  // The same for a walk that may have lost its place.
  ghost predicate UnlessLost(d: Hash, lost: bool, seen: seq<Link>, kept: set<Link>, next: Link?, pool: set<Link>)
    reads d, pool
  {
    d.links <= pool && d.Valid() && (lost || Walking(d, seen, kept, next, pool))
  }

  // One thing done by the callback. When it takes out the object fetched already, the
  // walk loses its place.
  method Do(d: Hash, op: Op, next: Link?, ghost lost0: bool, ghost seen: seq<Link>, ghost kept: set<Link>,
            ghost pool: set<Link>)
    returns (ghost lost: bool, ghost kept': set<Link>)
    requires UnlessLost(d, lost0, seen, kept, next, pool) && (op.Put? ==> op.x in pool)
    modifies d, pool
    ensures d.disc == old(d.disc) && UnlessLost(d, lost, seen, kept', next, pool) && kept' <= kept
    ensures lost <==> lost0 || (op.Take? && next != null && Key(d.disc, op.x) == Key(d.disc, next))
    ensures forall x :: x in kept && !(op.Take? && Key(d.disc, op.x) == Key(d.disc, x)) ==> x in kept'
  {
    hide Shape, AllFiled, Flat, WalkOk, PutIn, KeysOk, TableSize;
    lost, kept' := lost0, kept;
    ghost var f0 := Flat(d.chains);
    FlatOf(d.htab, d.chains, d.links);
    match op
    case Lookup(key) =>
      var o := d.Search(key);
    case Put(x) =>
      KeyOf(d, x);
      var o := d.Insert(x);
      FlatOf(d.htab, d.chains, d.links);
      if !lost && next != null && x !in f0 && x in d.links {
        WalkPut(f0, Flat(d.chains), seen, kept, next, x);
      }
    case Take(x) =>
      lost := lost0 || (next != null && Key(d.disc, x) == Key(d.disc, next));
      KeyFound(d, Key(d.disc, x));
      var o := d.Delete(x);
      FlatOf(d.htab, d.chains, d.links);
      if !lost && o != null {
        kept' := kept - {o};
        if next != null {
          WalkTake(f0, Flat(d.chains), seen, kept, next, o);
        }
      }
  }

  lemma KeyOf(d: Hash, x: Link)
    requires d.Valid()
    ensures Key(d.disc, x) !in d.content ==> x !in d.links
  {
  }

  lemma KeyFound(d: Hash, key: int)
    requires d.Valid()
    ensures key in d.content ==> Key(d.disc, d.content[key]) == key
  {
  }

  // Of the links at the start, kept are at least those that no call takes out.
  ghost predicate KeptAll(k: Disc, links0: set<Link>, kept: set<Link>, calls: seq<Call>) {
    forall x :: x in links0 && !Taken(k, calls, Key(k, x)) ==> x in kept
  }

  // A call of the callback.
  method Callback(d: Hash, calls: seq<Call>, n: nat, next: Link?, ghost lost0: bool, ghost seen: seq<Link>,
                  ghost kept: set<Link>, ghost pool: set<Link>, ghost links0: set<Link>)
    returns (ghost lost: bool, ghost kept': set<Link>)
    requires UnlessLost(d, lost0, seen, kept, next, pool) && n < |calls| && InPool(calls[n].ops, pool)
    requires KeptAll(d.disc, links0, kept, calls)
    modifies d, pool
    ensures d.disc == old(d.disc) && UnlessLost(d, lost, seen, kept', next, pool)
    ensures KeptAll(d.disc, links0, kept', calls)
    ensures lost <==> lost0 || (next != null && TakesKey(d.disc, calls[n].ops, Key(d.disc, next)))
  {
    hide Walking, Hash.Valid, KeptAll;
    lost, kept' := lost0, kept;
    ghost var k, ops := d.disc, calls[n].ops;
    assert ops[..0] == [];
    for i := 0 to |calls[n].ops|
      invariant d.disc == k && UnlessLost(d, lost, seen, kept', next, pool)
      invariant KeptAll(k, links0, kept', calls)
      invariant lost <==> lost0 || (next != null && TakesKey(k, ops[..i], Key(k, next)))
    {
      ghost var was := kept';
      lost, kept' := Do(d, calls[n].ops[i], next, lost, seen, kept', pool);
      KeptStep(k, links0, was, kept', calls, n, i);
      if next != null {
        TakesStep(k, ops, i, Key(k, next));
      }
    }
    assert ops[..|ops|] == ops;
  }

  lemma KeptStep(k: Disc, links0: set<Link>, was: set<Link>, kept: set<Link>, calls: seq<Call>, n: nat, i: nat)
    requires KeptAll(k, links0, was, calls) && n < |calls| && i < |calls[n].ops|
    requires var op := calls[n].ops[i]; forall x :: x in was && !(op.Take? && Key(k, op.x) == Key(k, x)) ==> x in kept
    ensures KeptAll(k, links0, kept, calls)
  {
    forall x | x in links0 && !Taken(k, calls, Key(k, x))
      ensures x in kept
    {
      assert x in was;
      assert !TakesKey(k, calls[n].ops, Key(k, x));
    }
  }

  lemma TakesStep(k: Disc, ops: seq<Op>, i: nat, key: int)
    requires i < |ops|
    ensures TakesKey(k, ops[..i + 1], key) <==> TakesKey(k, ops[..i], key) || (ops[i].Take? && Key(k, ops[i].x) == key)
  {
    if b :| 0 <= b < i && ops[b].Take? && Key(k, ops[b].x) == key {
      assert ops[..i][b] == ops[..i + 1][b];
    }
    assert ops[..i + 1][i] == ops[i];
  }

  // One step of the walk: fetches the object after obj. A walk that has lost its place
  // goes on from wherever obj leads it.
  method Advance(d: Hash, obj: Link, ghost lost: bool, ghost seen: seq<Link>, ghost kept: set<Link>,
                 ghost pool: set<Link>)
    returns (next: Link?)
    requires UnlessLost(d, lost, seen, kept, obj, pool)
    modifies d, pool
    ensures UnlessLost(d, lost, seen + [obj], kept, next, pool) && d.disc == old(d.disc)
    ensures next != null ==>
              && Flat(d.chains) == old(Flat(d.chains))
              && Left(Flat(d.chains), next) < Left(Flat(d.chains), obj)
    ensures !lost ==> AtMostOnce(seen + [obj], kept)
  {
    hide Shape, AllFiled, Flat, PutIn, KeysOk, TableSize, Left, Follows, AtMostOnce, WalkOk, LastOfSlot;
    ghost var f := Flat(d.chains);
    FlatOf(d.htab, d.chains, d.links);
    ItsKey(d, obj);
    next := d.Next(obj);
    FlatOf(d.htab, d.chains, d.links);
    FewerLeft(f, obj, next);
    if !lost {
      NextPresent(f, seen, kept, obj);
      WalkNext(f, seen, kept, obj, next);
      OnceOnly(f, seen + [obj], kept, next);
      WalkEnds(f, seen + [obj], kept, next);
    }
  }

  lemma WalkEnds(f: seq<Link>, seen: seq<Link>, kept: set<Link>, next: Link?)
    requires WalkOk(f, seen, kept, next)
    ensures forall x :: x in kept ==> x in f
    ensures next == null ==> forall x :: x in kept ==> multiset(seen)[x] == 1
  {
  }

  ghost predicate AtMostOnce(seen: seq<Link>, kept: set<Link>) {
    forall x :: x in kept ==> multiset(seen)[x] <= 1
  }

  lemma OnceOnly(f: seq<Link>, seen: seq<Link>, kept: set<Link>, next: Link?)
    requires WalkOk(f, seen, kept, next)
    ensures AtMostOnce(seen, kept)
  {
    if next != null {
      var j :| 0 <= j < |f| && SeenTo(f, seen, kept, next, j);
      forall x | x in kept
        ensures multiset(seen)[x] <= 1
      {
        var i :| 0 <= i < |f| && f[i] == x;
      }
    }
  }

  lemma NextPresent(f: seq<Link>, seen: seq<Link>, kept: set<Link>, obj: Link)
    requires WalkOk(f, seen, kept, obj)
    ensures obj in f
  {
  }

  // The links of links0 that no call takes out are seen once each, and are still there.
  ghost predicate AllSeen(k: Disc, links0: set<Link>, links: set<Link>, calls: seq<Call>, seen: seq<Link>) {
    forall x :: x in links0 && !Taken(k, calls, Key(k, x)) ==> multiset(seen)[x] == 1 && x in links
  }

  // None of them is seen twice.
  ghost predicate NoneTwice(k: Disc, links0: set<Link>, calls: seq<Call>, seen: seq<Link>) {
    forall x :: x in links0 && !Taken(k, calls, Key(k, x)) ==> multiset(seen)[x] <= 1
  }

  lemma WalkOver(d: Hash, links0: set<Link>, calls: seq<Call>, seen: seq<Link>, kept: set<Link>, pool: set<Link>)
    requires Walking(d, seen, kept, null, pool) && KeptAll(d.disc, links0, kept, calls)
    ensures AllSeen(d.disc, links0, d.links, calls, seen)
  {
  }

  lemma WalkCut(k: Disc, links0: set<Link>, calls: seq<Call>, seen: seq<Link>, kept: set<Link>)
    requires AtMostOnce(seen, kept) && KeptAll(k, links0, kept, calls)
    ensures NoneTwice(k, links0, calls, seen)
  {
  }

  lemma WalkBegins(d: Hash, calls: seq<Call>, pool: set<Link>)
    requires d.Valid() && d.links <= pool
    ensures WalkOk(Flat(d.chains), [], d.links, At(Flat(d.chains), 0))
    ensures KeptAll(d.disc, d.links, d.links, calls)
    ensures d.content == map[] ==> d.links == {}
  {
    FlatOf(d.htab, d.chains, d.links);
    WalkStart(Flat(d.chains), d.links);
    EmptyContent(d);
  }

  // Call number at takes out the object fetched for the next call.
  ghost predicate Lost(k: Disc, calls: seq<Call>, seen: seq<Link>, at: nat, fetched: Link?) {
    && at < |seen| && at < |calls| && fetched != null && TakesKey(k, calls[at].ops, Key(k, fetched))
    && (at + 1 < |seen| ==> seen[at + 1] == fetched)
  }

  // The walk between two calls: next is the object the callback gets now.
  ghost predicate Between(d: Hash, calls: seq<Call>, links0: set<Link>, lost: bool, at: nat, fetched: Link?,
                          seen: seq<Link>, kept: set<Link>, next: Link?, pool: set<Link>)
    reads d, pool
  {
    && UnlessLost(d, lost, seen, kept, next, pool) && KeptAll(d.disc, links0, kept, calls)
    && (lost ==> Lost(d.disc, calls, seen, at, fetched) && (at + 1 == |seen| ==> next == fetched))
  }

  lemma BetweenLost(d: Hash, calls: seq<Call>, links0: set<Link>, lost: bool, at: nat, fetched: Link?, seen: seq<Link>,
                    kept: set<Link>, next: Link?, pool: set<Link>)
    requires Between(d, calls, links0, lost, at, fetched, seen, kept, next, pool)
    ensures d.Valid() && d.links <= pool
    ensures lost ==> Lost(d.disc, calls, seen, at, fetched) && (next == null ==> at + 1 < |seen|)
    ensures lost && next != null ==> Lost(d.disc, calls, seen + [next], at, fetched) && at + 1 < |seen + [next]|
    ensures !lost && next == null ==> AllSeen(d.disc, links0, d.links, calls, seen)
  {
    hide Hash.Valid, TakesKey, WalkOk;
    if !lost && next == null {
      WalkOver(d, links0, calls, seen, kept, pool);
    }
  }

  // One round of the walk: fetches the next object and calls the callback with obj.
  method Round(d: Hash, calls: seq<Call>, n: nat, obj: Link, ghost links0: set<Link>, ghost lost0: bool,
               ghost at0: nat, ghost fetched0: Link?, ghost seen: seq<Link>, ghost kept0: set<Link>,
               ghost pool: set<Link>)
    returns (next: Link?, rv: int, ghost lost: bool, ghost at: nat, ghost fetched: Link?, ghost kept: set<Link>)
    requires Between(d, calls, links0, lost0, at0, fetched0, seen, kept0, obj, pool) && n == |seen|
    requires n < |calls| ==> InPool(calls[n].ops, pool)
    modifies d, pool
    ensures Between(d, calls, links0, lost, at, fetched, seen + [obj], kept, next, pool) && d.disc == old(d.disc)
    ensures rv == if n < |calls| then calls[n].rv else 0
    ensures lost0 ==> lost && at == at0 && fetched == fetched0
    ensures !lost0 ==> NoneTwice(d.disc, links0, calls, seen + [obj])
    ensures n >= |calls| && next != null ==> Left(Flat(d.chains), next) < old(Left(Flat(d.chains), obj))
  {
    hide Walking, Hash.Valid, UnlessLost, TakesKey, Flat, Left, Lost, KeptAll, AtMostOnce, NoneTwice;
    ghost var k := d.disc;
    BetweenLost(d, calls, links0, lost0, at0, fetched0, seen, kept0, obj, pool);
    lost, at, fetched, kept, rv := lost0, at0, fetched0, kept0, 0;
    next := Advance(d, obj, lost, seen, kept, pool);
    if !lost {
      WalkCut(k, links0, calls, seen + [obj], kept);
    }
    if n < |calls| {
      lost, kept := Callback(d, calls, n, next, lost, seen + [obj], kept, pool, links0);
      rv := calls[n].rv;
      if lost && !lost0 {
        at, fetched := n, next;
        LostNow(k, calls, seen + [obj], at, fetched);
      }
    }
  }

  // FIRST, before the first call.
  method Begin(d: Hash, calls: seq<Call>, ghost pool: set<Link>) returns (obj: Link?)
    requires d.Valid() && d.links <= pool
    modifies d`here, d`loop
    ensures Between(d, calls, d.links, false, 0, null, [], d.links, obj, pool)
  {
    hide Shape, AllFiled, Flat, KeysOk, TableSize, WalkOk, KeptAll;
    WalkBegins(d, calls, pool);
    obj := d.FirstLink();
  }

  // dtwalk on a hash table: whatever the callback searches for, puts in or takes out
  // at each of its calls, every object that is there from beginning to end is seen
  // exactly once, unless a negative result ends the walk. That holds as long as no call
  // takes out the object fetched. When call number at does, the walk loses its place:
  // the callback gets that object all the same, and NEXT of it decides what comes then.
  method DtWalk(d: Hash, calls: seq<Call>, ghost pool: set<Link>)
    returns (rv: int, seen: seq<Link>, ghost lost: bool, ghost at: nat, ghost fetched: Link?)
    requires d.Valid() && d.links <= pool && forall n :: 0 <= n < |calls| ==> InPool(calls[n].ops, pool)
    modifies d, pool
    ensures d.Valid() && d.disc == old(d.disc) && d.links <= pool && rv <= 0
    ensures rv == 0 ==> forall n :: 0 <= n < |seen| && n < |calls| ==> calls[n].rv >= 0
    ensures rv < 0 ==> 0 < |seen| <= |calls| && rv == calls[|seen| - 1].rv
    ensures rv < 0 ==> forall n :: 0 <= n < |seen| - 1 ==> calls[n].rv >= 0
    ensures !lost && rv == 0 ==> AllSeen(d.disc, old(d.links), d.links, calls, seen)
    ensures !lost && rv < 0 ==> NoneTwice(d.disc, old(d.links), calls, seen)
    ensures lost ==> Lost(d.disc, calls, seen, at, fetched) && at + 1 < |seen|
  {
    hide InPool, Left, Flat, Lost, AllSeen, NoneTwice, Hash.Valid, Between;
    ghost var links0, k, kept := d.links, d.disc, d.links;
    var obj := Begin(d, calls, pool);
    rv, seen, lost, at, fetched := 0, [], false, 0, null;
    while obj != null
      invariant Between(d, calls, links0, lost, at, fetched, seen, kept, obj, pool) && d.disc == k
      invariant forall n :: 0 <= n < |seen| && n < |calls| ==> calls[n].rv >= 0
      decreases if |seen| < |calls| then |calls| - |seen| else 0,
                if obj == null then 0 else 1 + Left(Flat(d.chains), obj)
    {
      ghost var before := lost;
      BetweenLost(d, calls, links0, lost, at, fetched, seen, kept, obj, pool);
      var next;
      next, rv, lost, at, fetched, kept := Round(d, calls, |seen|, obj, links0, lost, at, fetched, seen, kept, pool);
      seen := seen + [obj];
      if rv < 0 {
        BetweenLost(d, calls, links0, lost, at, fetched, seen, kept, next, pool);
        lost := before;
        return;
      }
      obj, rv := next, 0;
    }
    BetweenLost(d, calls, links0, lost, at, fetched, seen, kept, obj, pool);
  }

  lemma LostNow(k: Disc, calls: seq<Call>, seen: seq<Link>, at: nat, fetched: Link)
    requires |seen| == at + 1 && at < |calls| && TakesKey(k, calls[at].ops, Key(k, fetched))
    ensures Lost(k, calls, seen, at, fetched)
  {
  }

  lemma EmptyContent(d: Hash)
    requires d.Valid()
    ensures d.content == map[] ==> d.links == {}
  {
  }

  // --------------------------------------------------- when the place is lost

  // The callback takes out next, which has been fetched, and the walk asks for the one
  // after it: that ends the walk exactly if no other object has next's slot.
  method TakeFetched(d: Hash, next: Link) returns (o: Link?)
    requires d.Valid() && next in d.links
    modifies d, d.links`right
    ensures d.Valid() && d.disc == old(d.disc) && d.links == old(d.links) - {next}
    ensures o == null <==>
            forall x :: x in old(d.links) && x != next ==> !SameSlot(old(|d.htab|), old(x.hash), old(next.hash))
    ensures o != null ==> o in d.links && SameSlot(old(|d.htab|), old(o.hash), old(next.hash))
  {
    hide Shape, AllFiled, Flat, PutIn, TableSize, SameSlot, Follows, LastOfSlot;
    ItsKey(d, next);
    var taken := d.Delete(next);
    SlotEnd(d.htab, d.chains, d.links, d.hashf(Key(d.disc, next)));
    o := d.Next(next);
  }

  lemma {:induction false} SmallIndex(n: nat, h: nat)
    requires PowerOfTwo(n) && h < n
    ensures HIndex(n, h) == h
    decreases n
  {
    if n > 1 {
      assert (n - 1) / 2 == n / 2 - 1 && (n - 1) % 2 == 1;
      SmallIndex(n / 2, h / 2);
    }
  }

  // The first two objects of a walk over a table of at least two.
  method TwoSteps(d: Hash) returns (first: Link, second: Link)
    requires d.Valid() && |d.links| >= 2
    modifies d, d.links`right
    ensures d.Valid() && d.disc == old(d.disc) && d.links == old(d.links)
    ensures first in d.links && second in d.links && first != second
    ensures forall x :: x in d.links ==> x.hash == old(x.hash)
  {
    hide Shape, AllFiled, Flat, KeysOk, TableSize, Follows;
    ghost var links0 := d.links;
    EmptyContent(d);
    FlatOf(d.htab, d.chains, d.links);
    TwoInOrder(Flat(d.chains), d.links);
    var o := d.FirstLink();
    first := o;
    ItsKey(d, first);
    o := d.Next(first);
    second := o;
  }

  lemma TwoInOrder(f: seq<Link>, links: set<Link>)
    requires |links| >= 2 && Distinct(f) && forall x :: x in f <==> x in links
    ensures |f| >= 2 && f[0] in links && f[1] in links && f[0] != f[1]
    ensures forall o: Link? :: Follows(f, f[0], o) ==> o == f[1]
  {
    assert SetOf(f) == links;
    SetSize(f);
    assert f[0] in f && f[1] in f;
  }

  lemma {:induction false} SetSize(f: seq<Link>)
    ensures |SetOf(f)| <= |f|
  {
    if f != [] {
      assert SetOf(f) == SetOf(f[1..]) + {f[0]};
      SetSize(f[1..]);
    }
  }

  function Itself(key: int): nat {
    if key < 0 then 0 else key
  }

  // A table of three objects with the keys 0, 1 and 2.
  method Three(hashf: int -> nat) returns (d: Hash)
    ensures d.Valid() && |d.links| == 3 && fresh(d) && fresh(d.links) && d.hashf == hashf
    ensures forall x :: x in d.links ==> 0 <= Key(d.disc, x) < 3
    ensures forall x, y :: x in d.links && y in d.links && x != y ==> Key(d.disc, x) != Key(d.disc, y)
  {
    hide Shape, AllFiled, Flat, TableSize, KeysOk, Hash.Valid;
    var a := new Link();
    var b := new Link();
    var c := new Link();
    d := new Hash(hashf, map[a := 0, b := 1, c := 2]);
    var o := d.Insert(a);
    assert d.links == {a};
    o := d.Insert(b);
    assert d.links == {a, b};
    o := d.Insert(c);
    assert d.links == {a, b, c};
  }

  // With hash values that are small and different, no two objects share a slot.
  lemma OwnSlots(d: Hash)
    requires d.Valid() && forall x :: x in d.links ==> x.hash < HSLOT
    requires forall x, y :: x in d.links && y in d.links && x != y ==> x.hash != y.hash
    ensures forall x, y :: x in d.links && y in d.links && x != y ==> !SameSlot(|d.htab|, x.hash, y.hash)
  {
    hide Shape, AllFiled, Flat, KeysOk, HIndex;
    forall x, y | x in d.links && y in d.links && x != y && |d.htab| > 0
      ensures HIndex(|d.htab|, x.hash) != HIndex(|d.htab|, y.hash)
    {
      SmallIndex(|d.htab|, x.hash);
      SmallIndex(|d.htab|, y.hash);
    }
  }

  lemma Hashes(d: Hash)
    requires d.Valid()
    ensures forall x :: x in d.links ==> x.hash == d.hashf(Key(d.disc, x))
  {
  }

  // Three objects in three slots: when the second is taken out after it has been
  // fetched, the walk ends there. The third one has been in the table all the time and
  // is never seen.
  method MissesOne() returns (d: Hash, first: Link, second: Link, third: Link?)
    ensures d.Valid() && third == null
    ensures exists x :: x in d.links && x != first && x != second
  {
    hide Shape, AllFiled, Flat, TableSize, KeysOk, SameSlot, Hash.Valid, HIndex;
    d := Three(Itself);
    first, second := TwoSteps(d);
    Hashes(d);
    OwnSlots(d);
    ghost var links0 := d.links;
    third := TakeFetched(d, second);
    ghost var x := OneMore(links0, first, second);
    assert x in d.links;
  }

  lemma OneMore(links: set<Link>, x: Link, y: Link) returns (z: Link)
    requires |links| == 3
    ensures z in links && z != x && z != y
  {
    var rest := links - {x, y};
    assert links <= rest + {x, y};
    assert |rest + {x, y}| <= |rest| + |{x, y}|;
    z :| z in rest;
  }

  // A table of two objects whose keys have the same hash value.
  method TwoInSlot() returns (d: Hash)
    ensures d.Valid() && |d.links| == 2 && fresh(d) && fresh(d.links)
    ensures |d.htab| > 0 && forall x :: x in d.links ==> x.hash == 0
  {
    hide Shape, AllFiled, Flat, TableSize, KeysOk, HIndex, Hash.Valid;
    var a := new Link();
    var b := new Link();
    d := new Hash(_ => 0, map[a := 0, b := 1]);
    var o := d.Insert(a);
    assert d.links == {a};
    o := d.Insert(b);
    assert d.links == {a, b};
    Hashes(d);
    HasSlots(d, a);
  }

  lemma HasSlots(d: Hash, x: Link)
    requires d.Valid() && x in d.links
    ensures |d.htab| > 0
  {
    assert InTable(d.chains, x);
  }

  // Two objects in one slot: the last of the chain is then the first, which the walk
  // gets for the second time.
  method SeesTwice() returns (d: Hash, first: Link, second: Link, third: Link?)
    ensures d.Valid() && first != second && third == first && first in d.links
  {
    hide Shape, AllFiled, Flat, TableSize, KeysOk, HIndex, Hash.Valid;
    d := TwoInSlot();
    first, second := TwoSteps(d);
    Hashes(d);
    HasSlots(d, first);
    OnlyTwo(d.links, first, second);
    assert SameSlot(|d.htab|, first.hash, second.hash);
    third := TakeFetched(d, second);
  }

  lemma OnlyTwo(links: set<Link>, x: Link, y: Link)
    requires |links| == 2 && x in links && y in links && x != y
    ensures links == {x, y}
  {
    var rest := links - {x, y};
    assert links == rest + {x, y};
    assert |links| == |rest| + |{x, y}|;
  }
}
