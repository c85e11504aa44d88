// Cardinality facts about finite sets, and sums of naturals.
module Finite {

  // The set {0, ..., n - 1}.
  ghost function Below(n: nat): (s: set<nat>)
    ensures forall v: nat :: v in s <==> v < n
    ensures |s| == n
  {
    if n == 0 then {} else Below(n - 1) + {n - 1}
  }

  ghost function Sum(s: seq<nat>): nat {
    if s == [] then 0 else s[0] + Sum(s[1..])
  }

  // The sum of two parts, and of one number alone, which decides all sums.
  lemma {:induction false} SumParts(a: seq<nat>, b: seq<nat>)
    ensures Sum(a + b) == Sum(a) + Sum(b)
    ensures forall x: nat :: Sum([x]) == x
  {
    if a == [] {
      assert a + b == b;
    } else {
      assert (a + b)[1..] == a[1..] + b;
      SumParts(a[1..], b);
    }
  }

  lemma {:induction false} SubsetSize<T>(a: set<T>, b: set<T>)
    requires a <= b
    ensures |a| <= |b|
    ensures a != b ==> |a| < |b|
  {
    if a == {} {
      if x :| x in b {
        assert |b| > 0;
      }
    } else {
      var x :| x in a;
      SubsetSize(a - {x}, b - {x});
    }
  }
}
