// The greedy antibandwidth search of country_graph_coloring: positions are
// swapped as long as a swap widens the narrower of two local gaps.
module Antiband {
  import opened Finite

  // The pattern of an n-by-n sparse matrix: row a is ja[ia[a]..ia[a + 1]].
  datatype Csr = Csr(n: nat, ia: seq<nat>, ja: seq<nat>)

  ghost predicate WellFormed(m: Csr) {
    && |m.ia| == m.n + 1
    && (forall a, b :: 0 <= a <= b <= m.n ==> m.ia[a] <= m.ia[b])
    && m.ia[m.n] <= |m.ja|
    && (forall k :: 0 <= k < |m.ja| ==> m.ja[k] < m.n)
  }

  ghost function Row(m: Csr, a: nat): (r: seq<nat>)
    requires WellFormed(m) && a < m.n
    ensures Within(r, m.n)
  {
    m.ja[m.ia[a]..m.ia[a + 1]]
  }

  lemma RowBounds(m: Csr, a: nat)
    requires WellFormed(m) && a < m.n
    ensures |m.ia| == m.n + 1 && m.ia[a] <= m.ia[a + 1] <= |m.ja|
    ensures Row(m, a) == m.ja[m.ia[a]..m.ia[a + 1]]
    ensures forall k :: m.ia[a] <= k < m.ia[a + 1] ==> m.ja[k] < m.n && m.ja[k] == Row(m, a)[k - m.ia[a]]
  {
  }

  ghost predicate Symmetric(m: Csr)
    requires WellFormed(m)
  {
    forall a, b :: 0 <= a < m.n && b in Row(m, a) ==> a in Row(m, b)
  }

  function Min(x: int, y: int): int {
    if x <= y then x else y
  }

  function Dist(x: int, y: int): (d: nat) {
    if x <= y then y - x else x - y
  }

  function Gap(p: seq<int>, a: nat, b: nat): (d: nat)
    requires a < |p| && b < |p|
  {
    Dist(p[a], p[b])
  }

  ghost predicate Within(row: seq<nat>, n: nat) {
    forall b :: b in row ==> b < n
  }

  // -------------------------------------------------------------- local norms

  // All neighbours in row, other than i itself, have positions at least d away from
  // that of i.
  ghost predicate Apart(row: seq<nat>, p: seq<int>, i: nat, d: int)
    requires i < |p| && Within(row, |p|)
  {
    forall b :: b in row && b != i ==> p[i] - p[b] >= d || p[b] - p[i] >= d
  }

  // d is the least distance from i to a neighbour other than i, capped at n.
  ghost predicate IsLocalNorm(n: nat, row: seq<nat>, p: seq<int>, i: nat, d: nat)
    requires i < |p| && Within(row, |p|)
  {
    d <= n && Apart(row, p, i, d) && (d < n ==> !Apart(row, p, i, d + 1))
  }

  lemma ApartGap(row: seq<nat>, p: seq<int>, i: nat, d: nat)
    requires i < |p| && Within(row, |p|)
    ensures Apart(row, p, i, d) <==> forall b :: b in row && b != i ==> d <= Gap(p, i, b)
  {
  }

  ghost function LocalNorm(n: nat, row: seq<nat>, p: seq<int>, i: nat): (d: nat)
    requires i < |p| && Within(row, |p|)
    ensures IsLocalNorm(n, row, p, i, d)
  {
    if row == [] then n
    else
      var init, b := row[..|row| - 1], row[|row| - 1];
      assert row == init + [b];
      assert b in row && forall x :: x in init ==> x in row;
      var rest := LocalNorm(n, init, p, i);
      if b == i then rest else Min(rest, Gap(p, i, b))
  }

  ghost function LocalNormUpto(n: nat, row: seq<nat>, k: nat, p: seq<int>, i: nat): (d: nat)
    requires i < |p| && Within(row, |p|) && k <= |row|
  {
    assert forall x :: x in row[..k] ==> x in row;
    LocalNorm(n, row[..k], p, i)
  }

  lemma LocalNormEmpty(n: nat, p: seq<int>, i: nat)
    requires i < |p|
    ensures LocalNorm(n, [], p, i) == n
  {
  }

  lemma LocalNormNext(n: nat, row: seq<nat>, k: nat, p: seq<int>, i: nat)
    requires i < |p| && Within(row, |p|) && k < |row|
    ensures row[k] < |p|
    ensures LocalNormUpto(n, row, k + 1, p, i) ==
              if row[k] == i then LocalNormUpto(n, row, k, p, i)
              else Min(LocalNormUpto(n, row, k, p, i), Gap(p, i, row[k]))
  {
    assert row[k] in row;
    assert row[..k + 1][..k] == row[..k];
  }

  ghost function Norm(m: Csr, p: seq<int>, i: nat): (d: nat)
    requires WellFormed(m) && |p| == m.n && i < m.n
    ensures IsLocalNorm(m.n, Row(m, i), p, i, d)
  {
    LocalNorm(m.n, Row(m, i), p, i)
  }

  method GetLocal12Norm(m: Csr, i: nat, p: array<int>) returns (norm: nat)
    requires WellFormed(m) && p.Length == m.n && i < m.n
    ensures norm == Norm(m, p[..], i)
  {
    hide IsLocalNorm, LocalNorm;
    norm := m.n;
    var j := m.ia[i];
    ghost var s, row := p[..], Row(m, i);
    LocalNormEmpty(m.n, s, i);
    while j < m.ia[i + 1]
      invariant m.ia[i] <= j <= m.ia[i + 1]
      invariant norm == LocalNormUpto(m.n, row, j - m.ia[i], s, i)
    {
      LocalNormNext(m.n, row, j - m.ia[i], s, i);
      if m.ja[j] != i {
        norm := Min(norm, Dist(p[i], p[m.ja[j]]));
      }
      j := j + 1;
    }
    assert row[..|row|] == row;
  }

  // The least of all local norms: the antibandwidth, capped at n.
  ghost function Antibandwidth(m: Csr, p: seq<int>, k: nat): (d: nat)
    requires WellFormed(m) && |p| == m.n && k <= m.n
  {
    if k == 0 then m.n else Min(Antibandwidth(m, p, k - 1), Norm(m, p, k - 1))
  }

  lemma {:induction false} AntibandwidthIsMin(m: Csr, p: seq<int>, k: nat)
    requires WellFormed(m) && |p| == m.n && k <= m.n
    ensures Antibandwidth(m, p, k) <= m.n
    ensures forall i :: 0 <= i < k ==> Antibandwidth(m, p, k) <= Norm(m, p, i)
    ensures Antibandwidth(m, p, k) < m.n ==> exists i :: 0 <= i < k && Norm(m, p, i) == Antibandwidth(m, p, k)
  {
    hide WellFormed, LocalNorm;
    if k > 0 {
      AntibandwidthIsMin(m, p, k - 1);
    }
  }

  ghost function Norms(m: Csr, p: seq<int>): (d: seq<nat>)
    requires WellFormed(m) && |p| == m.n
    ensures |d| == m.n && forall i :: 0 <= i < m.n ==> IsLocalNorm(m.n, Row(m, i), p, i, d[i])
    ensures forall i :: 0 <= i < m.n ==> d[i] == Norm(m, p, i)
  {
    seq(m.n, i requires 0 <= i < m.n => Norm(m, p, i))
  }

  // The least and the mean local norm.
  method Get12Norm(m: Csr, p: array<int>) returns (norm0: nat, norm1: real)
    requires WellFormed(m) && p.Length == m.n > 0
    ensures norm0 == Antibandwidth(m, p[..], m.n)
    ensures norm1 == Sum(Norms(m, p[..])) as real / m.n as real
  {
    hide WellFormed, Norm, Norms, IsLocalNorm;
    norm0 := m.n;
    var sum := 0;
    ghost var norms := Norms(m, p[..]);
    for i := 0 to m.n
      invariant norm0 == Antibandwidth(m, p[..], i) && norm0 <= m.n
      invariant sum == Sum(norms[..i])
    {
      var tmp;
      norm0, tmp := ScanNorm(m, p, i, norm0);
      assert norms[..i + 1] == norms[..i] + [tmp];
      SumParts(norms[..i], [tmp]);
      sum := sum + tmp;
    }
    assert norms[..m.n] == norms;
    norm1 := sum as real / m.n as real;
  }

  // The inner loop: the local norm of i, and the least norm so far.
  method ScanNorm(m: Csr, p: array<int>, i: nat, before: nat) returns (norm0: nat, tmp: nat)
    requires WellFormed(m) && p.Length == m.n && i < m.n && before <= m.n
    ensures tmp == Norm(m, p[..], i) && norm0 == Min(before, tmp)
  {
    hide IsLocalNorm, LocalNorm, WellFormed;
    norm0, tmp := before, m.n;
    RowBounds(m, i);
    var j := m.ia[i];
    ghost var s, row := p[..], Row(m, i);
    LocalNormEmpty(m.n, s, i);
    while j < m.ia[i + 1]
      invariant m.ia[i] <= j <= m.ia[i + 1]
      invariant tmp == LocalNormUpto(m.n, row, j - m.ia[i], s, i)
      invariant norm0 == Min(before, tmp)
    {
      LocalNormNext(m.n, row, j - m.ia[i], s, i);
      if m.ja[j] != i {
        norm0 := Min(norm0, Dist(p[i], p[m.ja[j]]));
        tmp := Min(tmp, Dist(p[i], p[m.ja[j]]));
      }
      j := j + 1;
    }
    assert row[..|row|] == row;
  }

  // ---------------------------------------------------------------- swapping

  function Swap(p: seq<int>, i: nat, j: nat): (q: seq<int>)
    requires i < |p| && j < |p|
    ensures |q| == |p|
  {
    p[i := p[j]][j := p[i]]
  }

  // The narrower of the local norms of i and j.
  ghost function PairNorm(m: Csr, p: seq<int>, i: nat, j: nat): (d: nat)
    requires WellFormed(m) && |p| == m.n && i < m.n && j < m.n
  {
    Min(Norm(m, p, i), Norm(m, p, j))
  }

  // The test that accepts the swap of positions i and j.
  ghost predicate Improves(m: Csr, p: seq<int>, i: nat, j: nat)
    requires WellFormed(m) && |p| == m.n && i < m.n && j < m.n
  {
    PairNorm(m, Swap(p, i, j), i, j) > PairNorm(m, p, i, j)
  }

  type Entry = (nat, nat)

  ghost predicate InBounds(es: seq<Entry>, n: nat) {
    forall e :: e in es ==> e.0 < n && e.1 < n
  }

  // The off-diagonal entries of the first k rows.
  ghost function Entries(m: Csr, k: nat): (es: seq<Entry>)
    requires WellFormed(m) && k <= m.n
    ensures InBounds(es, m.n)
    ensures forall e :: e in es <==> e.0 < k && e.1 in Row(m, e.0) && e.1 != e.0
  {
    if k == 0 then [] else Entries(m, k - 1) + RowEntries(k - 1, Row(m, k - 1))
  }

  ghost function RowEntries(a: nat, row: seq<nat>): (es: seq<Entry>)
    ensures forall e :: e in es <==> e.0 == a && e.1 in row && e.1 != a
  {
    if row == [] then []
    else
      assert row == [row[0]] + row[1..];
      (if row[0] == a then [] else [(a, row[0])]) + RowEntries(a, row[1..])
  }

  ghost predicate Touches(e: Entry, i: nat, j: nat) {
    e.0 == i || e.0 == j || e.1 == i || e.1 == j
  }

  // What an accepted swap does to the gaps: those of untouched entries stay,
  // those of touched entries end above the old pair norm d, and one of them was d.
  ghost predicate Widens(es: seq<Entry>, p: seq<int>, q: seq<int>, i: nat, j: nat, d: nat)
    requires |p| == |q| && InBounds(es, |p|)
  {
    && (forall e :: e in es && !Touches(e, i, j) ==> Gap(q, e.0, e.1) == Gap(p, e.0, e.1))
    && (forall e :: e in es && Touches(e, i, j) ==> Gap(p, e.0, e.1) >= d && Gap(q, e.0, e.1) > d)
    && (exists e :: e in es && Touches(e, i, j) && Gap(p, e.0, e.1) == d)
  }

  // A norm below the cap is the gap to some neighbour.
  lemma NormAttained(m: Csr, p: seq<int>, i: nat) returns (b: nat)
    requires WellFormed(m) && |p| == m.n && i < m.n && Norm(m, p, i) < m.n
    ensures b in Row(m, i) && b != i && b < m.n && Gap(p, i, b) == Norm(m, p, i)
  {
    var d := Norm(m, p, i);
    ApartGap(Row(m, i), p, i, d);
    ApartGap(Row(m, i), p, i, d + 1);
    hide Apart, LocalNorm, WellFormed;
    b :| b in Row(m, i) && b != i && Gap(p, i, b) < d + 1;
  }

  lemma EntryGap(m: Csr, p: seq<int>, a: nat, b: nat)
    requires WellFormed(m) && Symmetric(m) && |p| == m.n && a < m.n && b in Row(m, a) && a != b
    ensures b < m.n && Norm(m, p, a) <= Gap(p, a, b) && Norm(m, p, b) <= Gap(p, a, b)
  {
    assert a in Row(m, b);
  }

  lemma SwapWidens(m: Csr, p: seq<int>, i: nat, j: nat)
    requires WellFormed(m) && Symmetric(m) && |p| == m.n && i < m.n && j < m.n && i != j
    requires Improves(m, p, i, j)
    ensures PairNorm(m, p, i, j) < m.n
    ensures Widens(Entries(m, m.n), p, Swap(p, i, j), i, j, PairNorm(m, p, i, j))
  {
    hide WellFormed, LocalNorm, IsLocalNorm, Norm, Symmetric, Entries, Row;
    var q, es, d := Swap(p, i, j), Entries(m, m.n), PairNorm(m, p, i, j);
    forall e | e in es && Touches(e, i, j)
      ensures Gap(p, e.0, e.1) >= d && Gap(q, e.0, e.1) > d
    {
      EntryGap(m, p, e.0, e.1);
      EntryGap(m, q, e.0, e.1);
    }
    NormCapped(m, q, i);
    PairWitness(m, p, i, j);
  }

  lemma NormCapped(m: Csr, p: seq<int>, i: nat)
    requires WellFormed(m) && |p| == m.n && i < m.n
    ensures Norm(m, p, i) <= m.n
  {
  }

  // A pair norm below the cap is the gap of some entry of the pair.
  lemma PairWitness(m: Csr, p: seq<int>, i: nat, j: nat)
    requires WellFormed(m) && |p| == m.n && i < m.n && j < m.n
    requires PairNorm(m, p, i, j) < m.n
    ensures exists e :: e in Entries(m, m.n) && Touches(e, i, j) && Gap(p, e.0, e.1) == PairNorm(m, p, i, j)
  {
    hide WellFormed, LocalNorm, IsLocalNorm, Norm, Entries, Row;
    var d := PairNorm(m, p, i, j);
    var x := if Norm(m, p, i) == d then i else j;
    var b := NormAttained(m, p, x);
    assert (x, b) in Entries(m, m.n) && Touches((x, b), i, j);
  }

  // ------------------------------------------------- the histogram and the potential

  // How many entries have gap k.
  ghost function Count(es: seq<Entry>, p: seq<int>, k: nat): nat
    requires InBounds(es, |p|)
  {
    if es == [] then 0
    else
      assert es[0] in es;
      (if Gap(p, es[0].0, es[0].1) == k then 1 else 0) + Count(es[1..], p, k)
  }

  lemma {:induction false} CountChange(es: seq<Entry>, p: seq<int>, q: seq<int>, i: nat, j: nat, d: nat, k: nat)
    requires |p| == |q| && InBounds(es, |p|) && k <= d
    requires forall e :: e in es && !Touches(e, i, j) ==> Gap(q, e.0, e.1) == Gap(p, e.0, e.1)
    requires forall e :: e in es && Touches(e, i, j) ==> Gap(p, e.0, e.1) >= d && Gap(q, e.0, e.1) > d
    ensures Count(es, q, k) <= Count(es, p, k)
    ensures k < d ==> Count(es, q, k) == Count(es, p, k)
    ensures k == d && (exists e :: e in es && Touches(e, i, j) && Gap(p, e.0, e.1) == d) ==>
              Count(es, q, k) < Count(es, p, k)
  {
    if es != [] {
      assert es == [es[0]] + es[1..];
      assert es[0] in es && forall e :: e in es[1..] ==> e in es;
      CountChange(es[1..], p, q, i, j, d, k);
    }
  }

  // The histogram of q agrees with that of p below d and is smaller at d.
  ghost predicate HistogramDrops(es: seq<Entry>, p: seq<int>, q: seq<int>, d: nat)
    requires |p| == |q| && InBounds(es, |p|)
  {
    && Count(es, q, d) < Count(es, p, d)
    && forall k :: 0 <= k < d ==> Count(es, q, k) == Count(es, p, k)
  }

  // An accepted swap makes the histogram of gaps lexicographically smaller.
  lemma SwapLowersHistogram(m: Csr, p: seq<int>, i: nat, j: nat)
    requires WellFormed(m) && Symmetric(m) && |p| == m.n && i < m.n && j < m.n && i != j
    requires Improves(m, p, i, j)
    ensures exists d :: 0 <= d < m.n && HistogramDrops(Entries(m, m.n), p, Swap(p, i, j), d)
  {
    SwapWidens(m, p, i, j);
    hide Widens, HistogramDrops, Improves, Norm, WellFormed, Symmetric, Entries;
    WideningLowersHistogram(Entries(m, m.n), p, Swap(p, i, j), i, j, PairNorm(m, p, i, j));
  }

  lemma WideningLowersHistogram(es: seq<Entry>, p: seq<int>, q: seq<int>, i: nat, j: nat, d: nat)
    requires |p| == |q| && InBounds(es, |p|) && Widens(es, p, q, i, j, d)
    ensures HistogramDrops(es, p, q, d)
  {
    CountChange(es, p, q, i, j, d, d);
    forall k | 0 <= k < d
      ensures Count(es, q, k) == Count(es, p, k)
    {
      CountChange(es, p, q, i, j, d, k);
    }
  }

  ghost function Pow(b: nat, e: nat): (r: nat)
    ensures b > 0 ==> r > 0
  {
    if e == 0 then 1 else b * Pow(b, e - 1)
  }

  lemma {:induction false} PowMonotone(b: nat, e: nat, f: nat)
    requires b > 0 && e <= f
    ensures Pow(b, e) <= Pow(b, f)
    decreases f
  {
    if e < f {
      PowMonotone(b, e, f - 1);
      MulAtLeast(b, Pow(b, f - 1));
    }
  }

  lemma MulAtLeast(b: nat, x: nat)
    requires b > 0
    ensures x <= b * x
  {
  }

  // A narrow gap weighs more than all wider ones together.
  ghost function Weight(w: nat, n: nat, gap: nat): nat {
    if gap < n then Pow(w, n - gap) else 0
  }

  ghost function Cost(es: seq<Entry>, w: nat, n: nat, p: seq<int>): nat
    requires InBounds(es, |p|)
  {
    if es == [] then 0
    else
      assert es[0] in es;
      Weight(w, n, Gap(p, es[0].0, es[0].1)) + Cost(es[1..], w, n, p)
  }

  lemma WeightBound(w: nat, n: nat, d: nat, gap: nat)
    requires w > 0 && d < n && gap > d
    ensures Weight(w, n, gap) <= Pow(w, n - d - 1)
  {
    if gap < n {
      PowMonotone(w, n - gap, n - d - 1);
    }
  }

  // The cost of the untouched entries, which a swap keeps.
  ghost function Untouched(es: seq<Entry>, w: nat, n: nat, p: seq<int>, i: nat, j: nat): nat
    requires InBounds(es, |p|)
  {
    if es == [] then 0
    else
      assert es[0] in es;
      (if Touches(es[0], i, j) then 0 else Weight(w, n, Gap(p, es[0].0, es[0].1)))
      + Untouched(es[1..], w, n, p, i, j)
  }

  lemma {:induction false} CostAfter(es: seq<Entry>, w: nat, n: nat, p: seq<int>, q: seq<int>, i: nat, j: nat, d: nat)
    requires |p| == |q| && InBounds(es, |p|) && w > 0 && d < n
    requires forall e :: e in es && !Touches(e, i, j) ==> Gap(q, e.0, e.1) == Gap(p, e.0, e.1)
    requires forall e :: e in es && Touches(e, i, j) ==> Gap(q, e.0, e.1) > d
    ensures Cost(es, w, n, q) <= Untouched(es, w, n, p, i, j) + |es| * Pow(w, n - d - 1)
  {
    if es != [] {
      assert es[0] in es && forall e :: e in es[1..] ==> e in es;
      CostAfter(es[1..], w, n, p, q, i, j, d);
      if Touches(es[0], i, j) {
        WeightBound(w, n, d, Gap(q, es[0].0, es[0].1));
      }
      MulSucc(|es[1..]|, Pow(w, n - d - 1));
    }
  }

  lemma MulSucc(k: nat, x: nat)
    ensures (k + 1) * x == k * x + x
  {
  }

  lemma {:induction false} CostBefore(es: seq<Entry>, w: nat, n: nat, p: seq<int>, i: nat, j: nat, e: Entry)
    requires InBounds(es, |p|) && e in es && Touches(e, i, j)
    ensures Cost(es, w, n, p) >= Untouched(es, w, n, p, i, j) + Weight(w, n, Gap(p, e.0, e.1))
  {
    assert es[0] in es && forall f :: f in es[1..] ==> f in es;
    if es[0] == e {
      UntouchedBelow(es[1..], w, n, p, i, j);
    } else {
      assert e in es[1..];
      CostBefore(es[1..], w, n, p, i, j, e);
    }
  }

  lemma {:induction false} UntouchedBelow(es: seq<Entry>, w: nat, n: nat, p: seq<int>, i: nat, j: nat)
    requires InBounds(es, |p|)
    ensures Cost(es, w, n, p) >= Untouched(es, w, n, p, i, j)
  {
    if es != [] {
      assert es[0] in es && forall e :: e in es[1..] ==> e in es;
      UntouchedBelow(es[1..], w, n, p, i, j);
    }
  }

  ghost function Potential(m: Csr, p: seq<int>): nat
    requires WellFormed(m) && |p| == m.n
  {
    Cost(Entries(m, m.n), |Entries(m, m.n)| + 1, m.n, p)
  }

  lemma WideningLowersCost(es: seq<Entry>, n: nat, p: seq<int>, q: seq<int>, i: nat, j: nat, d: nat)
    requires |p| == |q| && InBounds(es, |p|) && d < n && Widens(es, p, q, i, j, d)
    ensures Cost(es, |es| + 1, n, q) < Cost(es, |es| + 1, n, p)
  {
    var w := |es| + 1;
    var e :| e in es && Touches(e, i, j) && Gap(p, e.0, e.1) == d;
    CostAfter(es, w, n, p, q, i, j, d);
    CostBefore(es, w, n, p, i, j, e);
    MulSucc(|es|, Pow(w, n - d - 1));
    hide InBounds, Widens, Untouched, Cost, Touches, Gap;
  }

  lemma WideningLowersPotential(m: Csr, p: seq<int>, i: nat, j: nat, d: nat)
    requires WellFormed(m) && |p| == m.n && i < m.n && j < m.n && d < m.n
    requires Widens(Entries(m, m.n), p, Swap(p, i, j), i, j, d)
    ensures Potential(m, Swap(p, i, j)) < Potential(m, p)
  {
    hide Widens, Cost, Entries, Swap, WellFormed, InBounds;
    WideningLowersCost(Entries(m, m.n), m.n, p, Swap(p, i, j), i, j, d);
  }

  // An accepted swap lowers the potential, so the search ends.
  lemma SwapLowersPotential(m: Csr, p: seq<int>, i: nat, j: nat)
    requires WellFormed(m) && Symmetric(m) && |p| == m.n && i < m.n && j < m.n && i != j
    requires Improves(m, p, i, j)
    ensures Potential(m, Swap(p, i, j)) < Potential(m, p)
  {
    hide Widens, Potential, Entries, PairNorm;
    SwapWidens(m, p, i, j);
    WideningLowersPotential(m, p, i, j, PairNorm(m, p, i, j));
  }

  // An accepted swap does not lower the antibandwidth.
  lemma SwapKeepsAntibandwidth(m: Csr, p: seq<int>, i: nat, j: nat)
    requires WellFormed(m) && Symmetric(m) && |p| == m.n && i < m.n && j < m.n && i != j
    requires Improves(m, p, i, j)
    ensures Antibandwidth(m, Swap(p, i, j), m.n) >= Antibandwidth(m, p, m.n)
  {
    hide WellFormed, LocalNorm, IsLocalNorm, Norm, Row, Symmetric, Antibandwidth;
    var q := Swap(p, i, j);
    AntibandwidthIsMin(m, p, m.n);
    AntibandwidthIsMin(m, q, m.n);
    if Antibandwidth(m, q, m.n) < m.n {
      var k :| 0 <= k < m.n && Norm(m, q, k) == Antibandwidth(m, q, m.n);
      var b := NormAttained(m, q, k);
      EntryGap(m, q, k, b);
      EntryGap(m, p, k, b);
    }
  }

  lemma SwapPermutes(p: seq<int>, i: nat, j: nat)
    requires i < |p| && j < |p|
    ensures multiset(Swap(p, i, j)) == multiset(p)
  {
    assert multiset(p[i := p[j]]) == multiset(p) - multiset{p[i]} + multiset{p[j]};
  }

  // Neighbours are at least d apart everywhere.
  ghost predicate ApartAll(m: Csr, p: seq<int>, d: int)
    requires WellFormed(m) && |p| == m.n
  {
    forall a :: 0 <= a < m.n ==> Apart(Row(m, a), p, a, d)
  }

  // The antibandwidth is the greatest such d, up to n.
  lemma AntibandwidthIs(m: Csr, p: seq<int>, d: nat)
    requires WellFormed(m) && |p| == m.n && d <= m.n
    ensures ApartAll(m, p, d) <==> d <= Antibandwidth(m, p, m.n)
  {
    AntibandwidthIsMin(m, p, m.n);
    forall a | 0 <= a < m.n
      ensures Apart(Row(m, a), p, a, d) <==> d <= Norm(m, p, a)
    {
      NormIs(m, p, a, d);
    }
  }

  lemma NormIs(m: Csr, p: seq<int>, a: nat, d: nat)
    requires WellFormed(m) && |p| == m.n && a < m.n && d <= m.n
    ensures Apart(Row(m, a), p, a, d) <==> d <= Norm(m, p, a)
  {
    var norm := Norm(m, p, a);
    ApartGap(Row(m, a), p, a, d);
    ApartGap(Row(m, a), p, a, norm);
    ApartGap(Row(m, a), p, a, norm + 1);
  }

  // No swap of two positions takes the neighbours of both to a distance that not all of
  // them have already.
  ghost predicate LocalOptimum(m: Csr, p: seq<int>)
    requires WellFormed(m) && |p| == m.n
  {
    forall i, j, d: nat :: 0 <= i < m.n && 0 <= j < m.n && i != j && d <= m.n
                           && Apart(Row(m, i), p[i := p[j]][j := p[i]], i, d)
                           && Apart(Row(m, j), p[i := p[j]][j := p[i]], j, d) ==>
                             Apart(Row(m, i), p, i, d) && Apart(Row(m, j), p, j, d)
  }

  lemma OptimumIs(m: Csr, p: seq<int>)
    requires WellFormed(m) && |p| == m.n && TriedUpto(m, p, m.n, 0)
    ensures LocalOptimum(m, p)
  {
    hide WellFormed, Apart, Improves, Row;
    forall i: nat, j: nat, d: nat | i < m.n && j < m.n && i != j && d <= m.n
                                    && Apart(Row(m, i), p[i := p[j]][j := p[i]], i, d)
                                    && Apart(Row(m, j), p[i := p[j]][j := p[i]], j, d)
      ensures Apart(Row(m, i), p, i, d) && Apart(Row(m, j), p, j, d)
    {
      NoBetter(m, p, i, j, d);
    }
  }

  lemma NoBetter(m: Csr, p: seq<int>, i: nat, j: nat, d: nat)
    requires WellFormed(m) && |p| == m.n && i < m.n && j < m.n && i != j && d <= m.n && !Improves(m, p, i, j)
    requires Apart(Row(m, i), Swap(p, i, j), i, d) && Apart(Row(m, j), Swap(p, i, j), j, d)
    ensures Apart(Row(m, i), p, i, d) && Apart(Row(m, j), p, j, d)
  {
    hide WellFormed, Apart, Row, Norm, Swap;
    NormIs(m, Swap(p, i, j), i, d);
    NormIs(m, Swap(p, i, j), j, d);
    NormIs(m, p, i, d);
    NormIs(m, p, j, d);
  }

  // All pairs before (i, j) have been tried without success on p.
  ghost predicate TriedUpto(m: Csr, p: seq<int>, i: nat, j: nat)
    requires WellFormed(m) && |p| == m.n
  {
    forall a, b :: 0 <= a < m.n && 0 <= b < m.n && a != b && (a < i || (a == i && b < j)) ==> !Improves(m, p, a, b)
  }

  // One pass: what it does to the positions p it started from.
  ghost predicate PassState(m: Csr, p: seq<int>, q: seq<int>, i: nat, j: nat, improved: bool)
    requires WellFormed(m) && |p| == m.n
  {
    && |q| == m.n
    && multiset(q) == multiset(p)
    && Antibandwidth(m, q, m.n) >= Antibandwidth(m, p, m.n)
    && (if improved then Potential(m, q) < Potential(m, p) else q == p && TriedUpto(m, q, i, j))
  }

  lemma PassSwap(m: Csr, p: seq<int>, q: seq<int>, i: nat, j: nat, improved: bool)
    requires WellFormed(m) && Symmetric(m) && |p| == m.n && i < m.n && j < m.n && i != j
    requires PassState(m, p, q, i, j, improved) && Improves(m, q, i, j)
    ensures PassState(m, p, Swap(q, i, j), i, j + 1, true)
  {
    SwapPermutes(q, i, j);
    SwapLowersPotential(m, q, i, j);
    SwapKeepsAntibandwidth(m, q, i, j);
  }

  lemma PassTry(m: Csr, p: seq<int>, q: seq<int>, i: nat, j: nat, improved: bool)
    requires WellFormed(m) && |p| == m.n && i < m.n && j < m.n
    requires PassState(m, p, q, i, j, improved) && (i == j || !Improves(m, q, i, j))
    ensures PassState(m, p, q, i, j + 1, improved)
    ensures j + 1 == m.n ==> PassState(m, p, q, i + 1, 0, improved)
  {
    hide Improves, Potential, Antibandwidth, WellFormed;
  }

  lemma PassStart(m: Csr, p: seq<int>)
    requires WellFormed(m) && |p| == m.n
    ensures PassState(m, p, p, 0, 0, false)
  {
  }

  lemma PassRowEnd(m: Csr, p: seq<int>, q: seq<int>, i: nat, j: nat)
    requires WellFormed(m) && |p| == m.n && PassState(m, p, q, i, j + 1, true)
    ensures PassState(m, p, q, i + 1, 0, true)
  {
  }

  lemma PassEnd(m: Csr, p: seq<int>, q: seq<int>, improved: bool)
    requires WellFormed(m) && |p| == m.n && PassState(m, p, q, m.n, 0, improved)
    ensures |q| == m.n && multiset(q) == multiset(p)
    ensures Antibandwidth(m, q, m.n) >= Antibandwidth(m, p, m.n)
    ensures if improved then Potential(m, q) < Potential(m, p) else q == p && LocalOptimum(m, q)
  {
    if !improved {
      OptimumIs(m, q);
    }
    hide LocalOptimum, TriedUpto, Antibandwidth, Potential;
  }

  // Tries the swap of positions i and j, given the local norm of i.
  method TrySwap(m: Csr, p: array<int>, i: nat, j: nat, norm1: nat) returns (accepted: bool, norm11: nat)
    requires WellFormed(m) && p.Length == m.n && i < m.n && j < m.n && i != j
    requires norm1 == Norm(m, p[..], i)
    modifies p
    ensures accepted <==> Improves(m, old(p[..]), i, j)
    ensures p[..] == if accepted then Swap(old(p[..]), i, j) else old(p[..])
    ensures norm11 == Norm(m, p[..], i)
  {
    hide WellFormed, LocalNorm, IsLocalNorm;
    var norm2 := GetLocal12Norm(m, j, p);
    var pi, pj := p[i], p[j];
    p[i] := pj;
    p[j] := pi;
    assert p[..] == Swap(old(p[..]), i, j);
    norm11 := GetLocal12Norm(m, i, p);
    var norm22 := GetLocal12Norm(m, j, p);
    accepted := Min(norm11, norm22) > Min(norm1, norm2);
    if !accepted {
      p[i] := pi;
      p[j] := pj;
      norm11 := norm1;
      assert p[..] == old(p[..]);
    }
  }

  // One pass over all pairs of positions.
  method Pass(m: Csr, p: array<int>) returns (improved: bool)
    requires WellFormed(m) && Symmetric(m) && p.Length == m.n
    modifies p
    ensures PassState(m, old(p[..]), p[..], m.n, 0, improved)
  {
    hide WellFormed, Symmetric, PassState, Improves, Antibandwidth, Norm, Potential;
    ghost var start := p[..];
    improved := false;
    PassStart(m, start);
    for i := 0 to m.n
      invariant PassState(m, start, p[..], i, 0, improved)
    {
      var norm1 := GetLocal12Norm(m, i, p);
      for j := 0 to m.n
        invariant PassState(m, start, p[..], i, j, improved)
        invariant norm1 == Norm(m, p[..], i)
        invariant j == m.n ==> PassState(m, start, p[..], i + 1, 0, improved)
      {
        ghost var q := p[..];
        if j == i {
          PassTry(m, start, q, i, j, improved);
        } else {
          var accepted;
          accepted, norm1 := TrySwap(m, p, i, j, norm1);
          if accepted {
            PassSwap(m, start, q, i, j, improved);
            improved := true;
            PassRowEnd(m, start, p[..], i, j);
          } else {
            PassTry(m, start, q, i, j, improved);
          }
        }
      }
    }
  }

  // Swaps positions until no swap helps. The search ends on every symmetric
  // pattern, permutes the positions and never lowers the antibandwidth.
  method ImproveAntibandwidthBySwapping(m: Csr, p: array<int>)
    requires WellFormed(m) && Symmetric(m) && p.Length == m.n
    modifies p
    ensures multiset(p[..]) == multiset(old(p[..]))
    ensures forall d: nat :: d <= m.n && ApartAll(m, old(p[..]), d) ==> ApartAll(m, p[..], d)
    ensures LocalOptimum(m, p[..])
  {
    hide WellFormed, Symmetric, PassState, Antibandwidth, Potential, LocalOptimum, ApartAll;
    var improved := true;
    while improved
      invariant multiset(p[..]) == multiset(old(p[..]))
      invariant Antibandwidth(m, p[..], m.n) >= Antibandwidth(m, old(p[..]), m.n)
      invariant !improved ==> LocalOptimum(m, p[..])
      decreases Potential(m, p[..]) + if improved then 1 else 0
    {
      ghost var start := p[..];
      improved := Pass(m, p);
      PassEnd(m, start, p[..], improved);
    }
    NotNarrower(m, old(p[..]), p[..]);
  }

  lemma NotNarrower(m: Csr, p: seq<int>, q: seq<int>)
    requires WellFormed(m) && |p| == |q| == m.n && Antibandwidth(m, q, m.n) >= Antibandwidth(m, p, m.n)
    ensures forall d: nat :: d <= m.n && ApartAll(m, p, d) ==> ApartAll(m, q, d)
  {
    forall d: nat | d <= m.n && ApartAll(m, p, d)
      ensures ApartAll(m, q, d)
    {
      AntibandwidthIs(m, p, d);
      AntibandwidthIs(m, q, d);
    }
  }
}
