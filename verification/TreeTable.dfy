// The table behind the random rooted trees: T[n] is the weighted sum of smaller
// entries that the generator later draws from, divided by n - 1.
module TreeTable {

  function Term(t: seq<nat>, d: nat, m: nat): nat
    requires d < |t| && m < |t|
  {
    t[m] * (d * t[d])
  }

  // The terms T[i - d] * (d * T[d]), T[i - 2d] * (d * T[d]), ... with positive index.
  ghost function RowSum(t: seq<nat>, d: nat, i: nat): nat
    requires 0 < d < |t| && i <= |t|
    decreases i
  {
    if i <= d then 0 else Term(t, d, i - d) + RowSum(t, d, i - d)
  }

  // The rows 1..d for size n.
  ghost function SumUpto(t: seq<nat>, n: nat, d: nat): nat
    requires d < n <= |t|
  {
    if d == 0 then 0 else SumUpto(t, n, d - 1) + RowSum(t, d, n)
  }

  ghost function Total(t: seq<nat>, n: nat): nat
    requires 0 < n <= |t|
  {
    SumUpto(t, n, n - 1)
  }

  ghost predicate IsTable(t: seq<nat>) {
    && |t| >= 2 && t[1] == 1
    && forall n :: 2 <= n < |t| ==> t[n] == Total(t[..n], n) / (n - 1)
  }

  // Only entries below n matter.
  lemma {:induction false} RowSumPrefix(t: seq<nat>, k: nat, d: nat, i: nat)
    requires 0 < d < k <= |t| && i <= k
    ensures RowSum(t[..k], d, i) == RowSum(t, d, i)
    decreases i
  {
    if i > d {
      RowSumPrefix(t, k, d, i - d);
    }
  }

  lemma {:induction false} SumPrefix(t: seq<nat>, k: nat, n: nat, d: nat)
    requires d < n <= k <= |t|
    ensures SumUpto(t[..k], n, d) == SumUpto(t, n, d)
  {
    if d > 0 {
      SumPrefix(t, k, n, d - 1);
      RowSumPrefix(t, k, d, n);
    }
  }

  lemma TableTotal(t: seq<nat>, n: nat)
    requires IsTable(t) && 2 <= n < |t|
    ensures t[n] == Total(t, n) / (n - 1)
    ensures (n - 1) * t[n] <= Total(t, n)
  {
    SumPrefix(t, n, n, n - 1);
    DivBound(Total(t, n), n - 1);
  }

  lemma DivBound(x: nat, k: nat)
    requires k > 0
    ensures k * (x / k) <= x
    ensures x >= k ==> x / k >= 1
  {
  }

  // No entry is zero, so every draw has a non-empty range.
  lemma {:induction false} TablePositive(t: seq<nat>, n: nat)
    requires IsTable(t) && 1 <= n < |t|
    ensures t[n] >= 1
  {
    if n > 1 {
      TablePositive(t, n - 1);
      LastTerm(t, n);
      SumPrefix(t, n, n, n - 1);
      DivBound(Total(t, n), n - 1);
    }
  }

  // The last row alone is worth (n - 1) * T[n - 1].
  lemma LastTerm(t: seq<nat>, n: nat)
    requires IsTable(t) && 2 <= n < |t| && t[n - 1] >= 1
    ensures Total(t, n) >= n - 1
  {
    var x := (n - 1) * t[n - 1];
    assert RowSum(t, n - 1, n) >= Term(t, n - 1, 1) == x;
    MulGe(n - 1, t[n - 1]);
  }

  lemma MulGe(a: nat, b: nat)
    requires b >= 1
    ensures a * b >= a
  {
  }

  // Row d of the sum for nlast + 1, added to sum.
  method AddRow(t: array<nat>, nlast: nat, d: nat, sum0: nat) returns (sum: nat)
    requires 1 <= d <= nlast < t.Length
    ensures sum == sum0 + RowSum(t[..nlast + 1], d, nlast + 1)
  {
    hide Term;
    ghost var s := t[..nlast + 1];
    sum := sum0;
    var i := nlast + 1;
    var td := t[d] * d;
    var j := 1;
    while j <= nlast
      invariant 1 <= j <= nlast + 1 && 1 <= i <= nlast + 2 - j
      invariant sum + RowSum(s, d, i) == sum0 + RowSum(s, d, nlast + 1)
    {
      if i <= d { break; }
      i := i - d;
      TermIs(s, d, i, td);
      sum := sum + t[i] * td;
      j := j + 1;
    }
  }

  lemma TermIs(t: seq<nat>, d: nat, m: nat, td: nat)
    requires d < |t| && m < |t| && td == t[d] * d
    ensures t[m] * td == Term(t, d, m)
    ensures td == d * t[d]
  {
    assert td == d * t[d];
  }

  method GenCnt(nn: nat) returns (t: array<nat>)
    requires nn >= 1
    ensures fresh(t) && t.Length == nn + 1 && IsTable(t[..])
  {
    hide RowSum, Term, IsTable;
    t := new nat[nn + 1](_ => 0);
    var nlast := 1;
    t[1] := 1;
    TableStart(t[..nlast + 1]);
    while nn > nlast
      invariant 1 <= nlast <= nn && t.Length == nn + 1
      invariant IsTable(t[..nlast + 1])
    {
      ghost var s := t[..nlast + 1];
      var sum := 0;
      for d := 1 to nlast + 1
        invariant t[..nlast + 1] == s
        invariant sum == SumUpto(s, nlast + 1, d - 1)
      {
        sum := AddRow(t, nlast, d, sum);
      }
      nlast := nlast + 1;
      t[nlast] := sum / (nlast - 1);
      TableGrows(s, t[..nlast + 1], nlast);
    }
    assert t[..nn + 1] == t[..];
  }

  lemma TableStart(t: seq<nat>)
    requires |t| == 2 && t[1] == 1
    ensures IsTable(t)
  {
  }

  lemma TableGrows(s: seq<nat>, t: seq<nat>, n: nat)
    requires IsTable(s) && |s| == n && |t| == n + 1 && t[..n] == s
    requires t[n] == Total(s, n) / (n - 1)
    ensures IsTable(t)
  {
    forall k | 2 <= k < |t|
      ensures t[k] == Total(t[..k], k) / (k - 1)
    {
      assert t[..k] == s[..k];
      assert k < n ==> t[k] == s[k];
      assert s[..n] == s;
    }
  }

  // ----------------------------------------------------------------- the draw

  // What the terms before (d, m), in the order of the sum, add up to: the rows
  // below d, and the part of row d above index m.
  ghost function Skipped(t: seq<nat>, n: nat, d: nat, m: nat): int
    requires 0 < d < n <= |t| && m + d <= n
  {
    SumUpto(t, n, d - 1) + RowSum(t, d, n) - RowSum(t, d, m + d)
  }

  // Size d is taken j times off n, which leaves m.
  ghost predicate Split(n: nat, j: nat, d: nat, m: nat) {
    1 <= d <= n - 1 && 1 <= j && 1 <= m && m + j * d == n && m + d <= n
  }

  // The draw z falls on the term for (d, m).
  ghost predicate Chosen(t: seq<nat>, n: nat, j: nat, d: nat, m: nat, z: nat)
    requires n <= |t|
  {
    && Split(n, j, d, m)
    && Skipped(t, n, d, m) <= z < Skipped(t, n, d, m) + Term(t, d, m)
  }

  // Row d of the draw: takes terms off z until one is larger than what is left.
  method ScanRow(t: array<nat>, n: nat, d: nat, z0: nat) returns (found: bool, j: nat, m: nat, z: nat)
    requires 1 <= d < n < t.Length
    ensures !found ==> z0 == z + RowSum(t[..], d, n)
    ensures found ==> Split(n, j, d, m)
    ensures found ==> var passed := RowSum(t[..], d, n) - RowSum(t[..], d, m + d);
                      passed <= z0 < passed + Term(t[..], d, m)
  {
    hide Term;
    ghost var s := t[..];
    var td := d * t[d];
    TermIs(s, d, n, t[d] * d);
    z := z0;
    m := n;
    j := 0;
    found := false;
    while true
      invariant 1 <= m <= n && m + j * d == n
      invariant z0 == z + RowSum(s, d, n) - RowSum(s, d, m)
      decreases m
    {
      j := j + 1;
      Unfold(j - 1, d);
      if m < d + 1 { break; }
      m := m - d;
      TermIs(s, d, m, td);
      if z < t[m] * td {
        found := true;
        MulGe(d, j);
        break;
      }
      z := z - t[m] * td;
    }
  }

  lemma Unfold(j: nat, d: nat)
    ensures (j + 1) * d == j * d + d
  {
  }

  // Finds the term of the sum for n in which the draw z0 falls.
  method Choose(t: array<nat>, n: nat, z0: nat) returns (j: nat, d: nat, m: nat)
    requires 2 < n < t.Length && z0 < Total(t[..], n)
    ensures Chosen(t[..], n, j, d, m, z0)
  {
    ghost var s := t[..];
    hide *;
    SumStart(s, n);
    var z: nat := z0;
    d := 0;
    m := n;
    j := 0;
    var more := true;
    while more
      invariant d <= n - 1
      invariant more ==> z0 == z + SumUpto(s, n, d)
      invariant !more ==> Chosen(s, n, j, d, m, z0)
      decreases more, n - d
    {
      SumNext(s, n, d);
      d := d + 1;
      ghost var z1 := z;
      var found;
      found, j, m, z := ScanRow(t, n, d, z);
      if found {
        RowChosen(s, n, j, d, m, z0, z1);
      }
      more := !found;
    }
  }

  // The range the source draws from lies inside the sum, because the table
  // entry is the quotient of that sum, and it is not empty.
  lemma DrawRange(t: seq<nat>, n: nat)
    requires IsTable(t) && 2 < n < |t|
    ensures 0 < (n - 1) * t[n] <= Total(t, n)
  {
    TableTotal(t, n);
    TablePositive(t, n);
    MulGe(n - 1, t[n]);
  }

  lemma SumStart(t: seq<nat>, n: nat)
    requires 0 < n <= |t|
    ensures SumUpto(t, n, 0) == 0 && SumUpto(t, n, n - 1) == Total(t, n)
  {
  }

  lemma SumNext(t: seq<nat>, n: nat, d: nat)
    requires d < n <= |t|
    ensures d < n - 1 ==> SumUpto(t, n, d + 1) == SumUpto(t, n, d) + RowSum(t, d + 1, n)
    ensures d == n - 1 ==> SumUpto(t, n, d) == Total(t, n)
  {
  }

  lemma RowChosen(t: seq<nat>, n: nat, j: nat, d: nat, m: nat, z0: nat, z: nat)
    requires Split(n, j, d, m) && n <= |t|
    requires z0 == z + SumUpto(t, n, d - 1)
    requires var passed := RowSum(t, d, n) - RowSum(t, d, m + d);
             passed <= z < passed + Term(t, d, m)
    ensures Chosen(t, n, j, d, m, z0)
  {
    hide Term, RowSum, SumUpto;
  }

  // ------------------------------------------- each term owns its share of draws

  lemma ChosenEnd(t: seq<nat>, n: nat, j: nat, d: nat, m: nat)
    requires Split(n, j, d, m) && n <= |t|
    ensures Skipped(t, n, d, m) + Term(t, d, m) == SumUpto(t, n, d - 1) + RowSum(t, d, n) - RowSum(t, d, m)
  {
  }

  lemma {:induction false} SumUptoMonotone(t: seq<nat>, n: nat, d: nat, d': nat)
    requires d <= d' < n <= |t|
    ensures SumUpto(t, n, d) <= SumUpto(t, n, d')
  {
    if d < d' {
      SumUptoMonotone(t, n, d, d' - 1);
    }
  }

  // A row has less left to sum the further it is walked.
  lemma {:induction false} RowSumMonotone(t: seq<nat>, d: nat, m: nat, i: nat)
    requires 0 < d < |t| && m + i * d <= |t|
    ensures RowSum(t, d, m) <= RowSum(t, d, m + i * d)
    decreases i
  {
    if i > 0 {
      Unfold(i - 1, d);
      RowSumMonotone(t, d, m, i - 1);
    }
  }

  // Two different terms are never chosen by the same draw.
  lemma ChosenUnique(t: seq<nat>, n: nat, j: nat, d: nat, m: nat, j': nat, d': nat, m': nat, z: nat)
    requires n <= |t| && Chosen(t, n, j, d, m, z) && Chosen(t, n, j', d', m', z)
    ensures j == j' && d == d' && m == m'
  {
    if d < d' {
      ChosenLater(t, n, j, d, m, j', d', m', z);
    } else if d' < d {
      ChosenLater(t, n, j', d', m', j, d, m, z);
    } else if j < j' {
      ChosenFurther(t, n, j, d, m, j', m', z);
    } else if j' < j {
      ChosenFurther(t, n, j', d, m', j, m, z);
    }
  }

  lemma ChosenLater(t: seq<nat>, n: nat, j: nat, d: nat, m: nat, j': nat, d': nat, m': nat, z: nat)
    requires n <= |t| && d < d' && Chosen(t, n, j, d, m, z)
    requires Split(n, j', d', m')
    ensures z < Skipped(t, n, d', m')
  {
    ChosenEnd(t, n, j, d, m);
    SumUptoMonotone(t, n, d, d' - 1);
    Unfold(j' - 1, d');
    RowSumMonotone(t, d', m' + d', j' - 1);
  }

  lemma ChosenFurther(t: seq<nat>, n: nat, j: nat, d: nat, m: nat, j': nat, m': nat, z: nat)
    requires n <= |t| && j < j' && Chosen(t, n, j, d, m, z)
    requires Split(n, j', d, m')
    ensures z < Skipped(t, n, d, m')
  {
    ChosenEnd(t, n, j, d, m);
    SplitGap(n, j, d, m, j', m');
    RowSumMonotone(t, d, m' + d, j' - j - 1);
  }

  lemma SplitGap(n: nat, j: nat, d: nat, m: nat, j': nat, m': nat)
    requires j < j' && Split(n, j, d, m) && Split(n, j', d, m')
    ensures m == m' + d + (j' - j - 1) * d
  {
    assert j' * d == j * d + (j' - j) * d;
    Unfold(j' - j - 1, d);
  }

  // Every split has a draw of its own in the range that the source draws from.
  lemma ShareNotEmpty(t: seq<nat>, n: nat, j: nat, d: nat, m: nat) returns (z: nat)
    requires IsTable(t) && 2 < n < |t| && Split(n, j, d, m)
    ensures z < (n - 1) * t[n] && Chosen(t, n, j, d, m, z)
  {
    SkippedSome(t, n, j, d, m);
    z := Skipped(t, n, d, m);
    TablePositive(t, d);
    TablePositive(t, m);
    TermPositive(t, d, m);
    NotBeyond(t, n, j, d, m);
    RangeIsAll(t, n);
  }

  lemma SkippedSome(t: seq<nat>, n: nat, j: nat, d: nat, m: nat)
    requires n <= |t| && Split(n, j, d, m)
    ensures Skipped(t, n, d, m) >= 0
  {
    Unfold(j - 1, d);
    RowSumMonotone(t, d, m + d, j - 1);
  }

  lemma TermPositive(t: seq<nat>, d: nat, m: nat)
    requires 1 <= d < |t| && m < |t| && t[d] >= 1 && t[m] >= 1
    ensures Term(t, d, m) >= d
  {
    MulGe(d, t[d]);
    MulGe(d * t[d], t[m]);
    assert t[m] * (d * t[d]) == (d * t[d]) * t[m];
  }

  // The last term, for a tree of n - 1 nodes below a single one, is the greatest skip.
  lemma NotBeyond(t: seq<nat>, n: nat, j: nat, d: nat, m: nat)
    requires IsTable(t) && 2 < n < |t| && Split(n, j, d, m)
    ensures Skipped(t, n, d, m) + (n - 1) <= Total(t, n)
  {
    LastRow(t, n);
    TablePositive(t, n - 1);
    TermPositive(t, n - 1, 1);
    if d < n - 1 {
      ChosenEnd(t, n, j, d, m);
      SumUptoMonotone(t, n, d, n - 2);
      SumOfRow(t, n, d);
      hide *;
    } else {
      LastSplit(n, j, d, m);
      hide Term, RowSum, IsTable, Split;
    }
  }

  lemma SumOfRow(t: seq<nat>, n: nat, d: nat)
    requires 1 <= d < n <= |t|
    ensures SumUpto(t, n, d) == SumUpto(t, n, d - 1) + RowSum(t, d, n)
  {
  }

  lemma LastRow(t: seq<nat>, n: nat)
    requires 2 < n < |t|
    ensures RowSum(t, n - 1, n) == Term(t, n - 1, 1)
    ensures Total(t, n) == SumUpto(t, n, n - 2) + Term(t, n - 1, 1)
  {
    assert RowSum(t, n - 1, 1) == 0;
    hide Term;
  }

  lemma LastSplit(n: nat, j: nat, d: nat, m: nat)
    requires n > 2 && Split(n, j, d, m) && d == n - 1
    ensures j == 1 && m == 1
  {
    if j > 1 {
      Unfold(j - 2, d);
      Unfold(j - 1, d);
      MulGe(d, j - 1);
    }
  }

  // Less than n - 1 draws of the sum are out of range.
  lemma RangeIsAll(t: seq<nat>, n: nat)
    requires IsTable(t) && 2 < n < |t|
    ensures Total(t, n) < (n - 1) * t[n] + (n - 1)
  {
    TableTotal(t, n);
    QuotientRest(Total(t, n), n - 1);
  }

  lemma QuotientRest(x: nat, k: nat)
    requires k > 0
    ensures x < k * (x / k) + k
  {
  }

  // The table counts the rooted trees of one node, of two, and so on.
  lemma FirstCounts(t: seq<nat>)
    requires IsTable(t) && |t| >= 6
    ensures t[1..6] == [1, 1, 2, 4, 9]
  {
    CountOfTwo(t);
    CountOfThree(t);
    CountOfFour(t);
    CountOfFive(t);
    hide *;
  }

  lemma CountOfTwo(t: seq<nat>)
    requires IsTable(t) && |t| >= 3
    ensures t[2] == 1
  {
    TableTotal(t, 2);
    assert RowSum(t, 1, 1) == 0 && RowSum(t, 1, 2) == 1;
    assert SumUpto(t, 2, 1) == SumUpto(t, 2, 0) + RowSum(t, 1, 2);
  }

  lemma CountOfThree(t: seq<nat>)
    requires IsTable(t) && |t| >= 4 && t[2] == 1
    ensures t[3] == 2
  {
    TableTotal(t, 3);
    assert RowSum(t, 1, 2) == 1 && RowSum(t, 1, 3) == 2;
    assert RowSum(t, 2, 1) == 0 && RowSum(t, 2, 3) == 2;
    assert SumUpto(t, 3, 1) == SumUpto(t, 3, 0) + RowSum(t, 1, 3);
  }

  lemma CountOfFour(t: seq<nat>)
    requires IsTable(t) && |t| >= 5 && t[2] == 1 && t[3] == 2
    ensures t[4] == 4
  {
    TableTotal(t, 4);
    assert RowSum(t, 1, 2) == 1 && RowSum(t, 1, 3) == 2 && RowSum(t, 1, 4) == 4;
    assert RowSum(t, 2, 2) == 0 && RowSum(t, 2, 4) == 2;
    assert RowSum(t, 3, 1) == 0 && RowSum(t, 3, 4) == 6;
    assert SumUpto(t, 4, 1) == SumUpto(t, 4, 0) + RowSum(t, 1, 4);
    assert SumUpto(t, 4, 2) == SumUpto(t, 4, 1) + RowSum(t, 2, 4);
  }

  lemma CountOfFive(t: seq<nat>)
    requires IsTable(t) && |t| >= 6 && t[2] == 1 && t[3] == 2 && t[4] == 4
    ensures t[5] == 9
  {
    TableTotal(t, 5);
    assert RowSum(t, 1, 2) == 1 && RowSum(t, 1, 3) == 2 && RowSum(t, 1, 4) == 4 && RowSum(t, 1, 5) == 8;
    assert RowSum(t, 2, 1) == 0 && RowSum(t, 2, 3) == 2 && RowSum(t, 2, 5) == 6;
    assert RowSum(t, 3, 2) == 0 && RowSum(t, 3, 5) == 6;
    assert RowSum(t, 4, 1) == 0 && RowSum(t, 4, 5) == 16;
    assert SumUpto(t, 5, 1) == SumUpto(t, 5, 0) + RowSum(t, 1, 5);
    assert SumUpto(t, 5, 2) == SumUpto(t, 5, 1) + RowSum(t, 2, 5);
    assert SumUpto(t, 5, 3) == SumUpto(t, 5, 2) + RowSum(t, 3, 5);
  }
}
