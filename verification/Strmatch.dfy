// The shell pattern matcher, for patterns without unescaped parentheses and
// opening brackets: * ? \ literals, & and |.
module Strmatch {
  import opened Wrappers

  const NUL: char := '\0'

  // Reading a C string: its terminator stands after the last character.
  function At(s: string, i: nat): char {
    if i < |s| then s[i] else NUL
  }

  // ------------------------------------------------------------- the language

  // The conjunct of p that starts at i stands for the string s from k on. A star
  // stands for any characters, a question mark for any one, a backslash makes the next
  // character stand for itself, and anything else stands for itself. A backslash that
  // ends the pattern stands for nothing.
  ghost predicate Fits(p: string, i: nat, s: string, k: nat)
    decreases |p| - i, 0
  {
    if i >= |p| || p[i] == '|' || p[i] == '&' then k == |s|
    else if p[i] == '*' then FitsLater(p, i + 1, s, k)
    else if p[i] == '\\' then k < |s| && i + 1 < |p| && p[i + 1] == s[k] && Fits(p, i + 2, s, k + 1)
    else k < |s| && (p[i] == '?' || p[i] == s[k]) && Fits(p, i + 1, s, k + 1)
  }

  // The same for the string from k or some later place on.
  ghost predicate FitsLater(p: string, i: nat, s: string, k: nat)
    decreases |p| - i, 1
  {
    exists m :: k <= m <= |s| && Fits(p, i, s, m)
  }

  // The character at j comes after a backslash that is not quoted itself.
  ghost predicate Quoted(p: string, j: nat) {
    0 < j <= |p| && p[j - 1] == '\\' && !Quoted(p, j - 1)
  }

  ghost predicate IsSep(p: string, j: nat, sep: char) {
    j < |p| && p[j] == sep && !Quoted(p, j)
  }

  // A conjunct of the alternative that starts at a starts at c.
  ghost predicate ConjunctAt(p: string, a: nat, c: nat) {
    && a <= c <= |p| && (c == a || IsSep(p, c - 1, '&'))
    && forall j :: a <= j < c ==> !IsSep(p, j, '|')
  }

  // Every conjunct of the alternative that starts at a stands for s.
  ghost predicate AllFit(p: string, a: nat, s: string) {
    forall c :: ConjunctAt(p, a, c) ==> Fits(p, c, s, 0)
  }

  // An alternative of p, from i on, starts at a.
  ghost predicate AlternativeAt(p: string, i: nat, a: nat) {
    i <= a <= |p| && (a == i || IsSep(p, a - 1, '|'))
  }

  // Some alternative, from i on, has only conjuncts that stand for s.
  ghost predicate AnyFits(p: string, i: nat, s: string) {
    exists a :: AlternativeAt(p, i, a) && AllFit(p, a, s)
  }

  // ------------------------------------------------------- walking the pattern

  function TokenEnd(p: string, i: nat): (j: nat)
    requires i < |p|
    ensures i < j <= |p|
  {
    if p[i] == '\\' && i + 1 < |p| then i + 2 else i + 1
  }

  predicate IsEnd(p: string, i: nat) {
    i >= |p| || p[i] == '|' || p[i] == '&'
  }

  // No parenthesis or opening bracket but after a backslash.
  ghost predicate Plain(p: string, i: nat)
    decreases |p| - i
  {
    i < |p| ==>
      && p[i] != '(' && p[i] != ')' && p[i] != '['
      && Plain(p, if IsEnd(p, i) then i + 1 else TokenEnd(p, i))
  }

  ghost predicate NoNul(s: string) {
    forall i :: 0 <= i < |s| ==> s[i] != NUL
  }

  // Where the conjunct at i ends.
  ghost function End(p: string, i: nat): (j: nat)
    requires i <= |p|
    ensures i <= j <= |p| && IsEnd(p, j)
    decreases |p| - i
  {
    if IsEnd(p, i) then i else End(p, TokenEnd(p, i))
  }

  // After a token the pattern is not quoted, and the token has no separator in it.
  lemma TokenApart(p: string, i: nat)
    requires i < |p| && !Quoted(p, i)
    ensures i + 1 < |p| || p[i] != '\\' ==> !Quoted(p, TokenEnd(p, i))
    ensures !IsEnd(p, i) ==> forall j :: i <= j < TokenEnd(p, i) ==> !IsSep(p, j, '|') && !IsSep(p, j, '&')
  {
    QuotedStep(p, i);
    if i + 1 < |p| {
      QuotedStep(p, i + 1);
    }
    hide Quoted;
  }

  lemma QuotedStep(p: string, j: nat)
    requires j < |p|
    ensures Quoted(p, j + 1) <==> p[j] == '\\' && !Quoted(p, j)
  {
  }

  // No separator comes before the end of a conjunct, and there one comes.
  lemma {:induction false} EndIsSep(p: string, i: nat)
    requires i <= |p| && !Quoted(p, i)
    ensures var j := End(p, i);
            && (forall m :: i <= m < j ==> !IsSep(p, m, '|') && !IsSep(p, m, '&'))
            && (j < |p| ==> !Quoted(p, j) && IsSep(p, j, p[j]) && !Quoted(p, j + 1))
    decreases |p| - i
  {
    if !IsEnd(p, i) {
      TokenApart(p, i);
      if TokenEnd(p, i) < |p| {
        EndIsSep(p, TokenEnd(p, i));
      }
    }
  }

  // The conjuncts of an alternative: the one at its start, and those from its end on.
  lemma NextConjunct(p: string, a: nat, s: string)
    requires a <= |p| && !Quoted(p, a)
    ensures var j := End(p, a);
            AllFit(p, a, s) <==> Fits(p, a, s, 0) && (j < |p| && p[j] == '&' ==> AllFit(p, j + 1, s))
  {
    var j := End(p, a);
    EndIsSep(p, a);
    assert ConjunctAt(p, a, a);
    if j < |p| && p[j] == '&' {
      forall c: nat
        ensures ConjunctAt(p, a, c) <==> c == a || ConjunctAt(p, j + 1, c)
      {
        AfterSep(p, a, j, c);
      }
    } else {
      assert forall c: nat :: ConjunctAt(p, a, c) ==> c == a;
    }
  }

  lemma AfterSep(p: string, a: nat, j: nat, c: nat)
    requires a <= j < |p| && IsSep(p, j, '&') && forall m :: a <= m < j ==> !IsSep(p, m, '|') && !IsSep(p, m, '&')
    ensures ConjunctAt(p, a, c) <==> c == a || ConjunctAt(p, j + 1, c)
  {
    if ConjunctAt(p, a, c) && c != a {
      assert IsSep(p, c - 1, '&') && c - 1 >= j;
    }
  }

  lemma {:induction false} PlainEnd(p: string, i: nat)
    requires i <= |p| && Plain(p, i)
    ensures Plain(p, End(p, i)) && (End(p, i) < |p| ==> Plain(p, End(p, i) + 1))
    decreases |p| - i
  {
    if !IsEnd(p, i) {
      PlainEnd(p, TokenEnd(p, i));
    }
  }

  // Where the next alternative starts, if there is one.
  ghost function NextAlt(p: string, i: nat): (j: Option<nat>)
    ensures j.Some? ==> i < j.value <= |p|
    decreases |p| - i
  {
    if i >= |p| then None
    else if p[i] == '|' then Some(i + 1)
    else if p[i] == '&' then NextAlt(p, i + 1)
    else NextAlt(p, TokenEnd(p, i))
  }

  // It is the place after the next separator of alternatives.
  lemma {:induction false} NextAltIs(p: string, i: nat)
    requires i <= |p| && !Quoted(p, i)
    ensures var j := NextAlt(p, i);
            if j == None then forall m :: i <= m < |p| ==> !IsSep(p, m, '|')
            else !Quoted(p, j.value) && IsSep(p, j.value - 1, '|')
                 && forall m :: i <= m < j.value - 1 ==> !IsSep(p, m, '|')
    ensures Plain(p, i) && NextAlt(p, i).Some? ==> Plain(p, NextAlt(p, i).value)
    decreases |p| - i
  {
    if i < |p| && p[i] != '|' {
      TokenApart(p, i);
      if TokenEnd(p, i) < |p| {
        NextAltIs(p, TokenEnd(p, i));
      }
    }
  }

  // The alternatives: the one at i, and those from the next one on.
  lemma NextAlternative(p: string, i: nat, s: string)
    requires i <= |p| && !Quoted(p, i)
    ensures var j := NextAlt(p, i);
            AnyFits(p, i, s) <==> AllFit(p, i, s) || (j.Some? && AnyFits(p, j.value, s))
  {
    var j := NextAlt(p, i);
    NextAltIs(p, i);
    assert AlternativeAt(p, i, i);
    forall a: nat | AlternativeAt(p, i, a) && a != i
      ensures j.Some? && AlternativeAt(p, j.value, a)
    {
      assert IsSep(p, a - 1, '|');
    }
    if j.Some? {
      forall a: nat | AlternativeAt(p, j.value, a)
        ensures AlternativeAt(p, i, a)
      {
      }
    }
  }

  // ------------------------------------------------------------- runs of stars

  lemma LaterAt(p: string, i: nat, s: string, k: nat) returns (m: nat)
    requires FitsLater(p, i, s, k)
    ensures k <= m <= |s| && Fits(p, i, s, m)
  {
    m :| k <= m <= |s| && Fits(p, i, s, m);
  }

  lemma StarStar(p: string, i: nat, s: string, k: nat)
    requires i + 1 < |p| && p[i] == '*' && p[i + 1] == '*'
    ensures Fits(p, i, s, k) <==> Fits(p, i + 1, s, k)
  {
    var j := i + 1;
    if FitsLater(p, j, s, k) {
      var m := LaterAt(p, j, s, k);
      var l := LaterAt(p, j + 1, s, m);
      assert FitsLater(p, j + 1, s, k);
    }
    if Fits(p, j, s, k) {
      assert FitsLater(p, j + 1, s, k) && k <= |s|;
      assert FitsLater(p, j, s, k);
    }
  }

  // The scratch record of a match: where the last success ended in the string
  // and in the pattern, and the longest prefix that used up the pattern.
  class Match {
    var nextS: nat
    var nextP: nat
    var bestS: Option<nat>

    constructor (nextS: nat)
      ensures bestS == None
    {
      this.nextS := nextS;
      nextP, bestS := 0, None;
    }

    // The whole string counts as a prefix only after a success that used up the
    // pattern.
    twostate predicate BestKept(s: string, b: bool, atEnd: bool)
      reads this
    {
      bestS == Some(|s|) ==> old(bestS) == Some(|s|) || (b && atEnd)
    }

    // The string from position si0 on against the conjunct at pi0.
    method OneMatch(s: string, si0: nat, p: string, pi0: nat) returns (b: bool)
      requires si0 <= |s| && pi0 <= |p| && NoNul(s) && NoNul(p) && Plain(p, pi0)
      modifies this
      ensures b <==> Fits(p, pi0, s, si0)
      ensures b ==> nextS == |s| && nextP == End(p, pi0)
      ensures BestKept(s, b, End(p, pi0) == |p|)
      decreases |p| - pi0, 2
    {
      hide Fits, End;
      var si, pi := si0, pi0;
      while true
        invariant si0 <= si <= |s| && pi0 <= pi <= |p| && Plain(p, pi)
        invariant End(p, pi) == End(p, pi0) && bestS == old(bestS)
        invariant Fits(p, pi0, s, si0) <==> Fits(p, pi, s, si)
        decreases |p| - pi
      {
        var olds, sc := si, At(s, si);
        if si < |s| { si := si + 1; }
        var oldp, pc := pi, At(p, pi);
        if IsEnd(p, oldp) {
          // the terminator, | or &
          b := Terminate(s, olds, sc, p, oldp, pc);
          return;
        }
        EndStep(p, oldp);
        if pc == '*' {
          b := StarMatch(s, olds, p, oldp);
          return;
        }
        FitsStep(p, oldp, s, olds);
        pi := pi + 1;
        if pc == '\\' {
          pc := At(p, pi);
          if pc == NUL { return false; }
          pi := pi + 1;
          if pc != sc { return false; }
        } else if pc != '?' && pc != sc {
          return false;
        }
        if sc == NUL { return false; }
      }
    }

    // The cases that end a conjunct.
    method Terminate(s: string, olds: nat, sc: char, p: string, oldp: nat, pc: char) returns (b: bool)
      requires olds <= |s| && oldp <= |p| && NoNul(s) && NoNul(p)
      requires sc == At(s, olds) && pc == At(p, oldp) && IsEnd(p, oldp)
      modifies this
      ensures b <==> Fits(p, oldp, s, olds)
      ensures b ==> nextS == |s| && nextP == End(p, oldp)
      ensures bestS == if oldp < |p| || (old(bestS).Some? && olds <= old(bestS).value) then old(bestS) else Some(olds)
      ensures BestKept(s, b, End(p, oldp) == |p|)
    {
      FitsEnd(p, oldp, s, olds);
      EndAt(p, oldp);
      if sc == NUL {
        nextS := olds;
        nextP := oldp;
      }
      if pc == NUL && (bestS == None || olds > bestS.value) {
        bestS := Some(olds);
      }
      b := sc == NUL;
    }

    // A run of stars at oldp0, with the string at olds.
    method StarMatch(s: string, olds: nat, p: string, oldp0: nat) returns (b: bool)
      requires olds <= |s| && oldp0 < |p| && NoNul(s) && NoNul(p) && Plain(p, oldp0) && p[oldp0] == '*'
      modifies this
      ensures b <==> Fits(p, oldp0, s, olds)
      ensures b ==> nextS == |s| && nextP == End(p, oldp0)
      ensures BestKept(s, b, End(p, oldp0) == |p|)
      decreases |p| - oldp0, 1
    {
      hide Fits, End;
      StarStep(p, oldp0, s, olds);
      var pi := oldp0 + 1;
      while At(p, pi) == '*' && At(p, pi + 1) != '('
        invariant oldp0 < pi <= |p| && p[pi - 1] == '*' && Plain(p, pi) && End(p, pi) == End(p, oldp0)
        invariant (Fits(p, oldp0, s, olds) <==> Fits(p, pi - 1, s, olds)) && bestS == old(bestS)
        decreases |p| - pi
      {
        StarStep(p, pi, s, olds);
        StarStar(p, pi - 1, s, olds);
        pi := pi + 1;
      }
      var oldp, pc := pi, At(p, pi);
      var n := false;
      StarStep(p, oldp - 1, s, olds);
      if IsEnd(p, oldp) {
        FitsEnd(p, oldp, s, |s|);
        EndAt(p, oldp);
        assert pc == NUL ==> oldp == |p|;
        nextS := |s|;
        nextP := oldp;
        if pc == NUL && (bestS == None || nextS > bestS.value) {
          bestS := Some(nextS);
        }
        return true;
      } else if pc == '?' || pc == '*' {
        n := true;
      } else if pc == '\\' {
        pc := At(p, pi + 1);
        if pc == NUL {
          DanglingFails(p, oldp, s, olds);
          return false;
        }
      }
      b := StarLoop(s, olds, p, oldp, n, pc);
    }

    // Tries the rest of the pattern at every position from olds0 on; a literal
    // that must come first rules positions out.
    method StarLoop(s: string, olds0: nat, p: string, oldp: nat, n: bool, pc: char) returns (b: bool)
      requires olds0 <= |s| && oldp < |p| && NoNul(s) && NoNul(p) && Plain(p, oldp) && !IsEnd(p, oldp)
      requires n || (if p[oldp] == '\\' then oldp + 1 < |p| && p[oldp + 1] == pc
                     else p[oldp] == pc && pc != '?' && pc != '*')
      modifies this
      ensures b <==> FitsLater(p, oldp, s, olds0)
      ensures b ==> nextS == |s| && nextP == End(p, oldp)
      ensures BestKept(s, b, End(p, oldp) == |p|)
      decreases |p| - oldp, 3
    {
      hide Fits, End;
      var olds := olds0;
      while true
        invariant olds0 <= olds <= |s|
        invariant forall k :: olds0 <= k < olds ==> !Fits(p, oldp, s, k)
        invariant bestS == Some(|s|) ==> old(bestS) == Some(|s|)
        decreases |s| - olds
      {
        var sc := At(s, olds);
        if p[oldp] != '*' {
          FitsStep(p, oldp, s, olds);
        }
        if n || pc == sc {
          b := OneMatch(s, olds, p, oldp);
          if b { return; }
        }
        if sc == NUL { return false; }
        olds := olds + 1;
      }
    }

    // Any alternative of the pattern, all of whose conjuncts match.
    method GrpMatch(s: string, p: string) returns (b: bool)
      requires NoNul(s) && NoNul(p) && Plain(p, 0)
      modifies this
      ensures b <==> AnyFits(p, 0, s)
      ensures b ==> nextS == |s|
      ensures !b && bestS == Some(|s|) ==> old(bestS) == Some(|s|)
    {
      hide Fits, End, AllFit, AnyFits, Quoted;
      NotQuotedAtStart(p);
      var pi := 0;
      while true
        invariant pi <= |p| && Plain(p, pi) && !Quoted(p, pi)
        invariant AnyFits(p, 0, s) <==> AnyFits(p, pi, s)
        invariant bestS == Some(|s|) ==> old(bestS) == Some(|s|)
        decreases |p| - pi
      {
        b := Conjunction(s, p, pi);
        NextAlternative(p, pi, s);
        if b { return; }
        NextAltIs(p, pi);
        var next := Gobble(p, pi);
        if next == None {
          return false;
        }
        pi := next.value;
      }
    }

    // The inner loop of grpmatch: the conjuncts of the alternative at pi, in order.
    method Conjunction(s: string, p: string, pi: nat) returns (b: bool)
      requires pi <= |p| && NoNul(s) && NoNul(p) && Plain(p, pi) && !Quoted(p, pi)
      modifies this
      ensures b <==> AllFit(p, pi, s)
      ensures b ==> nextS == |s|
      ensures !b && bestS == Some(|s|) ==> old(bestS) == Some(|s|)
    {
      hide Fits, End, AllFit, Quoted;
      var a := pi;
      while true
        invariant pi <= a <= |p| && Plain(p, a) && !Quoted(p, a)
        invariant AllFit(p, pi, s) <==> AllFit(p, a, s)
        invariant bestS == Some(|s|) ==> old(bestS) == Some(|s|)
        decreases |p| - a
      {
        b := OneMatch(s, 0, p, a);
        NextConjunct(p, a, s);
        EndIsSep(p, a);
        PlainEnd(p, a);
        if !b { return; }
        a := nextP;
        if At(p, a) != '&' { return; }
        a := a + 1;
      }
    }
  }

  lemma NotQuotedAtStart(p: string)
    ensures !Quoted(p, 0)
  {
  }

  lemma EndStep(p: string, i: nat)
    requires i < |p| && !IsEnd(p, i)
    ensures End(p, i) == End(p, TokenEnd(p, i))
  {
  }

  lemma EndAt(p: string, i: nat)
    requires i <= |p| && IsEnd(p, i)
    ensures End(p, i) == i
  {
  }

  lemma FitsEnd(p: string, i: nat, s: string, k: nat)
    requires IsEnd(p, i)
    ensures Fits(p, i, s, k) <==> k == |s|
  {
  }

  lemma DanglingFails(p: string, i: nat, s: string, k: nat)
    requires i + 1 == |p| && p[i] == '\\'
    ensures forall m :: k <= m <= |s| ==> !Fits(p, i, s, m)
  {
  }

  // One character of the pattern, or a quoted one.
  lemma FitsStep(p: string, i: nat, s: string, k: nat)
    requires i < |p| && !IsEnd(p, i) && p[i] != '*'
    ensures p[i] == '\\' && i + 1 == |p| ==> !Fits(p, i, s, k)
    ensures p[i] == '\\' && i + 1 < |p| ==>
              (Fits(p, i, s, k) <==> k < |s| && s[k] == p[i + 1] && Fits(p, i + 2, s, k + 1))
    ensures p[i] != '\\' ==>
              (Fits(p, i, s, k) <==> k < |s| && (p[i] == '?' || s[k] == p[i]) && Fits(p, i + 1, s, k + 1))
  {
  }

  lemma StarStep(p: string, i: nat, s: string, k: nat)
    requires i < |p| && p[i] == '*'
    ensures Fits(p, i, s, k) <==> FitsLater(p, i + 1, s, k)
    ensures End(p, i) == End(p, i + 1)
    ensures Plain(p, i) ==> Plain(p, i + 1) && At(p, i + 1) != '('
  {
  }

  // Skips to the start of the next alternative.
  method Gobble(p: string, i0: nat) returns (j: Option<nat>)
    requires i0 <= |p| && NoNul(p)
    ensures j == NextAlt(p, i0)
  {
    var i := i0;
    while true
      invariant i0 <= i <= |p|
      invariant NextAlt(p, i0) == NextAlt(p, i)
      decreases |p| - i
    {
      var c := At(p, i);
      if c == NUL { return None; }
      i := i + 1;
      if c == '\\' {
        if At(p, i) == NUL { return None; }
        i := i + 1;
      } else if c == '|' {
        return Some(i);
      }
    }
  }

  // strgrpmatch with both anchors and no list of groups: junk is what the record
  // happens to hold before the match.
  method StrMatch(s: string, p: string, junk: nat) returns (r: int)
    requires NoNul(s) && NoNul(p) && Plain(p, 0)
    ensures r == if AnyFits(p, 0, s) then 1 else 0
  {
    var m := new Match(junk);
    m.bestS := None;
    var i := m.GrpMatch(s, p);
    if i || m.bestS != None {
      if m.nextS == |s| {
        if !i {
          m.nextS := m.bestS.value;
        }
        return if m.nextS != |s| then 0 else 1;
      }
    }
    return 0;
  }

  // A pattern of plain characters and question marks.
  lemma CharByChar(p: string, s: string)
    requires forall i :: 0 <= i < |p| ==> p[i] !in ['*', '\\', '|', '&']
    ensures AnyFits(p, 0, s) <==> |s| == |p| && forall i :: 0 <= i < |p| ==> p[i] == '?' || p[i] == s[i]
  {
    assert forall j :: 0 <= j < |p| ==> !IsSep(p, j, '|') && !IsSep(p, j, '&');
    assert forall a :: AlternativeAt(p, 0, a) ==> a == 0;
    assert forall c :: ConjunctAt(p, 0, c) ==> c == 0;
    FitsByChar(p, 0, s, 0);
    assert AlternativeAt(p, 0, 0) && ConjunctAt(p, 0, 0);
  }

  lemma {:induction false} FitsByChar(p: string, i: nat, s: string, k: nat)
    requires i <= |p| && forall j :: i <= j < |p| ==> p[j] !in ['*', '\\', '|', '&']
    ensures Fits(p, i, s, k) <==>
            |s| == k + (|p| - i) && forall j :: i <= j < |p| ==> p[j] == '?' || p[j] == s[k + (j - i)]
    decreases |p| - i
  {
    if i < |p| {
      FitsByChar(p, i + 1, s, k + 1);
    }
  }
}
