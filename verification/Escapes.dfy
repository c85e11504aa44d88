// The escape printer fmtquote and the escape readers chresc and stresc.
module Escapes {
  import opened Wrappers

  type Byte = b: nat | b < 256

  const BACKSLASH: Byte := 92
  const BEL: Byte := 7
  const ESC: Byte := 27
  const VT: Byte := 11

  predicate IsPrint(c: Byte) {
    31 < c < 127
  }

  predicate IsSpace(c: Byte) {
    c == 9 || c == 10 || c == 11 || c == 12 || c == 13 || c == 32
  }

  predicate IsOctal(c: Byte) {
    48 <= c <= 55
  }

  function HexValue(c: Byte): (v: Option<nat>) {
    if 97 <= c <= 102 then Some(c - 97 + 10)
    else if 65 <= c <= 70 then Some(c - 65 + 10)
    else if 48 <= c <= 57 then Some(c - 48)
    else None
  }

  // The letter that follows the backslash for c, if it has one.
  function Letter(c: Byte): Option<Byte> {
    if c == BEL then Some(97)         // a
    else if c == 8 then Some(98)      // b
    else if c == 12 then Some(102)    // f
    else if c == 10 then Some(110)    // n
    else if c == 13 then Some(114)    // r
    else if c == 9 then Some(116)     // t
    else if c == VT then Some(118)    // v
    else if c == ESC then Some(69)    // E
    else if c == BACKSLASH then Some(BACKSLASH)
    else None
  }

  predicate MustEscape(c: Byte) {
    !IsPrint(c) || c == BACKSLASH
  }

  // ------------------------------------------------------------ what is printed

  function Octal(c: Byte): seq<Byte> {
    [48 + c / 64, 48 + c / 8 % 8, 48 + c % 8]
  }

  // The text for one byte, with quote set qs.
  function Escaped(c: Byte, qs: seq<Byte>): seq<Byte> {
    if MustEscape(c) then
      match Letter(c)
      case Some(l) => [BACKSLASH, l]
      case None => [BACKSLASH] + Octal(c)
    else if c in qs then [BACKSLASH, c]
    else [c]
  }

  ghost function Printed(s: seq<Byte>, qs: seq<Byte>): seq<Byte> {
    if s == [] then [] else Escaped(s[0], qs) + Printed(s[1..], qs)
  }

  // --------------------------------------------------------------- what is read

  // The value of the octal digits at the front of s, at most n of them, appended
  // to c, and how many there are.
  ghost function OctalRun(s: seq<Byte>, n: nat, c: nat): (r: (nat, nat))
    ensures r.1 <= |s| && r.1 <= n
  {
    if n == 0 || s == [] || !IsOctal(s[0]) then (c, 0)
    else
      var r := OctalRun(s[1..], n - 1, c * 8 + (s[0] - 48));
      (r.0, r.1 + 1)
  }

  ghost function HexRun(s: seq<Byte>, c: nat): (r: (nat, nat))
    ensures r.1 <= |s|
  {
    if s == [] || HexValue(s[0]) == None then (c, 0)
    else
      var r := HexRun(s[1..], c * 16 + HexValue(s[0]).value);
      (r.0, r.1 + 1)
  }

  // The byte a letter after a backslash stands for.
  function LetterValue(c: Byte): Byte {
    if c == 97 then BEL
    else if c == 98 then 8
    else if c == 102 then 12
    else if c == 110 then 10
    else if c == 114 then 13
    else if c == 115 then 32
    else if c == 116 then 9
    else if c == 118 then VT
    else if c == 69 then ESC
    else c
  }

  // The character at the front of a non-empty text and the length of its escape.
  ghost function Read(s: seq<Byte>): (r: (nat, nat))
    requires s != []
    ensures 1 <= r.1 <= |s|
  {
    if s[0] != BACKSLASH then (s[0], 1)
    else if |s| == 1 then (0, 1)
    else if IsOctal(s[1]) then
      var o := OctalRun(s[2..], 2, s[1] - 48);
      (o.0, 2 + o.1)
    else if s[1] == 120 then
      var x := HexRun(s[2..], 0);
      (x.0, 2 + x.1)
    else (LetterValue(s[1]), 2)
  }

  ghost function Decoded(s: seq<Byte>): (r: seq<Byte>)
    ensures |r| <= |s|
  {
    if s == [] then []
    else
      var r := Read(s);
      [r.0 % 256] + Decoded(s[r.1..])
  }

  // ------------------------------------------------- reading, by its characters

  // v is the value of the hexadecimal digit b.
  ghost predicate IsHexDigit(b: Byte, v: nat) {
    var c := b as char;
    || ('0' <= c <= '9' && v == b - 48)
    || ('a' <= c <= 'f' && v == b - 97 + 10)
    || ('A' <= c <= 'F' && v == b - 65 + 10)
  }

  // The digits d are a hexadecimal number, c.
  ghost predicate IsHexNumber(d: seq<Byte>, c: nat) {
    if d == [] then c == 0
    else IsHexDigit(d[|d| - 1], c % 16) && IsHexNumber(d[..|d| - 1], c / 16)
  }

  // What the letter after a backslash stands for.
  ghost predicate IsLetter(l: Byte, c: nat) {
    match l as char
    case 'a' => c == 7
    case 'b' => c == 8
    case 't' => c == 9
    case 'n' => c == 10
    case 'v' => c == 11
    case 'f' => c == 12
    case 'r' => c == 13
    case 'E' => c == 27
    case 's' => c == 32
    case _ => c == l
  }

  ghost function Digit(b: Byte): int {
    b as int - 48
  }

  // The escape, or the character, at the front of s is w long and stands for c.
  ghost predicate ReadsAs(s: seq<Byte>, c: nat, w: nat)
    requires s != []
  {
    if s[0] as char != '\\' then c == s[0] && w == 1
    else if |s| == 1 then c == 0 && w == 1
    else if '0' <= s[1] as char <= '7' then
      && 2 <= w <= |s| && w <= 4
      && (forall i :: 1 <= i < w ==> '0' <= s[i] as char <= '7')
      && (w < |s| && w < 4 ==> !('0' <= s[w] as char <= '7'))
      && c == (if w == 2 then Digit(s[1])
               else if w == 3 then 8 * Digit(s[1]) + Digit(s[2])
               else 64 * Digit(s[1]) + 8 * Digit(s[2]) + Digit(s[3]))
    else if s[1] as char == 'x' then
      && 2 <= w <= |s| && IsHexNumber(s[2..w], c)
      && (w < |s| ==> forall v :: !IsHexDigit(s[w], v))
    else w == 2 && IsLetter(s[1], c)
  }

  // n bounds the digits that are looked at.
  lemma {:induction false} OctalMeans(s: seq<Byte>, n: nat, c: nat)
    ensures var r := OctalRun(s, n, c);
            && (forall i :: 0 <= i < r.1 ==> '0' <= s[i] as char <= '7')
            && (r.1 < n && r.1 < |s| ==> !('0' <= s[r.1] as char <= '7'))
            && (r.1 == 0 ==> r.0 == c)
            && (r.1 == 1 ==> r.0 == 8 * c + (s[0] - 48))
            && (r.1 == 2 ==> r.0 == 64 * c + 8 * (s[0] - 48) + (s[1] - 48))
  {
    if n > 0 && s != [] && IsOctal(s[0]) {
      OctalMeans(s[1..], n - 1, c * 8 + (s[0] - 48));
    }
  }

  lemma HexDigitMeans(b: Byte)
    ensures match HexValue(b)
            case Some(v) => v < 16 && IsHexDigit(b, v)
            case None => forall v :: !IsHexDigit(b, v)
  {
  }

  lemma HexNumberOn(d: seq<Byte>, c: nat, b: Byte, v: nat)
    requires IsHexNumber(d, c) && IsHexDigit(b, v) && v < 16
    ensures IsHexNumber(d + [b], c * 16 + v)
  {
    hide IsHexDigit;
    assert (d + [b])[..|d|] == d;
    assert (c * 16 + v) / 16 == c && (c * 16 + v) % 16 == v;
  }

  lemma {:induction false} HexMeans(d: seq<Byte>, s: seq<Byte>, c: nat)
    requires IsHexNumber(d, c)
    ensures var r := HexRun(s, c);
            && IsHexNumber(d + s[..r.1], r.0)
            && (r.1 < |s| ==> forall v :: !IsHexDigit(s[r.1], v))
    decreases |s|
  {
    if s != [] {
      HexDigitMeans(s[0]);
    }
    hide IsHexNumber, IsHexDigit, HexValue;
    if s != [] && HexValue(s[0]) != None {
      var v := HexValue(s[0]).value;
      HexNumberOn(d, c, s[0], v);
      HexMeans(d + [s[0]], s[1..], c * 16 + v);
      var r := HexRun(s[1..], c * 16 + v);
      assert d + [s[0]] + s[1..][..r.1] == d + s[..r.1 + 1];
    } else {
      assert d + s[..0] == d;
    }
  }

  lemma ReadMeans(s: seq<Byte>)
    requires s != []
    ensures ReadsAs(s, Read(s).0, Read(s).1)
  {
    if s[0] == BACKSLASH && |s| > 1 {
      if IsOctal(s[1]) {
        ReadOctal(s);
      } else if s[1] == 120 {
        ReadHex(s);
      }
    }
    hide OctalRun, HexRun, IsHexNumber, IsHexDigit;
  }

  lemma ReadOctal(s: seq<Byte>)
    requires |s| > 1 && s[0] == BACKSLASH && IsOctal(s[1])
    ensures ReadsAs(s, Read(s).0, Read(s).1)
  {
    OctalMeans(s[2..], 2, s[1] - 48);
    var m := OctalRun(s[2..], 2, s[1] - 48).1;
    forall i | 2 <= i < 2 + m
      ensures '0' <= s[i] as char <= '7'
    {
      assert s[i] == s[2..][i - 2];
    }
  }

  lemma ReadHex(s: seq<Byte>)
    requires |s| > 1 && s[0] == BACKSLASH && s[1] == 120
    ensures ReadsAs(s, Read(s).0, Read(s).1)
  {
    HexMeans([], s[2..], 0);
    var m := HexRun(s[2..], 0).1;
    assert [] + s[2..][..m] == s[2..2 + m];
    hide HexRun, IsHexNumber, IsHexDigit;
  }

  // ------------------------------------------------ printing, by its characters

  // How long a text is when it is printed.
  ghost function Width(s: seq<Byte>, qs: seq<Byte>): nat {
    if s == [] then 0
    else
      var c := s[|s| - 1];
      Width(s[..|s| - 1], qs)
      + if c in {7, 8, 9, 10, 11, 12, 13, 27, 92} then 2
        else if c < 32 || c > 126 then 4
        else if c in qs then 2
        else 1
  }

  // Only printing characters are printed, a control character by its letter if it has
  // one, and what needs no backslash is left as it is.
  lemma {:induction false} PrintedMeans(s: seq<Byte>, qs: seq<Byte>)
    ensures forall b :: b in Printed(s, qs) ==> 32 <= b <= 126
    ensures |Printed(s, qs)| == Width(s, qs)
    ensures (forall c :: c in s ==> 32 <= c <= 126 && c != 92 && c !in qs) ==> Printed(s, qs) == s
    decreases |s|
  {
    if s != [] {
      var t, c := s[..|s| - 1], s[|s| - 1];
      assert s == t + [c];
      assert c in s && forall x :: x in t ==> x in s;
      PrintedMeans(t, qs);
      PrintedSnoc(t, c, qs);
      EscapedMeans(c, qs);
      hide Escaped, Printed;
    }
  }

  lemma EscapedMeans(c: Byte, qs: seq<Byte>)
    ensures forall b :: b in Escaped(c, qs) ==> 32 <= b <= 126
    ensures |Escaped(c, qs)| == if c in {7, 8, 9, 10, 11, 12, 13, 27, 92} then 2
                                else if c < 32 || c > 126 then 4 else if c in qs then 2 else 1
    ensures 32 <= c <= 126 && c != 92 && c !in qs ==> Escaped(c, qs) == [c]
  {
  }

  // ------------------------------------------------------------ the round trip

  // The characters that mean something else after a backslash.
  predicate Special(c: Byte) {
    IsOctal(c) || c == 120 || LetterValue(c) != c
  }

  // A byte comes back whatever follows, unless it is a quoted special character.
  lemma ReadBack(c: Byte, qs: seq<Byte>, rest: seq<Byte>)
    requires !(c in qs && Special(c))
    ensures var s := Escaped(c, qs) + rest;
            Read(s) == (c, |Escaped(c, qs)|) && s[|Escaped(c, qs)|..] == rest
  {
    var s := Escaped(c, qs) + rest;
    if MustEscape(c) && Letter(c) == None {
      OctalBack(c, rest);
      assert s[2..] == [48 + c / 8 % 8, 48 + c % 8] + rest;
    }
  }

  lemma OctalBack(c: Byte, rest: seq<Byte>)
    ensures IsOctal(48 + c / 64)
    ensures OctalRun([48 + c / 8 % 8, 48 + c % 8] + rest, 2, c / 64) == (c, 2)
  {
    var a, b := 48 + c / 8 % 8, 48 + c % 8;
    var s := [a, b] + rest;
    assert s[1..] == [b] + rest;
    assert s[1..][1..] == rest;
    var v := c / 64 * 8 + (a - 48);
    assert v == c / 8;
    assert OctalRun(s[1..], 1, v) == (v * 8 + (b - 48), 1);
  }

  lemma {:induction false} RoundTrip(s: seq<Byte>, qs: seq<Byte>)
    requires forall c :: c in s && c in qs ==> !Special(c)
    ensures Decoded(Printed(s, qs)) == s
  {
    if s != [] {
      ReadBack(s[0], qs, Printed(s[1..], qs));
      RoundTrip(s[1..], qs);
    }
  }

  // A printed text starts with a backslash or with its first byte.
  lemma PrintedHead(t: seq<Byte>, qs: seq<Byte>)
    requires t != []
    ensures Printed(t, qs) != []
    ensures Printed(t, qs)[0] != BACKSLASH ==> Printed(t, qs) == [t[0]] + Printed(t[1..], qs)
  {
  }

  // Digits at the front of a printed text were printed as themselves.
  lemma {:induction false} OctalRunRaw(t: seq<Byte>, qs: seq<Byte>, n: nat, c: nat)
    ensures var m := OctalRun(Printed(t, qs), n, c).1; m <= |t| && Printed(t, qs)[m..] == Printed(t[m..], qs)
    decreases |t|
  {
    hide Printed, Escaped;
    if t != [] {
      PrintedHead(t, qs);
    } else {
      assert Printed(t, qs) == [] by { PrintedNone(qs); }
    }
    if t != [] && n > 0 && IsOctal(Printed(t, qs)[0]) {
      var rest := Printed(t[1..], qs);
      assert Printed(t, qs)[1..] == rest;
      OctalRunRaw(t[1..], qs, n - 1, c * 8 + (t[0] - 48));
      var m := OctalRun(rest, n - 1, c * 8 + (t[0] - 48)).1;
      assert Printed(t, qs)[m + 1..] == rest[m..] && t[m + 1..] == t[1..][m..];
    }
  }

  lemma PrintedNone(qs: seq<Byte>)
    ensures Printed([], qs) == []
  {
  }

  lemma {:induction false} HexRunRaw(t: seq<Byte>, qs: seq<Byte>, c: nat)
    ensures var m := HexRun(Printed(t, qs), c).1; m <= |t| && Printed(t, qs)[m..] == Printed(t[m..], qs)
    decreases |t|
  {
    hide Printed, Escaped;
    if t != [] {
      PrintedHead(t, qs);
      HexDigitPlain(Printed(t, qs)[0]);
    } else {
      assert Printed(t, qs) == [] by { PrintedNone(qs); }
    }
    if t != [] && HexValue(Printed(t, qs)[0]) != None {
      var rest := Printed(t[1..], qs);
      var c' := c * 16 + HexValue(t[0]).value;
      assert Printed(t, qs)[1..] == rest;
      HexRunRaw(t[1..], qs, c');
      var m := HexRun(rest, c').1;
      assert Printed(t, qs)[m + 1..] == rest[m..] && t[m + 1..] == t[1..][m..];
    }
  }

  lemma HexDigitPlain(c: Byte)
    ensures HexValue(c) != None ==> c != BACKSLASH
  {
  }

  // A quoted octal digit takes the digits after it with it.
  lemma ReadDigit(c: Byte, t: seq<Byte>, qs: seq<Byte>) returns (m: nat)
    requires IsOctal(c)
    ensures var s := [BACKSLASH, c] + Printed(t, qs);
            && m <= |t| && Read(s).1 == 2 + m && s[2 + m..] == Printed(t[m..], qs)
            && (m == 0 ==> Read(s).0 % 256 != c)
  {
    hide Printed;
    var p := Printed(t, qs);
    var s := [BACKSLASH, c] + p;
    assert s[2..] == p;
    OctalRunRaw(t, qs, 2, c - 48);
    m := OctalRun(p, 2, c - 48).1;
    assert s[2 + m..] == p[m..];
  }

  // A quoted x takes the hexadecimal digits after it with it.
  lemma ReadX(t: seq<Byte>, qs: seq<Byte>) returns (m: nat)
    ensures var s := [BACKSLASH, 120] + Printed(t, qs);
            && m <= |t| && Read(s).1 == 2 + m && s[2 + m..] == Printed(t[m..], qs)
            && (m == 0 ==> Read(s).0 % 256 != 120)
  {
    hide Printed;
    var p := Printed(t, qs);
    var s := [BACKSLASH, 120] + p;
    assert s[2..] == p;
    HexRunRaw(t, qs, 0);
    m := HexRun(p, 0).1;
    assert s[2 + m..] == p[m..];
  }

  // A quoted letter is read as the character it stands for.
  lemma ReadLetter(c: Byte, t: seq<Byte>, qs: seq<Byte>)
    requires !IsOctal(c) && c != 120 && LetterValue(c) != c
    ensures var s := [BACKSLASH, c] + Printed(t, qs);
            && Read(s).1 == 2 && s[2..] == Printed(t, qs) && Read(s).0 % 256 != c
  {
    hide Printed;
  }

  // A quoted special character is read as something else, or takes the m
  // characters after it with it.
  lemma ReadSpecial(c: Byte, t: seq<Byte>, qs: seq<Byte>) returns (m: nat)
    requires c in qs && Special(c) && !MustEscape(c)
    ensures m <= |t|
    ensures var s := Escaped(c, qs) + Printed(t, qs);
            && Read(s).1 == 2 + m && s[2 + m..] == Printed(t[m..], qs)
            && (m == 0 ==> Read(s).0 % 256 != c)
  {
    hide Printed, Read, IsOctal, LetterValue, MustEscape;
    assert Escaped(c, qs) == [BACKSLASH, c];
    if IsOctal(c) {
      m := ReadDigit(c, t, qs);
    } else if c == 120 {
      m := ReadX(t, qs);
    } else {
      m := 0;
      assert t[0..] == t;
      ReadLetter(c, t, qs);
    }
  }

  // Reading a printed text never gives more than was printed.
  lemma {:induction false} NeverLonger(s: seq<Byte>, qs: seq<Byte>)
    ensures |Decoded(Printed(s, qs))| <= |s|
    decreases |s|
  {
    if s != [] {
      if s[0] in qs && Special(s[0]) && !MustEscape(s[0]) {
        var m := ReadSpecial(s[0], s[1..], qs);
        NeverLonger(s[1..][m..], qs);
      } else {
        SpecialIsPlain(s[0]);
        ReadBackAny(s[0], qs, Printed(s[1..], qs));
        NeverLonger(s[1..], qs);
      }
    }
  }

  lemma SpecialIsPlain(c: Byte)
    ensures Special(c) ==> !MustEscape(c)
  {
  }

  lemma ReadBackAny(c: Byte, qs: seq<Byte>, rest: seq<Byte>)
    requires !(c in qs && Special(c)) || MustEscape(c)
    ensures var s := Escaped(c, qs) + rest;
            Read(s) == (c, |Escaped(c, qs)|) && s[|Escaped(c, qs)|..] == rest
  {
    SpecialIsPlain(c);
    ReadBack(c, qs, rest);
  }

  lemma {:induction false} Breaks(s: seq<Byte>, qs: seq<Byte>, c: Byte)
    requires c in s && c in qs && Special(c)
    ensures Decoded(Printed(s, qs)) != s
    decreases |s|
  {
    SpecialIsPlain(s[0]);
    if s[0] in qs && Special(s[0]) {
      var m := ReadSpecial(s[0], s[1..], qs);
      NeverLonger(s[1..][m..], qs);
    } else {
      ReadBack(s[0], qs, Printed(s[1..], qs));
      assert s == [s[0]] + s[1..];
      Breaks(s[1..], qs, c);
    }
  }

  // The letter n, when n is quoted, comes back as a line feed.
  lemma BreaksExample()
    ensures Printed([110], [110]) == [BACKSLASH, 110] && Decoded([BACKSLASH, 110]) == [10]
  {
    assert Printed([110][1..], [110]) == [];
    assert [BACKSLASH, 110][2..] == [];
  }

  // The text read back is the text printed exactly when no special character of
  // it is in the quote set.
  lemma RoundTripIff(s: seq<Byte>, qs: seq<Byte>)
    ensures Decoded(Printed(s, qs)) == s <==> forall c :: c in s && c in qs ==> !Special(c)
  {
    if forall c :: c in s && c in qs ==> !Special(c) {
      RoundTrip(s, qs);
    } else {
      var c :| c in s && c in qs && Special(c);
      Breaks(s, qs, c);
    }
  }

  // ------------------------------------------------------------------- chresc

  // Reading a C string held in a buffer: position n holds the terminator.
  ghost predicate IsText(a: seq<Byte>, i: nat, n: nat) {
    i <= n < |a| && a[n] == 0 && forall k :: i <= k < n ==> a[k] != 0
  }

  // The next character of the text at i, and where to read on.
  method Chresc(a: array<Byte>, i: nat, ghost n: nat) returns (c: nat, j: nat)
    requires IsText(a[..], i, n)
    ensures i <= j <= n
    ensures i < n ==> (c, j - i) == Read(a[i..n]) && ReadsAs(a[i..n], c, j - i)
    ensures i == n ==> c == 0 && j == i
  {
    hide ReadsAs;
    if i < n {
      ReadMeans(a[i..n]);
    }
    var s := i;
    c := a[s];
    s := s + 1;
    if c == 0 {
      s := s - 1;
    } else if c == BACKSLASH {
      assert a[i..n][1..] == a[i + 1..n];
      c := a[s];
      s := s + 1;
      if IsOctal(c) {
        assert a[i..n][2..] == a[i + 2..n];
        c, s := ChrescOctal(a, s, n, c - 48);
      } else if c == 120 {
        assert a[i..n][2..] == a[i + 2..n];
        c, s := ChrescHex(a, s, n);
      } else if c == 0 {
        s := s - 1;
      } else {
        c := LetterValue(c);
      }
    }
    j := s;
  }

  // At most two more octal digits.
  method ChrescOctal(a: array<Byte>, s0: nat, ghost n: nat, c0: nat) returns (c: nat, s: nat)
    requires IsText(a[..], s0, n)
    ensures s0 <= s <= n && (c, s - s0) == OctalRun(a[s0..n], 2, c0)
  {
    c, s := c0, s0;
    var q := s + 2;
    while s < q
      invariant s0 <= s <= q <= s0 + 2 && s <= n
      invariant q == s0 + 2 || q == s
      invariant q == s0 + 2 ==>
        var r := OctalRun(a[s..n], q - s, c); (r.0, r.1 + (s - s0)) == OctalRun(a[s0..n], 2, c0)
      invariant q != s0 + 2 ==> (c, s - s0) == OctalRun(a[s0..n], 2, c0)
      decreases q - s
    {
      if IsOctal(a[s]) {
        assert s < n && a[s..n][0] == a[s] && a[s..n][1..] == a[s + 1..n];
        c := c * 8 + (a[s] - 48);
        s := s + 1;
      } else {
        assert s < n ==> a[s..n][0] == a[s];
        q := s;
      }
    }
  }

  // All the hexadecimal digits there are.
  method ChrescHex(a: array<Byte>, s0: nat, ghost n: nat) returns (c: nat, s: nat)
    requires IsText(a[..], s0, n)
    ensures s0 <= s <= n && (c, s - s0) == HexRun(a[s0..n], 0)
  {
    c, s := 0, s0;
    while true
      invariant s0 <= s <= n
      invariant var r := HexRun(a[s..n], c); (r.0, r.1 + (s - s0)) == HexRun(a[s0..n], 0)
      decreases n - s
    {
      var v := HexValue(a[s]);
      if v == None {
        assert s < n ==> a[s..n][0] == a[s];
        break;
      }
      assert s < n && a[s..n][0] == a[s] && a[s..n][1..] == a[s + 1..n];
      c := c * 16 + v.value;
      s := s + 1;
    }
  }

  // ------------------------------------------------------------------- stresc

  // Reads the escapes of the text in the buffer, in place. The text of length n
  // becomes what it decodes to; writing never overtakes reading.
  method Stresc(a: array<Byte>, ghost n: nat)
    requires IsText(a[..], 0, n)
    modifies a
    ensures var d := Decoded(old(a[..n])); |d| <= n && a[..|d|] == d && a[|d|] == 0
    ensures forall x :: n < x < a.Length ==> a[x] == old(a[x])
  {
    hide Decoded, Read, ReadsAs;
    var t, s := 0, 0;
    ghost var b := a[..];
    assert b[0..n] == b[..n];
    while true
      invariant 0 <= t <= s <= n
      invariant a[..t] + Decoded(b[s..n]) == Decoded(b[..n])
      invariant forall x :: s <= x < a.Length ==> a[x] == b[x]
      decreases n - s
    {
      ghost var i := s;
      var c: nat := a[s];
      s := s + 1;
      if c == BACKSLASH {
        assert a[i..n] == b[i..n];
        c, s := Chresc(a, s - 1, n);
      } else if c == 0 {
        DecodedEnd(b, n);
        a[t] := 0;
        return;
      } else {
        ReadPlain(b[i..n]);
      }
      DecodedStep(b, i, s, n, c);
      ghost var before := a[..t];
      a[t] := c % 256;
      t := t + 1;
      assert a[..t] == before + [c % 256];
    }
  }

  lemma DecodedEnd(b: seq<Byte>, n: nat)
    requires n <= |b|
    ensures Decoded(b[n..n]) == []
  {
  }

  lemma ReadPlain(s: seq<Byte>)
    requires s != [] && s[0] != BACKSLASH
    ensures Read(s) == (s[0], 1)
  {
  }

  lemma DecodedStep(b: seq<Byte>, i: nat, j: nat, n: nat, c: nat)
    requires i < j <= n <= |b| && (c, j - i) == Read(b[i..n])
    ensures Decoded(b[i..n]) == [c % 256] + Decoded(b[j..n])
  {
    assert b[i..n][j - i..] == b[j..n];
  }

  // ----------------------------------------------------------------- fmtquote

  const HASH: Byte := 35

  // "$'", the opening quote of the shell's escaping strings.
  const SHELL_QUOTE: seq<Byte> := [36, 39]

  // The characters a shell would not leave alone: "\";~&|()<>[]*?".
  const SHELL_CHARS: seq<Byte> := [34, 59, 126, 38, 124, 40, 41, 60, 62, 91, 93, 42, 63]

  // Some character of s is printed with a backslash.
  ghost predicate NeedsEscape(s: seq<Byte>, qs: seq<Byte>) {
    exists i :: 0 <= i < |s| && (MustEscape(s[i]) || s[i] in qs)
  }

  // Character i has to stand inside quotes, though it needs no backslash.
  predicate QuotesAt(s: seq<Byte>, i: nat, shell: bool)
    requires i < |s|
  {
    || IsSpace(s[i])
    || (shell && (s[i] in SHELL_CHARS || (s[i] == HASH && (i == 0 || IsSpace(s[i - 1])))))
  }

  ghost predicate NeedsQuote(s: seq<Byte>, shell: bool) {
    exists i :: 0 <= i < |s| && QuotesAt(s, i, shell)
  }

  lemma {:induction false} PrintedSnoc(s: seq<Byte>, c: Byte, qs: seq<Byte>)
    ensures Printed(s + [c], qs) == Printed(s, qs) + Escaped(c, qs)
  {
    if s == [] {
      assert (s + [c])[1..] == [];
    } else {
      assert (s + [c])[1..] == s[1..] + [c];
      PrintedSnoc(s[1..], c, qs);
    }
  }

  lemma {:induction false} PrintedRaw(s: seq<Byte>, qs: seq<Byte>)
    requires !NeedsEscape(s, qs)
    ensures Printed(s, qs) == s
  {
    if s != [] {
      assert !MustEscape(s[0]) && s[0] !in qs;
      forall i | 0 <= i < |s[1..]|
        ensures !(MustEscape(s[1..][i]) || s[1..][i] in qs)
      {
        assert s[1..][i] == s[i + 1];
      }
      PrintedRaw(s[1..], qs);
    }
  }

  // How many characters fmtquote leaves off at the front when nothing is escaped: the
  // shell's dollar sign, and the quote if it is not needed.
  ghost function SkipLength(s: seq<Byte>, qb: seq<Byte>): nat {
    var shell := qb == SHELL_QUOTE;
    (if shell then 1 else 0) + (if NeedsQuote(s, shell) then 0 else 1)
  }

  // The skip leads beyond the text that has been built.
  ghost predicate Overruns(s: seq<Byte>, qb: Option<seq<Byte>>, qe: Option<seq<Byte>>) {
    var qs := if qe.Some? then qe.value else [];
    qb.Some? && !NeedsEscape(s, qs) && SkipLength(s, qb.value) > |qb.value + Printed(s, qs)|
  }

  // It does exactly for an empty opening quote and an empty text.
  lemma OverrunIff(s: seq<Byte>, qb: Option<seq<Byte>>, qe: Option<seq<Byte>>)
    ensures Overruns(s, qb, qe) <==> qb == Some([]) && s == []
  {
    var qs := if qe.Some? then qe.value else [];
    if qb.Some? && !NeedsEscape(s, qs) {
      PrintedRaw(s, qs);
    }
  }

  // One such input.
  lemma OverrunExample()
    ensures Overruns([], Some([]), None)
  {
    OverrunIff([], Some([]), None);
  }

  // What fmtquote returns: the printed text alone when no opening quote is given
  // or, but for the quotes and the shell's dollar sign, when they are not needed.
  ghost predicate IsQuoted(out: seq<Byte>, s: seq<Byte>, qb: Option<seq<Byte>>, qe: Option<seq<Byte>>) {
    var qs := if qe.Some? then qe.value else [];
    if qb == None then out == Printed(s, qs)
    else if NeedsEscape(s, qs) then out == qb.value + Printed(s, qs) + qs
    else
      var skip := SkipLength(s, qb.value);
      && skip <= |qb.value + s|
      && out == (qb.value + s)[skip..] + (if NeedsQuote(s, qb.value == SHELL_QUOTE) then qs else [])
  }

  // A character that a shell would not leave alone wherever it stands.
  ghost predicate ForShell(c: Byte) {
    c as char in " \";~&|()<>[]*?"
  }

  lemma QuotesChar(s: seq<Byte>, i: nat)
    requires i < |s| && forall j :: 0 <= j < |s| ==> 32 <= s[j] <= 126
    ensures QuotesAt(s, i, true) <==> ForShell(s[i]) || (s[i] as char == '#' && (i == 0 || s[i - 1] as char == ' '))
  {
  }

  lemma NeedsQuoteIff(s: seq<Byte>)
    requires forall i :: 0 <= i < |s| ==> 32 <= s[i] <= 126
    ensures NeedsQuote(s, true) <==> (exists i :: 0 <= i < |s| && ForShell(s[i])) || (s != [] && s[0] as char == '#')
  {
    hide QuotesAt;
    SpaceForShell();
    hide ForShell;
    if NeedsQuote(s, true) {
      var i :| 0 <= i < |s| && QuotesAt(s, i, true);
      QuotesChar(s, i);
      assert ForShell(s[i]) || i == 0 || ForShell(s[i - 1]);
    }
    if i :| 0 <= i < |s| && ForShell(s[i]) {
      QuotesChar(s, i);
      assert QuotesAt(s, i, true);
    } else if s != [] && s[0] as char == '#' {
      QuotesChar(s, 0);
      assert QuotesAt(s, 0, true);
    }
  }

  lemma SpaceForShell()
    ensures forall c: Byte :: c as char == ' ' ==> ForShell(c)
  {
  }

  // A text of printing characters for the shell, without a backslash or a quote: it
  // stands inside quotes exactly if it has a character that the shell would not leave
  // alone, or starts with a number sign.
  lemma ShellText(s: seq<Byte>, out: seq<Byte>)
    requires forall i :: 0 <= i < |s| ==> 32 <= s[i] <= 126 && s[i] as char != '\\' && s[i] as char != '\''
    ensures IsQuoted(out, s, Some([36, 39]), Some([39])) <==>
            out == if (exists i :: 0 <= i < |s| && ForShell(s[i])) || (s != [] && s[0] as char == '#')
                   then [39] + s + [39] else s
  {
    NoEscape(s);
    PrintedRaw(s, [39]);
    NeedsQuoteIff(s);
    hide Printed, NeedsQuote, ForShell, NeedsEscape;
    assert ([36, 39] + s)[1..] == [39] + s;
    assert ([36, 39] + s)[2..] == s;
  }

  // The same for any other opening quote: the text stands inside the quotes exactly if it
  // has a space; otherwise it follows the opening quote but for its first character.
  lemma OtherText(s: seq<Byte>, qb: seq<Byte>, qe: seq<Byte>, out: seq<Byte>)
    requires qb != [] && qb != [36, 39]
    requires forall i :: 0 <= i < |s| ==> 32 <= s[i] <= 126 && s[i] as char != '\\' && s[i] !in qe
    ensures IsQuoted(out, s, Some(qb), Some(qe)) <==>
            out == if exists i :: 0 <= i < |s| && s[i] as char == ' ' then qb + s + qe else (qb + s)[1..]
  {
    assert !NeedsEscape(s, qe);
    PrintedRaw(s, qe);
    NeedsSpaceIff(s);
    hide Printed, NeedsQuote, NeedsEscape;
    assert (qb + s)[0..] == qb + s;
  }

  lemma NeedsSpaceIff(s: seq<Byte>)
    requires forall i :: 0 <= i < |s| ==> 32 <= s[i] <= 126
    ensures NeedsQuote(s, false) <==> exists i :: 0 <= i < |s| && s[i] as char == ' '
  {
    if i :| 0 <= i < |s| && s[i] as char == ' ' {
      assert QuotesAt(s, i, false);
    }
  }

  lemma NoEscape(s: seq<Byte>)
    requires forall i :: 0 <= i < |s| ==> 32 <= s[i] <= 126 && s[i] as char != '\\' && s[i] as char != '\''
    ensures !NeedsEscape(s, [39])
  {
  }

  // Nothing is returned exactly when the skip leads beyond the text.
  method Fmtquote(s: seq<Byte>, qb: Option<seq<Byte>>, qe: Option<seq<Byte>>) returns (out: Option<seq<Byte>>)
    requires 0 !in s
    ensures out == None <==> qb == Some([]) && s == []
    ensures out.Some? ==> IsQuoted(out.value, s, qb, qe)
  {
    hide Printed, NeedsEscape, NeedsQuote;
    OverrunIff(s, qb, qe);
    var shell := false;
    var b: seq<Byte> := [];
    if qb.Some? {
      if qb.value == SHELL_QUOTE {
        shell := true;
      }
      b := b + qb.value;
    }
    var qs := if qe.Some? then qe.value else [];
    var text, escaped, spaced := PrintLoop(s, qs, shell);
    assert b + text == text || qb.Some?;
    b := b + text;
    if !escaped { PrintedRaw(s, qs); }
    if qb.Some? {
      if !escaped {
        var moveBy := (if shell then 1 else 0) + (if spaced then 0 else 1);
        if moveBy > |b| {
          return None;
        }
        if moveBy > 0 {
          b := b[moveBy..];
        }
      }
      assert b + [] == b && b[0..] == b;
      if qe.Some? && (escaped || spaced) {
        b := b + qe.value;
      }
    }
    out := Some(b);
  }

  // The loop of fmtquote: the text it appends and the flags it leaves.
  method PrintLoop(s: seq<Byte>, qs: seq<Byte>, shell: bool) returns (b: seq<Byte>, escaped: bool, spaced: bool)
    requires 0 !in s
    ensures b == Printed(s, qs)
    ensures escaped <==> NeedsEscape(s, qs)
    ensures !escaped ==> (spaced <==> NeedsQuote(s, shell))
  {
    hide Printed, NeedsEscape, NeedsQuote;
    b, escaped, spaced := [], false, false;
    var last: Byte := 0;
    var i := 0;
    NothingYet(qs, shell);
    while i < |s|
      invariant 0 <= i <= |s|
      invariant b == Printed(s[..i], qs)
      invariant escaped <==> NeedsEscape(s[..i], qs)
      invariant !escaped ==> (spaced <==> NeedsQuote(s[..i], shell))
      invariant !escaped ==> last == if i == 0 then 0 else s[i - 1]
    {
      var c := s[i];
      PrefixStep(s, i, qs, shell);
      if !IsPrint(c) || c == BACKSLASH {
        escaped := true;
        var l := Letter(c);
        b := b + (if l.Some? then [BACKSLASH, l.value] else [BACKSLASH] + Octal(c));
      } else if c in qs {
        escaped := true;
        b := b + [BACKSLASH, c];
      } else {
        if !spaced && !escaped
          && (IsSpace(c) || (shell && (c in SHELL_CHARS || (c == HASH && (last == 0 || IsSpace(last)))))) {
          spaced := true;
        }
        b := b + [c];
      }
      last := b[|b| - 1];
      i := i + 1;
    }
    assert s[..i] == s;
  }

  lemma NothingYet(qs: seq<Byte>, shell: bool)
    ensures Printed([], qs) == [] && !NeedsEscape([], qs) && !NeedsQuote([], shell)
  {
  }

  // How one more character changes what is known of the prefix.
  lemma PrefixStep(s: seq<Byte>, i: nat, qs: seq<Byte>, shell: bool)
    requires i < |s|
    ensures Printed(s[..i + 1], qs) == Printed(s[..i], qs) + Escaped(s[i], qs)
    ensures NeedsEscape(s[..i + 1], qs) <==> NeedsEscape(s[..i], qs) || MustEscape(s[i]) || s[i] in qs
    ensures NeedsQuote(s[..i + 1], shell) <==> NeedsQuote(s[..i], shell) || QuotesAt(s, i, shell)
  {
    var t, t' := s[..i], s[..i + 1];
    assert t' == t + [s[i]];
    PrintedSnoc(t, s[i], qs);
    assert forall k :: 0 <= k < i ==> QuotesAt(t', k, shell) == QuotesAt(t, k, shell);
    assert QuotesAt(t', i, shell) == QuotesAt(s, i, shell);
    if NeedsEscape(t, qs) {
      var k :| 0 <= k < |t| && (MustEscape(t[k]) || t[k] in qs);
      assert t'[k] == t[k];
    }
    if MustEscape(s[i]) || s[i] in qs {
      assert t'[i] == s[i];
    }
  }

  // Escapes control characters and backslashes only; always reversible.
  method Fmtesc(s: seq<Byte>) returns (out: seq<Byte>)
    requires 0 !in s
    ensures Decoded(out) == s
    ensures |out| == Width(s, []) && forall b :: b in out ==> 32 <= b <= 126
    ensures (forall c :: c in s ==> 32 <= c <= 126 && c != 92) ==> out == s
  {
    var r := Fmtquote(s, None, None);
    out := r.value;
    PrintedMeans(s, []);
    RoundTrip(s, []);
  }

  // Also puts a backslash before the characters of qs; reversible exactly when
  // none of those in s means something else after a backslash.
  method Fmtesq(s: seq<Byte>, qs: seq<Byte>) returns (out: seq<Byte>)
    requires 0 !in s
    ensures Decoded(out) == s <==> forall c :: c in s && c in qs ==> !Special(c)
    ensures |out| == Width(s, qs) && forall b :: b in out ==> 32 <= b <= 126
    ensures (forall c :: c in s ==> 32 <= c <= 126 && c != 92 && c !in qs) ==> out == s
  {
    var r := Fmtquote(s, None, Some(qs));
    out := r.value;
    PrintedMeans(s, qs);
    RoundTripIff(s, qs);
  }
}
