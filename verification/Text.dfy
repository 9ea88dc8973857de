/** The parts of Go's `strings` package the code relies on. A Go string is the sequence of its
    bytes, so a byte is a character below 256 and a Go string is a sequence of bytes. */
module Text {
  type Byte = c: char | c < 256 as char witness 'a'
  type GoString = seq<Byte>

  /** The ASCII white space that `strings.TrimSpace` removes. */
  predicate IsSpace(c: char) {
    c == ' ' || '\t' <= c <= '\r'
  }

  predicate IsDot(c: char) {
    c == '.'
  }

  predicate IsDigit(c: char) {
    '0' <= c <= '9'
  }

  lemma SpacesAre(c: char)
    ensures IsSpace(c) <==> c as int in {9, 10, 11, 12, 13, 32}
  {
  }

  /** How many leading bytes `cut` removes. */
  function CutLeft(s: GoString, cut: char -> bool): (k: nat)
    ensures k <= |s| && (k < |s| ==> !cut(s[k]))
  {
    if s != "" && cut(s[0]) then 1 + CutLeft(s[1..], cut) else 0
  }

  /** How many bytes are left when `cut` removes trailing ones. */
  function KeepRight(s: GoString, cut: char -> bool): (k: nat)
    ensures k <= |s| && (k > 0 ==> !cut(s[k - 1]))
  {
    if s != "" && cut(s[|s| - 1]) then KeepRight(s[..|s| - 1], cut) else |s|
  }

  predicate Trimmed(s: GoString, cut: char -> bool) {
    s == "" || (!cut(s[0]) && !cut(s[|s| - 1]))
  }

  function Trim(s: GoString, cut: char -> bool): (t: GoString)
    ensures Trimmed(t, cut)
    ensures Trimmed(s, cut) ==> t == s
  {
    var rest := s[CutLeft(s, cut)..];
    rest[..KeepRight(rest, cut)]
  }

  function TrimSpace(s: GoString): (t: GoString)
    ensures Trimmed(t, IsSpace)
    ensures Trimmed(s, IsSpace) ==> t == s
  {
    Trim(s, IsSpace)
  }

  function TrimDots(s: GoString): (t: GoString)
    ensures Trimmed(t, IsDot)
    ensures Trimmed(s, IsDot) ==> t == s
  {
    Trim(s, IsDot)
  }

  lemma {:induction false} CutStops(s: GoString, cut: char -> bool, i: nat)
    requires i < |s| && !cut(s[i])
    ensures CutLeft(s, cut) <= i
  {
    if cut(s[0]) {
      CutStops(s[1..], cut, i - 1);
    }
  }

  lemma {:induction false} KeepStops(s: GoString, cut: char -> bool, i: nat)
    requires i < |s| && !cut(s[i])
    ensures KeepRight(s, cut) > i
  {
    if cut(s[|s| - 1]) {
      KeepStops(s[..|s| - 1], cut, i);
    }
  }

  lemma {:induction false} CutsAll(s: GoString, cut: char -> bool)
    ensures forall i :: 0 <= i < CutLeft(s, cut) ==> cut(s[i])
  {
    if s != "" && cut(s[0]) {
      CutsAll(s[1..], cut);
      forall i | 0 <= i < CutLeft(s, cut) ensures cut(s[i]) {
        assert i > 0 ==> s[i] == s[1..][i - 1];
      }
    }
  }

  lemma {:induction false} DropsAll(s: GoString, cut: char -> bool)
    ensures forall i :: KeepRight(s, cut) <= i < |s| ==> cut(s[i])
  {
    if s != "" && cut(s[|s| - 1]) {
      DropsAll(s[..|s| - 1], cut);
      forall i | KeepRight(s, cut) <= i < |s| ensures cut(s[i]) {
        assert i < |s| - 1 ==> s[i] == s[..|s| - 1][i];
      }
    }
  }

  /** What is trimmed off at either end is nothing but what is cut. */
  lemma TrimTakesTheEnds(s: GoString, cut: char -> bool)
    ensures exists i, j :: 0 <= i <= j <= |s| && Trim(s, cut) == s[i..j] && forall k :: 0 <= k < |s| && !(i <= k < j) ==> cut(s[k])
  {
    var i := CutLeft(s, cut);
    var rest := s[i..];
    var j := i + KeepRight(rest, cut);
    CutsAll(s, cut);
    DropsAll(rest, cut);
    assert Trim(s, cut) == s[i..j];
    forall k | 0 <= k < |s| && !(i <= k < j) ensures cut(s[k]) {
      assert k >= i ==> s[k] == rest[k - i];
    }
  }

  /** Trimming takes a text out of what is cut around it. */
  lemma TrimOf(before: GoString, core: GoString, after: GoString, cut: char -> bool)
    requires core != "" && Trimmed(core, cut)
    requires (forall i :: 0 <= i < |before| ==> cut(before[i])) && (forall i :: 0 <= i < |after| ==> cut(after[i]))
    ensures Trim(before + core + after, cut) == core
  {
    var s := before + core + after;
    var k := CutLeft(s, cut);
    assert s[|before|] == core[0];
    CutStops(s, cut, |before|);
    assert forall i :: 0 <= i < |before| ==> s[i] == before[i] && cut(s[i]);
    var rest := s[k..];
    assert rest == core + after;
    var n := KeepRight(rest, cut);
    assert rest[|core| - 1] == core[|core| - 1];
    KeepStops(rest, cut, |core| - 1);
    assert forall i :: |core| <= i < |rest| ==> rest[i] == after[i - |core|] && cut(rest[i]);
  }

  predicate Blank(s: GoString) {
    forall i :: 0 <= i < |s| ==> IsSpace(s[i])
  }

  lemma BlankTrims(s: GoString)
    ensures TrimSpace(s) == "" <==> Blank(s)
  {
    if i :| 0 <= i < |s| && !IsSpace(s[i]) {
      NotBlank(s, i);
    } else if TrimSpace(s) != "" {
      TrimTakesTheEnds(s, IsSpace);
    }
  }

  lemma NotBlank(s: GoString, i: nat)
    requires i < |s| && !IsSpace(s[i])
    ensures TrimSpace(s) != ""
  {
    CutStops(s, IsSpace, i);
    var k := CutLeft(s, IsSpace);
    KeepStops(s[k..], IsSpace, i - k);
  }

  /** The first of three texts that is not blank, trimmed. */
  function FirstText(a: GoString, b: GoString, c: GoString): GoString {
    if TrimSpace(a) != "" then TrimSpace(a) else if TrimSpace(b) != "" then TrimSpace(b) else TrimSpace(c)
  }

  predicate HasSuffix(s: GoString, suffix: GoString) {
    |s| >= |suffix| && s[|s| - |suffix|..] == suffix
  }

  function TrimSuffix(s: GoString, suffix: GoString): (t: GoString)
    ensures HasSuffix(s, suffix) ==> t + suffix == s
    ensures !HasSuffix(s, suffix) ==> t == s
  {
    if HasSuffix(s, suffix) then s[..|s| - |suffix|] else s
  }

  /** ASCII case mapping. */
  function LowerByte(c: Byte): Byte {
    if 'A' <= c <= 'Z' then c + 32 as char else c
  }

  function UpperByte(c: Byte): Byte {
    if 'a' <= c <= 'z' then c - 32 as char else c
  }

  function ToLower(s: GoString): (t: GoString)
    ensures |t| == |s|
    ensures forall i :: 0 <= i < |s| ==> t[i] == LowerByte(s[i])
  {
    if s == "" then "" else [LowerByte(s[0])] + ToLower(s[1..])
  }

  function ToUpper(s: GoString): (t: GoString)
    ensures |t| == |s|
    ensures forall i :: 0 <= i < |s| ==> t[i] == UpperByte(s[i])
  {
    if s == "" then "" else [UpperByte(s[0])] + ToUpper(s[1..])
  }

  /** Equality of folded texts, hence an equivalence relation. */
  predicate EqualFold(a: GoString, b: GoString) {
    ToLower(a) == ToLower(b)
  }

  /** The letters are 26 pairs, upper and lower case; all else has no case. */
  lemma LetterPairs(c: Byte, k: nat)
    ensures k < 26 ==> LowerByte('A' + k as char) == 'a' + k as char == LowerByte('a' + k as char)
    ensures k < 26 ==> UpperByte('a' + k as char) == 'A' + k as char == UpperByte('A' + k as char)
    ensures !(65 <= c as int < 91) && !(97 <= c as int < 123) ==> LowerByte(c) == c == UpperByte(c)
  {
  }

  lemma SameCase(x: Byte, y: Byte)
    ensures UpperByte(x) == UpperByte(y) <==> LowerByte(x) == LowerByte(y)
  {
  }

  lemma {:induction false} UpperAndLowerAgree(a: GoString, b: GoString)
    ensures ToUpper(a) == ToUpper(b) <==> EqualFold(a, b)
  {
    if a != "" && b != "" {
      SameCase(a[0], b[0]);
      UpperAndLowerAgree(a[1..], b[1..]);
      assert ToUpper(a)[0] == UpperByte(a[0]) && ToUpper(b)[0] == UpperByte(b[0]);
      assert ToUpper(a)[1..] == ToUpper(a[1..]) && ToUpper(b)[1..] == ToUpper(b[1..]);
      assert ToLower(a)[0] == LowerByte(a[0]) && ToLower(b)[0] == LowerByte(b[0]);
      assert ToLower(a)[1..] == ToLower(a[1..]) && ToLower(b)[1..] == ToLower(b[1..]);
    }
  }

  lemma ToLowerConcat(a: GoString, b: GoString)
    ensures ToLower(a + b) == ToLower(a) + ToLower(b)
  {
  }

  /** The first position of `sep`, or the length. */
  function IndexOf(s: GoString, sep: Byte): (i: nat)
    ensures i <= |s| && (i < |s| ==> s[i] == sep)
  {
    if s == "" || s[0] == sep then 0 else 1 + IndexOf(s[1..], sep)
  }

  predicate Contains(s: GoString, sep: Byte) {
    IndexOf(s, sep) < |s|
  }

  lemma {:induction false} IndexOfIsFirst(s: GoString, sep: Byte)
    ensures sep !in s[..IndexOf(s, sep)]
    ensures Contains(s, sep) <==> sep in s
  {
    if s != "" && s[0] != sep {
      IndexOfIsFirst(s[1..], sep);
      assert s == [s[0]] + s[1..];
      assert s[..IndexOf(s, sep)] == [s[0]] + s[1..][..IndexOf(s[1..], sep)];
    }
  }

  lemma {:induction false} IndexOfConcat(a: GoString, b: GoString, sep: Byte)
    requires !Contains(a, sep)
    ensures IndexOf(a + b, sep) == |a| + IndexOf(b, sep)
  {
    if a == "" {
      assert a + b == b;
    } else {
      assert (a + b)[1..] == a[1..] + b;
      IndexOfConcat(a[1..], b, sep);
    }
  }

  function Split(s: GoString, sep: Byte): (parts: seq<GoString>)
    ensures |parts| >= 1
    decreases |s|
  {
    var i := IndexOf(s, sep);
    if i == |s| then [s] else [s[..i]] + Split(s[i + 1..], sep)
  }

  lemma {:induction false} SplitParts(s: GoString, sep: Byte)
    ensures forall i :: 0 <= i < |Split(s, sep)| ==> !Contains(Split(s, sep)[i], sep)
    decreases |s|
  {
    var i := IndexOf(s, sep);
    if i < |s| {
      SplitParts(s[i + 1..], sep);
      IndexOfIsFirst(s, sep);
      IndexOfIsFirst(s[..i], sep);
    }
  }

  function Join(parts: seq<GoString>, sep: Byte): GoString {
    if parts == [] then ""
    else if |parts| == 1 then parts[0]
    else parts[0] + [sep] + Join(parts[1..], sep)
  }

  lemma JoinCons(first: GoString, rest: seq<GoString>, sep: Byte)
    requires rest != []
    ensures Join([first] + rest, sep) == first + [sep] + Join(rest, sep)
  {
    assert ([first] + rest)[1..] == rest;
  }

  lemma {:induction false} JoinSplit(s: GoString, sep: Byte)
    ensures Join(Split(s, sep), sep) == s
    decreases |s|
  {
    var i := IndexOf(s, sep);
    if i < |s| {
      JoinSplit(s[i + 1..], sep);
      JoinCons(s[..i], Split(s[i + 1..], sep), sep);
      assert s == s[..i] + [sep] + s[i + 1..];
    }
  }

  lemma SplitAtSeparator(a: GoString, b: GoString, sep: Byte)
    requires !Contains(a, sep)
    ensures Split(a + [sep] + b, sep) == [a] + Split(b, sep)
  {
    var s := a + [sep] + b;
    assert s == a + ([sep] + b);
    IndexOfConcat(a, [sep] + b, sep);
    var i := IndexOf(s, sep);
    assert i == |a| && s[..i] == a && s[i + 1..] == b;
  }

  lemma {:induction false} SplitJoin(parts: seq<GoString>, sep: Byte)
    requires parts != []
    requires forall i :: 0 <= i < |parts| ==> !Contains(parts[i], sep)
    ensures Split(Join(parts, sep), sep) == parts
  {
    if |parts| > 1 {
      SplitJoin(parts[1..], sep);
      SplitAtSeparator(parts[0], Join(parts[1..], sep), sep);
    }
  }

  lemma {:induction false} JoinConcat(xs: seq<GoString>, ys: seq<GoString>, sep: Byte)
    requires xs != [] && ys != []
    ensures Join(xs + ys, sep) == Join(xs, sep) + [sep] + Join(ys, sep)
  {
    if |xs| > 1 {
      JoinConcat(xs[1..], ys, sep);
      assert (xs + ys)[1..] == xs[1..] + ys;
    } else {
      assert (xs + ys)[1..] == ys;
    }
  }

  lemma JoinFour(a: GoString, b: GoString, c: GoString, d: GoString, sep: Byte)
    ensures Join([a, b, c, d], sep) == a + [sep] + (b + [sep] + (c + [sep] + d))
  {
    assert [a, b, c, d][1..] == [b, c, d];
    assert [b, c, d][1..] == [c, d];
    assert [c, d][1..] == [d];
    assert Join([c, d], sep) == c + [sep] + d;
    assert Join([b, c, d], sep) == b + [sep] + Join([c, d], sep);
  }
}
