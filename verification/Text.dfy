/** The string operations of the Go standard library that the components share. A string is a sequence of characters. */
module Text {

  datatype Option<+T> = None | Some(value: T)

  /** `unicode.IsSpace`. */
  predicate IsSpace(c: char) {
    || c == ' ' || ('\t' <= c <= '\r') || c == '\U{85}' || c == '\U{A0}' || c == '\U{1680}'
    || ('\U{2000}' <= c <= '\U{200A}') || c == '\U{2028}' || c == '\U{2029}' || c == '\U{202F}'
    || c == '\U{205F}' || c == '\U{3000}'
  }

  /** `unicode.IsControl`. */
  predicate IsControl(c: char) { c < ' ' || ('\U{7F}' <= c <= '\U{9F}') }

  /** `unicode.Cf`: format characters. */
  predicate IsFormat(c: char) {
    || c == '\U{AD}' || ('\U{600}' <= c <= '\U{605}') || c == '\U{61C}' || c == '\U{6DD}' || c == '\U{70F}'
    || c == '\U{890}' || c == '\U{891}' || c == '\U{8E2}' || c == '\U{180E}' || ('\U{200B}' <= c <= '\U{200F}')
    || ('\U{202A}' <= c <= '\U{202E}') || ('\U{2060}' <= c <= '\U{2064}') || ('\U{2066}' <= c <= '\U{206F}')
    || c == '\U{FEFF}' || ('\U{FFF9}' <= c <= '\U{FFFB}') || c == '\U{110BD}' || c == '\U{110CD}'
    || ('\U{13430}' <= c <= '\U{1343F}') || ('\U{1BCA0}' <= c <= '\U{1BCA3}') || ('\U{1D173}' <= c <= '\U{1D17A}')
    || c == '\U{E0001}' || ('\U{E0020}' <= c <= '\U{E007F}')
  }

  predicate IsNewline(c: char) { c == '\n' }

  predicate IsSlash(c: char) { c == '/' }

  predicate Without<T>(s: seq<T>, p: T -> bool) { forall i :: 0 <= i < |s| ==> !p(s[i]) }

  predicate Only<T>(s: seq<T>, p: T -> bool) { forall i :: 0 <= i < |s| ==> p(s[i]) }

  predicate Distinct<T(==)>(s: seq<T>) { forall i, j :: 0 <= i < j < |s| ==> s[i] != s[j] }

  lemma SubsetSize<T>(a: set<T>, b: set<T>)
    requires a <= b
    ensures |a| <= |b|
  {
    if a != {} {
      var x :| x in a;
      SubsetSize(a - {x}, b - {x});
    }
  }

  lemma SomeMember<T>(s: seq<T>)
    ensures s != [] ==> exists x :: x in s
  {
    if s != [] { assert s[0] in s; }
  }

  lemma ConcatTail<T>(a: seq<T>, b: seq<T>)
    requires |a| > 0
    ensures (a + b)[0] == a[0] && (a + b)[1..] == a[1..] + b
  {}

  lemma ConcatInit<T>(a: seq<T>, b: seq<T>)
    requires |b| > 0
    ensures (a + b)[|a + b| - 1] == b[|b| - 1] && (a + b)[..|a + b| - 1] == a + b[..|b| - 1]
  {}

  lemma HeadTail<T>(s: seq<T>)
    requires |s| > 0
    ensures s == [s[0]] + s[1..]
  {}

  lemma Around<T>(s: seq<T>, i: nat)
    requires i < |s|
    ensures s == s[..i] + [s[i]] + s[i + 1..] && s[i..] == [s[i]] + s[i + 1..]
  {}

  lemma InitLast<T>(s: seq<T>)
    requires |s| > 0
    ensures s == s[..|s| - 1] + [s[|s| - 1]]
  {}

  lemma ConcatAssoc<T>(a: seq<T>, b: seq<T>, c: seq<T>)
    ensures (a + b) + c == a + (b + c)
  {}

  lemma Nested<T>(a: seq<T>, b: seq<T>, c: seq<T>, d: seq<T>)
    ensures a + b + c + d == a + (b + (c + d))
  {}

  function FlatMap<S, T>(f: S -> seq<T>, s: seq<S>): seq<T> {
    if s == [] then [] else f(s[0]) + FlatMap(f, s[1..])
  }

  lemma FlatMapOne<S, T>(f: S -> seq<T>, x: S)
    ensures FlatMap(f, [x]) == f(x)
  {
    assert [x][1..] == [];
    assert f(x) + [] == f(x);
  }

  lemma {:induction false} FlatMapConcat<S, T>(f: S -> seq<T>, a: seq<S>, b: seq<S>)
    ensures FlatMap(f, a + b) == FlatMap(f, a) + FlatMap(f, b)
  {
    if a == [] {
      assert a + b == b;
    } else {
      FlatMapConcat(f, a[1..], b);
      assert (a + b)[1..] == a[1..] + b && (a + b)[0] == a[0];
      ConcatAssoc(f(a[0]), FlatMap(f, a[1..]), FlatMap(f, b));
    }
  }

  // ---- strings.Split, strings.Join ----

  /** One more character in front: it starts a new piece or goes onto the first one. */
  function PutFront(c: char, parts: seq<string>, p: char -> bool): seq<string>
    requires parts != []
  {
    if p(c) then [[]] + parts else [[c] + parts[0]] + parts[1..]
  }

  /** The pieces of s between the characters that satisfy p. */
  function Split(s: string, p: char -> bool): (parts: seq<string>)
    ensures |parts| >= 1
    ensures forall part :: part in parts ==> Without(part, p)
  {
    if s == [] then [[]]
    else
      var rest := Split(s[1..], p);
      assert rest[0] in rest;
      PutFront(s[0], rest, p)
  }

  function Join(parts: seq<string>, sep: char): string {
    if parts == [] then []
    else if |parts| == 1 then parts[0]
    else parts[0] + [sep] + Join(parts[1..], sep)
  }

  lemma {:induction false} JoinConcat(a: seq<string>, b: seq<string>, sep: char)
    requires a != [] && b != []
    ensures Join(a + b, sep) == Join(a, sep) + [sep] + Join(b, sep)
  {
    if |a| == 1 {
      assert (a + b)[1..] == b;
    } else {
      JoinConcat(a[1..], b, sep);
      assert (a + b)[1..] == a[1..] + b;
    }
  }

  lemma PutFrontConcat(c: char, a: seq<string>, b: seq<string>, p: char -> bool)
    requires a != []
    ensures PutFront(c, a + b, p) == PutFront(c, a, p) + b
  {}

  lemma {:induction false} SplitConcat(a: string, c: char, b: string, p: char -> bool)
    requires p(c)
    ensures Split(a + [c] + b, p) == Split(a, p) + Split(b, p)
  {
    ConcatAssoc(a, [c], b);
    if a == [] {
      assert a + ([c] + b) == [c] + b && ([c] + b)[1..] == b;
    } else {
      SplitConcat(a[1..], c, b, p);
      ConcatTail(a, [c] + b);
      ConcatAssoc(a[1..], [c], b);
      PutFrontConcat(a[0], Split(a[1..], p), Split(b, p), p);
    }
  }

  lemma {:induction false} SplitWhole(s: string, p: char -> bool)
    requires Without(s, p)
    ensures Split(s, p) == [s]
  {
    if s != [] {
      SplitWhole(s[1..], p);
      assert s == [s[0]] + s[1..];
    }
  }

  lemma {:induction false} SplitJoin(parts: seq<string>, sep: char, p: char -> bool)
    requires parts != [] && p(sep)
    requires forall part :: part in parts ==> Without(part, p)
    ensures Split(Join(parts, sep), p) == parts
  {
    SplitWhole(parts[0], p);
    if |parts| > 1 {
      SplitJoin(parts[1..], sep, p);
      SplitConcat(parts[0], sep, Join(parts[1..], sep), p);
      assert parts == [parts[0]] + parts[1..];
    }
  }

  lemma JoinPutFront(c: char, parts: seq<string>, sep: char, p: char -> bool)
    requires parts != [] && (p(c) <==> c == sep)
    ensures Join(PutFront(c, parts, p), sep) == [c] + Join(parts, sep)
  {
    if p(c) {
      assert ([[]] + parts)[1..] == parts;
    } else if |parts| > 1 {
      assert ([[c] + parts[0]] + parts[1..])[1..] == parts[1..];
      ConcatAssoc([c], parts[0], [sep]);
      ConcatAssoc([c], parts[0] + [sep], Join(parts[1..], sep));
    }
  }

  lemma {:induction false} JoinSplit(s: string, sep: char, p: char -> bool)
    requires forall c :: p(c) <==> c == sep
    ensures Join(Split(s, p), sep) == s
  {
    if s != [] {
      JoinSplit(s[1..], sep, p);
      JoinPutFront(s[0], Split(s[1..], p), sep, p);
      HeadTail(s);
    }
  }

  // ---- strings.Fields ----

  function IfNonEmpty(part: string): seq<string> { if part != [] then [part] else [] }

  function NonEmpty(parts: seq<string>): seq<string> {
    if parts == [] then [] else IfNonEmpty(parts[0]) + NonEmpty(parts[1..])
  }

  lemma NonEmptyOne(part: string)
    ensures NonEmpty([part]) == IfNonEmpty(part)
  {
    assert NonEmpty([part]) == IfNonEmpty(part) + NonEmpty([part][1..]);
    assert [part][1..] == [] && NonEmpty([]) == [];
  }

  /** The maximal runs of non-space characters of s. */
  function Fields(s: string): seq<string> {
    NonEmpty(Split(s, IsSpace))
  }

  lemma {:induction false} NonEmptyConcat(a: seq<string>, b: seq<string>)
    ensures NonEmpty(a + b) == NonEmpty(a) + NonEmpty(b)
  {
    if a == [] {
      assert a + b == b;
    } else {
      NonEmptyConcat(a[1..], b);
      ConcatTail(a, b);
      ConcatAssoc(IfNonEmpty(a[0]), NonEmpty(a[1..]), NonEmpty(b));
    }
  }

  lemma NonEmptyMembers(parts: seq<string>)
    ensures forall x :: x in NonEmpty(parts) <==> x in parts && x != []
  {}

  lemma FieldsAreWords(s: string)
    ensures forall w :: w in Fields(s) ==> IsWord(w)
  {
    NonEmptyMembers(Split(s, IsSpace));
  }

  predicate IsWord(w: string) { w != [] && Without(w, IsSpace) }

  lemma FieldsConcat(a: string, c: char, b: string)
    requires IsSpace(c)
    ensures Fields(a + [c] + b) == Fields(a) + Fields(b)
  {
    SplitConcat(a, c, b, IsSpace);
    NonEmptyConcat(Split(a, IsSpace), Split(b, IsSpace));
  }

  lemma FieldsOfWord(w: string)
    requires Without(w, IsSpace)
    ensures Fields(w) == if w == [] then [] else [w]
  {
    SplitWhole(w, IsSpace);
    NonEmptyOne(w);
  }

  lemma {:induction false} FieldsOfJoin(words: seq<string>, sep: char)
    requires IsSpace(sep)
    requires forall w :: w in words ==> IsWord(w)
    ensures Fields(Join(words, sep)) == words
  {
    if words == [] {
      FieldsOfWord([]);
    } else {
      assert IsWord(words[0]);
      FieldsOfWord(words[0]);
      if |words| > 1 {
        FieldsOfJoin(words[1..], sep);
        FieldsConcat(words[0], sep, Join(words[1..], sep));
        assert words == [words[0]] + words[1..];
      }
    }
  }

  lemma {:induction false} FieldsOfBlank(s: string)
    requires Only(s, IsSpace)
    ensures Fields(s) == []
  {
    if s == [] {
      FieldsOfWord([]);
    } else {
      FieldsOfBlank(s[1..]);
      FieldsOfWord([]);
      FieldsConcat([], s[0], s[1..]);
      assert [] + [s[0]] + s[1..] == s;
    }
  }

  // ---- strings.TrimSpace ----

  function TrimLeft<T>(s: seq<T>, p: T -> bool): seq<T> {
    if |s| > 0 && p(s[0]) then TrimLeft(s[1..], p) else s
  }

  function TrimRight<T>(s: seq<T>, p: T -> bool): seq<T> {
    if |s| > 0 && p(s[|s| - 1]) then TrimRight(s[..|s| - 1], p) else s
  }

  function Trim<T>(s: seq<T>, p: T -> bool): seq<T> { TrimRight(TrimLeft(s, p), p) }

  function TrimSpace(s: string): string { Trim(s, IsSpace) }

  lemma TrimLeftParts<T>(s: seq<T>, p: T -> bool) returns (a: seq<T>)
    ensures s == a + TrimLeft(s, p) && Only(a, p)
    ensures TrimLeft(s, p) != [] ==> !p(TrimLeft(s, p)[0])
  {
    if s != [] && p(s[0]) {
      var rest := TrimLeftParts(s[1..], p);
      a := [s[0]] + rest;
    } else {
      a := [];
    }
  }

  lemma TrimRightParts<T>(s: seq<T>, p: T -> bool) returns (b: seq<T>)
    ensures s == TrimRight(s, p) + b && Only(b, p)
    ensures var t := TrimRight(s, p); t != [] ==> !p(t[|t| - 1]) && t[0] == s[0]
  {
    if s != [] && p(s[|s| - 1]) {
      var rest := TrimRightParts(s[..|s| - 1], p);
      b := rest + [s[|s| - 1]];
    } else {
      b := [];
    }
  }

  /** Trimming removes a run of trimmed characters from each end and leaves nothing more to remove. */
  lemma TrimParts<T>(s: seq<T>, p: T -> bool) returns (a: seq<T>, b: seq<T>)
    ensures s == a + Trim(s, p) + b && Only(a, p) && Only(b, p)
    ensures var t := Trim(s, p); t == [] || (!p(t[0]) && !p(t[|t| - 1]))
  {
    a := TrimLeftParts(s, p);
    b := TrimRightParts(TrimLeft(s, p), p);
  }

  /** s is unchanged by trimming exactly when it neither starts nor ends with a trimmed character. */
  lemma TrimFixed<T>(s: seq<T>, p: T -> bool)
    ensures Trim(s, p) == s <==> (s == [] || (!p(s[0]) && !p(s[|s| - 1])))
    ensures Trim(Trim(s, p), p) == Trim(s, p)
  {
    var a, b := TrimParts(s, p);
  }

  lemma TrimOfBlank<T>(s: seq<T>, p: T -> bool)
    ensures Trim(s, p) == [] <==> Only(s, p)
  {
    var a, b := TrimParts(s, p);
    var t := Trim(s, p);
    if t != [] {
      assert s[|a|] == t[0];
    } else {
      assert forall i :: 0 <= i < |s| ==> s[i] == if i < |a| then a[i] else b[i - |a|];
    }
  }

  lemma {:induction false} TrimLeftOf<T>(a: seq<T>, s: seq<T>, p: T -> bool)
    requires Only(a, p) && (s == [] || !p(s[0]))
    ensures TrimLeft(a + s, p) == s
  {
    if a == [] {
      assert a + s == s;
    } else {
      TrimLeftOf(a[1..], s, p);
      ConcatTail(a, s);
    }
  }

  lemma {:induction false} TrimRightOf<T>(s: seq<T>, b: seq<T>, p: T -> bool)
    requires Only(b, p) && (s == [] || !p(s[|s| - 1]))
    ensures TrimRight(s + b, p) == s
  {
    if b == [] {
      assert s + b == s;
    } else {
      TrimRightOf(s, b[..|b| - 1], p);
      ConcatInit(s, b);
    }
  }

  /** What is left between two runs of trimmed characters. */
  lemma TrimAround<T>(a: seq<T>, s: seq<T>, b: seq<T>, p: T -> bool)
    requires Only(a, p) && Only(b, p) && (s == [] || (!p(s[0]) && !p(s[|s| - 1])))
    ensures Trim(a + s + b, p) == s
  {
    if s == [] {
      TrimOfBlank(a + s + b, p);
    } else {
      ConcatAssoc(a, s, b);
      TrimLeftOf(a, s + b, p);
      TrimRightOf(s, b, p);
    }
  }

  lemma FieldsSkipSpace(s: string)
    requires s != [] && IsSpace(s[0])
    ensures Fields(s) == Fields(s[1..])
  {
    FieldsOfWord([]);
    FieldsConcat([], s[0], s[1..]);
    assert [] + [s[0]] + s[1..] == s;
  }

  lemma {:induction false} FieldsDropFront(a: string, s: string)
    requires Only(a, IsSpace)
    ensures Fields(a + s) == Fields(s)
  {
    if a == [] {
      assert a + s == s;
    } else {
      FieldsDropFront(a[1..], s);
      ConcatTail(a, s);
      FieldsSkipSpace(a + s);
    }
  }

  lemma FieldsDropBack(s: string, b: string)
    requires Only(b, IsSpace)
    ensures Fields(s + b) == Fields(s)
  {
    if b == [] {
      assert s + b == s;
    } else {
      FieldsOfBlank(b[1..]);
      FieldsConcat(s, b[0], b[1..]);
      assert s + [b[0]] + b[1..] == s + b;
    }
  }

  lemma FieldsDropBlank(a: string, s: string, b: string)
    requires Only(a, IsSpace) && Only(b, IsSpace)
    ensures Fields(a + s + b) == Fields(s)
  {
    FieldsDropBack(a + s, b);
    FieldsDropFront(a, s);
  }

  lemma FieldsOfTrim(s: string)
    ensures Fields(TrimSpace(s)) == Fields(s)
  {
    var a, b := TrimParts(s, IsSpace);
    FieldsDropBlank(a, TrimSpace(s), b);
  }

  // ---- strings.Index ----

  /** t occurs in s at position i. */
  predicate OccursAt(s: string, t: string, i: nat) {
    i + |t| <= |s| && s[i..i + |t|] == t
  }

  /** The first occurrence of t at or after a position: `strings.Index(s[from:], t) + from`. */
  function IndexFrom(s: string, t: string, from: nat): (r: Option<nat>)
    requires from <= |s|
    ensures r.Some? ==> from <= r.value && OccursAt(s, t, r.value)
    ensures r.Some? ==> forall j: nat :: from <= j < r.value ==> !OccursAt(s, t, j)
    ensures r.None? ==> forall j: nat :: from <= j ==> !OccursAt(s, t, j)
    decreases |s| - from
  {
    if OccursAt(s, t, from) then Some(from)
    else if from == |s| then None
    else IndexFrom(s, t, from + 1)
  }

  /** `strings.IndexByte(s[from:], c) + from`. */
  function IndexChar(s: string, c: char, from: nat): (r: Option<nat>)
    requires from <= |s|
    ensures r.Some? ==> from <= r.value < |s| && s[r.value] == c && (forall j :: from <= j < r.value ==> s[j] != c)
    ensures r.None? ==> forall j :: from <= j < |s| ==> s[j] != c
    decreases |s| - from
  {
    if from == |s| then None
    else if s[from] == c then Some(from)
    else IndexChar(s, c, from + 1)
  }

  /** `strings.LastIndexByte`. */
  function LastIndexChar(s: string, c: char): (i: int)
    ensures -1 <= i < |s| && (i >= 0 ==> s[i] == c) && forall j :: i < j < |s| ==> s[j] != c
  {
    if s == "" then -1 else if s[|s| - 1] == c then |s| - 1 else LastIndexChar(s[..|s| - 1], c)
  }

  /** ASCII `strings.ToLower`. */
  function LowerChar(c: char): char {
    if 'A' <= c <= 'Z' then (c as int + 32) as char else c
  }

  function ToLower(s: string): (r: string)
    ensures |r| == |s| && forall i :: 0 <= i < |s| ==> r[i] == LowerChar(s[i])
  {
    seq(|s|, i requires 0 <= i < |s| => LowerChar(s[i]))
  }

  // ---- Letters and digits ----

  const UPPER := "ABCDEFGHIJKLMNOPQRSTUVWXYZ"
  const LOWER := "abcdefghijklmnopqrstuvwxyz"
  const DIGITS := "0123456789"

  /** The capital and the small letter at one place of the alphabet. */
  predicate ArePair(capital: char, small: char) {
    exists i :: 0 <= i < |UPPER| && i < |LOWER| && capital == UPPER[i] && small == LOWER[i]
  }

  /** The same character, but for its case. */
  predicate SameLetter(a: char, b: char) { a == b || ArePair(a, b) || ArePair(b, a) }

  /** The same text, but for the case of its letters. */
  predicate SameText(a: string, b: string) {
    |a| == |b| && forall i :: 0 <= i < |a| ==> SameLetter(a[i], b[i])
  }

  lemma Alphabets(i: nat)
    requires i < 26
    ensures |UPPER| == |LOWER| == 26
    ensures UPPER[i] as int == 'A' as int + i && LOWER[i] as int == 'a' as int + i
  {}

  lemma DigitAt(k: nat)
    requires k < 10
    ensures |DIGITS| == 10 && DIGITS[k] as int == '0' as int + k
  {}

  lemma CapitalsAndDigits(c: char)
    ensures (c in UPPER <==> 'A' <= c <= 'Z') && (c in DIGITS <==> '0' <= c <= '9')
  {
    Alphabets(0);
    DigitAt(0);
    if 'A' <= c <= 'Z' { Alphabets(c as int - 'A' as int); }
    if '0' <= c <= '9' { DigitAt(c as int - '0' as int); }
    if c in UPPER {
      var i: nat :| i < |UPPER| && UPPER[i] == c;
      Alphabets(i);
    }
    if c in DIGITS {
      var k: nat :| k < |DIGITS| && DIGITS[k] == c;
      DigitAt(k);
    }
  }

  lemma PairsByCode(capital: char, small: char)
    ensures ArePair(capital, small) <==> 'A' <= capital <= 'Z' && small as int == capital as int + 32
  {
    Alphabets(0);
    if 'A' <= capital <= 'Z' {
      Alphabets(capital as int - 'A' as int);
    }
    if ArePair(capital, small) {
      var i: nat :| i < |UPPER| && i < |LOWER| && capital == UPPER[i] && small == LOWER[i];
      Alphabets(i);
    }
  }

  lemma LowerIsSameLetter(a: char, b: char)
    ensures LowerChar(a) == LowerChar(b) <==> SameLetter(a, b)
    ensures ArePair(a, b) ==> LowerChar(a) == b
    ensures LowerChar(a) == a || ArePair(a, LowerChar(a))
  {
    hide ArePair;
    PairsByCode(a, b);
    PairsByCode(b, a);
    PairsByCode(a, LowerChar(a));
  }

  /** Lower-casing identifies exactly the texts that differ in case alone. */
  lemma LowerIgnoresCase(a: string, b: string)
    ensures ToLower(a) == ToLower(b) <==> SameText(a, b)
  {
    hide SameLetter, LowerChar;
    forall x, y ensures LowerChar(x) == LowerChar(y) <==> SameLetter(x, y) { LowerIsSameLetter(x, y); }
    if ToLower(a) == ToLower(b) {
      assert forall i :: 0 <= i < |a| ==> ToLower(a)[i] == ToLower(b)[i];
    }
  }
}
