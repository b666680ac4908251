/** internal/cass/match.go: the normal form of a person's name. */
module NameNormal {
  import opened Order
  import opened Text

  // ---- NormalizeName ----

  predicate IsKept(c: char) { c == ' ' || 'a' <= c <= 'z' }

  /** nonAlphaRe: everything but lower-case letters and spaces goes. */
  function KeepLetters(s: string): string {
    if s == [] then [] else (if IsKept(s[0]) then [s[0]] else []) + KeepLetters(s[1..])
  }

  predicate IsReSpace(c: char) { c == ' ' || c == '\t' || c == '\n' || c == '\U{0C}' || c == '\r' }

  /** multiSpaceRe: every run of white space becomes one space. */
  function Collapse(s: string): string {
    if s == [] then []
    else if !IsReSpace(s[0]) then [s[0]] + Collapse(s[1..])
    else (if |s| > 1 && IsReSpace(s[1]) then [] else [' ']) + Collapse(s[1..])
  }

  /** "Last, First" becomes "First Last". */
  function SwapComma(s: string): string {
    match IndexChar(s, ',', 0)
    case None => s
    case Some(i) => TrimSpace(s[i + 1..]) + " " + TrimSpace(s[..i])
  }

  function NameTokens(name: string): seq<string> {
    Fields(Collapse(TrimSpace(KeepLetters(SwapComma(ToLower(TrimSpace(name)))))))
  }

  function NormalizeName(name: string): string {
    if TrimSpace(name) == "" then "" else Join(SortBy(NameTokens(name), StrLeq), ' ')
  }

  // ---- What the tokens of a name are ----

  /** The words of a piece of a name: letters only, lower case. */
  function Words(s: string): seq<string> { Fields(KeepLetters(ToLower(s))) }

  lemma {:induction false} KeepConcat(a: string, b: string)
    ensures KeepLetters(a + b) == KeepLetters(a) + KeepLetters(b)
  {
    if a == [] {
      assert a + b == b;
    } else {
      KeepConcat(a[1..], b);
      assert (a + b)[1..] == a[1..] + b && (a + b)[0] == a[0];
    }
  }

  lemma {:induction false} KeepOfBlank(s: string)
    requires Only(s, IsSpace)
    ensures Only(KeepLetters(s), IsSpace)
  {
    if s != [] { KeepOfBlank(s[1..]); }
  }

  lemma {:induction false} KeepIsKept(s: string)
    ensures Only(KeepLetters(s), IsKept)
    ensures Only(s, IsKept) ==> KeepLetters(s) == s
  {
    if s != [] {
      KeepIsKept(s[1..]);
      assert s == [s[0]] + s[1..];
    }
  }

  lemma LowerConcat(a: string, b: string)
    ensures ToLower(a + b) == ToLower(a) + ToLower(b)
  {}

  lemma FieldsOfKept(a: string, t: string, b: string)
    requires Only(a, IsSpace) && Only(b, IsSpace)
    ensures Fields(KeepLetters(a + t + b)) == Fields(KeepLetters(t))
  {
    KeepConcat(a + t, b);
    KeepConcat(a, t);
    KeepOfBlank(a);
    KeepOfBlank(b);
    FieldsDropBlank(KeepLetters(a), KeepLetters(t), KeepLetters(b));
  }

  lemma FieldsOfKeptTrim(s: string)
    ensures Fields(KeepLetters(TrimSpace(s))) == Fields(KeepLetters(s))
  {
    var a, b := TrimParts(s, IsSpace);
    FieldsOfKept(a, TrimSpace(s), b);
  }

  /** White space around a piece of a name does not matter. */
  lemma WordsDropBlank(a: string, t: string, b: string)
    requires Only(a, IsSpace) && Only(b, IsSpace)
    ensures Words(a + t + b) == Words(t)
  {
    LowerConcat(a + t, b);
    LowerConcat(a, t);
    assert Only(ToLower(a), IsSpace) && Only(ToLower(b), IsSpace);
    FieldsOfKept(ToLower(a), ToLower(t), ToLower(b));
  }

  lemma WordsDropFront(a: string, t: string)
    requires Only(a, IsSpace)
    ensures Words(a + t) == Words(t)
  {
    WordsDropBlank(a, t, "");
    assert (a + t) + "" == a + t;
  }

  lemma WordsDropBack(t: string, b: string)
    requires Only(b, IsSpace)
    ensures Words(t + b) == Words(t)
  {
    WordsDropBlank("", t, b);
    assert "" + t == t;
  }

  /** Collapsing white space keeps the first piece and the non-empty pieces. */
  lemma {:induction false} CollapsedPieces(s: string)
    ensures Split(Collapse(s), IsSpace)[0] == Split(s, IsSpace)[0]
    ensures NonEmpty(Split(Collapse(s), IsSpace)[1..]) == NonEmpty(Split(s, IsSpace)[1..])
  {
    if s != [] {
      CollapsedPieces(s[1..]);
      var p, q := Split(s[1..], IsSpace), Split(Collapse(s[1..]), IsSpace);
      assert p == [p[0]] + p[1..] && q == [q[0]] + q[1..];
      NonEmptyConcat([p[0]], p[1..]);
      NonEmptyConcat([q[0]], q[1..]);
      assert IsReSpace(s[0]) ==> IsSpace(s[0]);
      if IsSpace(s[0]) {
        assert ([[]] + p)[1..] == p;
        if !IsReSpace(s[0]) || !(|s| > 1 && IsReSpace(s[1])) {
          var head := if IsReSpace(s[0]) then ' ' else s[0];
          assert Collapse(s) == [head] + Collapse(s[1..]);
          assert Collapse(s)[1..] == Collapse(s[1..]);
          assert ([[]] + q)[1..] == q;
        } else {
          assert p[0] == [] && NonEmpty([p[0]]) == [] by { assert [p[0]][1..] == []; }
          assert Collapse(s) == Collapse(s[1..]);
        }
      } else {
        assert Collapse(s)[1..] == Collapse(s[1..]);
      }
    }
  }

  lemma FieldsOfCollapse(s: string)
    ensures Fields(Collapse(s)) == Fields(s)
  {
    CollapsedPieces(s);
    var p, q := Split(s, IsSpace), Split(Collapse(s), IsSpace);
    assert p == [p[0]] + p[1..] && q == [q[0]] + q[1..];
    NonEmptyConcat([p[0]], p[1..]);
    NonEmptyConcat([q[0]], q[1..]);
  }

  lemma TokensOfSwapped(name: string)
    ensures NameTokens(name) == Fields(KeepLetters(SwapComma(ToLower(TrimSpace(name)))))
  {
    var s := KeepLetters(SwapComma(ToLower(TrimSpace(name))));
    FieldsOfCollapse(TrimSpace(s));
    FieldsOfTrim(s);
  }

  lemma PlainSwap(t: string)
    ensures ',' !in t ==> Fields(KeepLetters(SwapComma(ToLower(t)))) == Words(t)
  {
    if ',' !in t {
      forall i | 0 <= i < |t| ensures ToLower(t)[i] != ',' { assert t[i] in t; }
    }
  }

  /** Without a comma, a name's tokens are its words. */
  lemma TokensOfPlainName(name: string)
    requires ',' !in name
    ensures NameTokens(name) == Words(name)
  {
    hide NameTokens, Words, Trim;
    TokensOfSwapped(name);
    var a, b := TrimParts(name, IsSpace);
    var t := TrimSpace(name);
    WordsDropBlank(a, t, b);
    PlainSwap(t);
    forall i | 0 <= i < |t| ensures t[i] != ',' {
      assert (a + t + b)[|a| + i] == t[i];
    }
  }

  /** A run of white space in front stops before a character that is none; one at the back starts after it. */
  lemma SpaceStops(a: string, t: string, b: string, k: nat)
    requires Only(a, IsSpace) && Only(b, IsSpace)
    requires k < |a + t + b| && !IsSpace((a + t + b)[k])
    ensures |a| <= k < |a| + |t|
  {
    var s := a + t + b;
    forall i | 0 <= i < |a| ensures IsSpace(s[i]) { assert s[i] == a[i]; }
    forall i | |a| + |t| <= i < |s| ensures IsSpace(s[i]) { assert s[i] == b[i - |a| - |t|]; }
  }

  lemma CutAround(a: string, t: string, b: string, last: string, first: string)
    requires a + t + b == last + "," + first && |a| <= |last| && |b| <= |first|
    ensures last == a + last[|a|..] && first == first[..|first| - |b|] + b
    ensures t == last[|a|..] + "," + first[..|first| - |b|]
  {
    var s := a + t + b;
    assert s[..|a|] == a && s[|a|..|a| + |t|] == t && s[|a| + |t|..] == b;
    assert s[..|a|] == last[..|a|];
    assert s[|a| + |t|..] == first[|first| - |b|..];
    assert s[|a|..|a| + |t|] == last[|a|..] + "," + first[..|first| - |b|];
  }

  /** Trimming around a comma trims the two sides. */
  lemma TrimAroundComma(last: string, first: string) returns (a: string, l: string, f: string, b: string)
    ensures last == a + l && first == f + b && Only(a, IsSpace) && Only(b, IsSpace)
    ensures TrimSpace(last + "," + first) == l + "," + f
  {
    hide Trim;
    var name := last + "," + first;
    a, b := TrimParts(name, IsSpace);
    var t := TrimSpace(name);
    assert name[|last|] == ',';
    SpaceStops(a, t, b, |last|);
    CutAround(a, t, b, last, first);
    l, f := last[|a|..], first[..|first| - |b|];
  }

  /** The tokens of "Last,First" are the words of First and then those of Last. */
  lemma TokensOfCommaName(last: string, first: string)
    requires ',' !in last
    ensures NameTokens(last + "," + first) == Words(first) + Words(last)
  {
    TokensOfSwapped(last + "," + first);
    var a, l, f, b := TrimAroundComma(last, first);
    WordsDropFront(a, l);
    WordsDropBack(f, b);
    FirstComma(l, f);
    SwappedWords(l, f);
  }

  lemma SwappedWords(l: string, f: string)
    requires ',' !in l
    ensures Fields(KeepLetters(SwapComma(ToLower(l + "," + f)))) == Words(f) + Words(l)
  {
    var low_l, low_f := ToLower(l), ToLower(f);
    assert ToLower(l + "," + f) == low_l + "," + low_f;
    FirstComma(l, f);
    KeptWithSpace(TrimSpace(low_f), TrimSpace(low_l));
    FieldsOfKeptTrim(low_f);
    FieldsOfKeptTrim(low_l);
  }

  lemma KeptWithSpace(a: string, b: string)
    ensures Fields(KeepLetters(a + " " + b)) == Fields(KeepLetters(a)) + Fields(KeepLetters(b))
  {
    KeepConcat(a + " ", b);
    KeepConcat(a, " ");
    assert KeepLetters(" ") == " ";
    FieldsConcat(KeepLetters(a), ' ', KeepLetters(b));
  }

  lemma FirstComma(l: string, f: string)
    requires ',' !in l
    ensures var low := ToLower(l) + "," + ToLower(f);
            IndexChar(low, ',', 0) == Some(|l|) && low[..|l|] == ToLower(l) && low[|l| + 1..] == ToLower(f)
  {
    var low := ToLower(l) + "," + ToLower(f);
    assert forall i :: 0 <= i < |l| ==> low[i] == LowerChar(l[i]) && l[i] != ',';
    assert low[|l|] == ',';
  }

  // ---- When two names normalize to the same ----

  predicate IsLetters(w: string) { w != "" && forall i :: 0 <= i < |w| ==> 'a' <= w[i] <= 'z' }

  lemma {:induction false} PiecesOfKept(s: string)
    requires Only(s, IsKept)
    ensures forall k :: 0 <= k < |Split(s, IsSpace)| ==> Only(Split(s, IsSpace)[k], IsKept)
  {
    if s != "" { PiecesOfKept(s[1..]); }
  }

  lemma WordsAreLetters(s: string)
    ensures forall w :: w in Words(s) ==> IsLetters(w)
  {
    var t := KeepLetters(ToLower(s));
    KeepIsKept(ToLower(s));
    PiecesOfKept(t);
    NonEmptyMembers(Split(t, IsSpace));
    forall w | w in Words(s) ensures IsLetters(w) {
      var k :| 0 <= k < |Split(t, IsSpace)| && Split(t, IsSpace)[k] == w;
      assert Only(w, IsKept) && Without(w, IsSpace);
    }
  }

  lemma {:induction false} FindComma(name: string) returns (last: string, first: string)
    requires ',' in name
    ensures name == last + "," + first && ',' !in last
  {
    if name[0] == ',' {
      last, first := "", name[1..];
    } else {
      last, first := FindComma(name[1..]);
      last := [name[0]] + last;
    }
  }

  lemma TokensAreLetters(name: string)
    ensures forall w :: w in NameTokens(name) ==> IsLetters(w)
  {
    if ',' in name {
      var last, first := FindComma(name);
      TokensOfCommaName(last, first);
      WordsAreLetters(first);
      WordsAreLetters(last);
    } else {
      TokensOfPlainName(name);
      WordsAreLetters(name);
    }
  }

  lemma SortedTokens(tokens: seq<string>)
    requires forall w :: w in tokens ==> IsLetters(w)
    ensures multiset(SortBy(tokens, StrLeq)) == multiset(tokens)
    ensures forall w :: w in SortBy(tokens, StrLeq) ==> IsLetters(w)
    ensures Fields(Join(SortBy(tokens, StrLeq), ' ')) == SortBy(tokens, StrLeq)
  {
    StrLeqIsTotalPreorder();
    SortByIsStableSort(tokens, StrLeq);
    var sorted := SortBy(tokens, StrLeq);
    forall w | w in sorted ensures IsLetters(w) && IsWord(w) { assert w in multiset(sorted); }
    FieldsOfJoin(sorted, ' ');
  }

  /** Sorting forgets the order of the tokens and nothing else. */
  lemma SortedTokensAgree(a: seq<string>, b: seq<string>)
    ensures SortBy(a, StrLeq) == SortBy(b, StrLeq) <==> multiset(a) == multiset(b)
  {
    StrLeqIsTotalPreorder();
    SortByIsStableSort(a, StrLeq);
    SortByIsStableSort(b, StrLeq);
    if multiset(a) == multiset(b) {
      forall x, y | StrLeq(x, y) && StrLeq(y, x) ensures x == y { StrLeqAntisymmetric(x, y); }
      SortIsUnique(SortBy(a, StrLeq), SortBy(b, StrLeq), StrLeq);
    }
  }

  lemma NormalizeIsJoin(name: string)
    ensures NormalizeName(name) == Join(SortBy(NameTokens(name), StrLeq), ' ')
  {
    if TrimSpace(name) == "" {
      assert ToLower("") == "";
      FieldsOfWord("");
      TokensOfSwapped(name);
    }
  }

  /** Two names normalize to the same string exactly when they have the same tokens, in whatever order. */
  lemma SameNormalIff(a: string, b: string)
    ensures NormalizeName(a) == NormalizeName(b) <==> multiset(NameTokens(a)) == multiset(NameTokens(b))
  {
    NormalizeIsJoin(a);
    NormalizeIsJoin(b);
    TokensAreLetters(a);
    TokensAreLetters(b);
    SortedTokens(NameTokens(a));
    SortedTokens(NameTokens(b));
    SortedTokensAgree(NameTokens(a), NameTokens(b));
  }

  lemma WordsOfParts(a: string, b: string)
    ensures Words(a + " " + b) == Words(a) + Words(b)
  {
    LowerConcat(a + " ", b);
    LowerConcat(a, " ");
    assert ToLower(" ") == " ";
    KeptWithSpace(ToLower(a), ToLower(b));
  }

  /** "Last, First" and "First Last" are the same name. */
  lemma CommaOrderDoesNotMatter(last: string, first: string)
    requires ',' !in last && ',' !in first
    ensures NormalizeName(last + "," + first) == NormalizeName(first + " " + last)
  {
    TokensOfCommaName(last, first);
    TokensOfPlainName(first + " " + last);
    WordsOfParts(first, last);
    SameNormalIff(last + "," + first, first + " " + last);
  }

  lemma {:induction false} JoinedLetters(words: seq<string>)
    requires forall w :: w in words ==> IsLetters(w)
    ensures Only(Join(words, ' '), IsKept)
  {
    if |words| == 1 {
      assert IsLetters(words[0]);
    } else if words != [] {
      assert IsLetters(words[0]);
      JoinedLetters(words[1..]);
    }
  }

  /** Normalizing twice is normalizing once. */
  lemma NormalizeIsIdempotent(name: string)
    ensures NormalizeName(NormalizeName(name)) == NormalizeName(name)
  {
    var tokens := NameTokens(name);
    var n := Join(SortBy(tokens, StrLeq), ' ');
    NormalizeIsJoin(name);
    TokensAreLetters(name);
    SortedTokens(tokens);
    JoinedLetters(SortBy(tokens, StrLeq));
    assert ToLower(n) == n;
    KeepIsKept(n);
    TokensOfPlainName(n);
    SameNormalIff(n, name);
  }

  // ---- Case and letters ----

  lemma {:induction false} TrimLeftLower(s: string)
    ensures TrimLeft(ToLower(s), IsSpace) == ToLower(TrimLeft(s, IsSpace))
  {
    if s != "" && IsSpace(s[0]) {
      assert ToLower(s)[1..] == ToLower(s[1..]);
      TrimLeftLower(s[1..]);
    }
  }

  lemma {:induction false} TrimRightLower(s: string)
    ensures TrimRight(ToLower(s), IsSpace) == ToLower(TrimRight(s, IsSpace))
  {
    if s != "" && IsSpace(s[|s| - 1]) {
      assert ToLower(s)[..|s| - 1] == ToLower(s[..|s| - 1]);
      TrimRightLower(s[..|s| - 1]);
    }
  }

  lemma TrimLower(s: string)
    ensures TrimSpace(ToLower(s)) == ToLower(TrimSpace(s))
  {
    TrimLeftLower(s);
    TrimRightLower(TrimLeft(s, IsSpace));
  }

  /** The case of a name's letters does not matter. */
  lemma CaseDoesNotMatter(a: string, b: string)
    requires SameText(a, b)
    ensures NormalizeName(a) == NormalizeName(b)
  {
    LowerIgnoresCase(a, b);
    TrimLower(a);
    TrimLower(b);
    assert NameTokens(a) == NameTokens(b);
    NormalizeIsJoin(a);
    NormalizeIsJoin(b);
  }

  /** How often a character occurs in some words. */
  function CountIn(words: seq<string>, c: char): nat {
    if words == [] then 0 else multiset(words[0])[c] + CountIn(words[1..], c)
  }

  lemma {:induction false} CountConcat(a: seq<string>, b: seq<string>, c: char)
    ensures CountIn(a + b, c) == CountIn(a, c) + CountIn(b, c)
  {
    if a == [] {
      assert a + b == b;
    } else {
      CountConcat(a[1..], b, c);
      ConcatTail(a, b);
    }
  }

  lemma CountOne(w: string, c: char)
    ensures CountIn([w], c) == multiset(w)[c]
  {
    assert [w][1..] == [];
  }

  lemma {:induction false} CountInOrder(a: seq<string>, b: seq<string>, c: char)
    requires multiset(a) == multiset(b)
    ensures CountIn(a, c) == CountIn(b, c)
  {
    assert |multiset(a)| == |a| && |multiset(b)| == |b|;
    if a != [] {
      assert a[0] in multiset(b);
      var k :| 0 <= k < |b| && b[k] == a[0];
      Around(b, k);
      var rest := b[..k] + b[k + 1..];
      assert multiset(b) == multiset(b[..k]) + multiset([b[k]]) + multiset(b[k + 1..]);
      assert multiset(rest) == multiset(b[..k]) + multiset(b[k + 1..]);
      HeadTail(a);
      assert multiset(a[1..]) == multiset(a) - multiset{a[0]} && multiset(rest) == multiset(b) - multiset{b[k]};
      CountInOrder(a[1..], rest, c);
      CountConcat(b[..k], [b[k]], c);
      CountConcat(b[..k] + [b[k]], b[k + 1..], c);
      CountConcat(b[..k], b[k + 1..], c);
      CountOne(b[k], c);
    }
  }

  /** Splitting loses only what it splits at. */
  lemma {:induction false} CountSplit(s: string, p: char -> bool, c: char)
    requires !p(c)
    ensures CountIn(Split(s, p), c) == multiset(s)[c]
  {
    if s == "" {
      CountOne("", c);
    } else {
      var parts := Split(s[1..], p);
      CountSplit(s[1..], p, c);
      HeadTail(s);
      assert multiset(s) == multiset([s[0]]) + multiset(s[1..]);
      if p(s[0]) {
        assert ([[]] + parts)[1..] == parts;
      } else {
        assert multiset([s[0]] + parts[0]) == multiset([s[0]]) + multiset(parts[0]);
      }
    }
  }

  lemma {:induction false} CountNonEmpty(parts: seq<string>, c: char)
    ensures CountIn(NonEmpty(parts), c) == CountIn(parts, c)
  {
    if parts != [] {
      CountNonEmpty(parts[1..], c);
      CountConcat(IfNonEmpty(parts[0]), NonEmpty(parts[1..]), c);
      CountOne(parts[0], c);
    }
  }

  lemma {:induction false} CountJoin(words: seq<string>, c: char)
    requires c != ' '
    ensures multiset(Join(words, ' '))[c] == CountIn(words, c)
  {
    if |words| == 1 {
      CountOne(words[0], c);
      assert words == [words[0]];
    } else if words != [] {
      CountJoin(words[1..], c);
      assert multiset(words[0] + [' '] + Join(words[1..], ' '))
          == multiset(words[0]) + multiset([' ']) + multiset(Join(words[1..], ' '));
    }
  }

  lemma {:induction false} CountKept(s: string, c: char)
    requires 'a' <= c <= 'z'
    ensures multiset(KeepLetters(s))[c] == multiset(s)[c]
  {
    if s != "" {
      CountKept(s[1..], c);
      HeadTail(s);
      assert multiset(s) == multiset([s[0]]) + multiset(s[1..]);
      var kept := if IsKept(s[0]) then [s[0]] else [];
      assert multiset(kept + KeepLetters(s[1..])) == multiset(kept) + multiset(KeepLetters(s[1..]));
    }
  }

  /** Both cases of one letter. */
  function Letters(s: string, i: nat): nat
    requires i < 26
  {
    Alphabets(i);
    multiset(s)[UPPER[i]] + multiset(s)[LOWER[i]]
  }

  lemma LettersConcat(a: string, b: string, i: nat)
    requires i < 26
    ensures Letters(a + b, i) == Letters(a, i) + Letters(b, i)
  {
    assert multiset(a + b) == multiset(a) + multiset(b);
  }

  lemma LoweredIs(c: char, i: nat)
    requires i < 26
    ensures |UPPER| == |LOWER| == 26
    ensures LowerChar(c) == LOWER[i] <==> c == UPPER[i] || c == LOWER[i]
    ensures UPPER[i] != LOWER[i]
  {
    Alphabets(i);
  }

  lemma LowerHead(s: string)
    requires s != ""
    ensures multiset(ToLower(s)) == multiset([LowerChar(s[0])]) + multiset(ToLower(s[1..]))
  {
    hide LowerChar;
    assert ToLower(s) == [LowerChar(s[0])] + ToLower(s[1..]);
  }

  lemma {:induction false} CountLower(s: string, i: nat)
    requires i < 26
    ensures |LOWER| == 26 && multiset(ToLower(s))[LOWER[i]] == Letters(s, i)
  {
    LoweredIs('a', i);
    if s != "" {
      CountLower(s[1..], i);
      LettersConcat([s[0]], s[1..], i);
      HeadTail(s);
      LowerHead(s);
      LoweredIs(s[0], i);
    }
  }

  lemma CountWords(s: string, i: nat)
    requires i < 26
    ensures |LOWER| == 26 && CountIn(Words(s), LOWER[i]) == Letters(s, i)
  {
    Alphabets(i);
    var c, low := LOWER[i], ToLower(s);
    CountLower(s, i);
    CountKept(low, c);
    CountSplit(KeepLetters(low), IsSpace, c);
    CountNonEmpty(Split(KeepLetters(low), IsSpace), c);
  }

  /** No letter is lost or added: each letter of the alphabet occurs in the normal form as often as, in either case,
      in the name. */
  lemma LettersAreKept(name: string, i: nat)
    requires i < 26
    ensures |UPPER| == |LOWER| == 26
    ensures multiset(NormalizeName(name))[LOWER[i]] == multiset(name)[UPPER[i]] + multiset(name)[LOWER[i]]
  {
    Alphabets(i);
    var c, tokens := LOWER[i], NameTokens(name);
    NormalizeIsJoin(name);
    StrLeqIsTotalPreorder();
    SortByIsStableSort(tokens, StrLeq);
    CountJoin(SortBy(tokens, StrLeq), c);
    CountInOrder(SortBy(tokens, StrLeq), tokens, c);
    CountTokens(name, i);
  }

  lemma CountTokens(name: string, i: nat)
    requires i < 26
    ensures |LOWER| == 26 && CountIn(NameTokens(name), LOWER[i]) == Letters(name, i)
  {
    hide NameTokens, Words;
    Alphabets(i);
    if ',' in name {
      var last, first := FindComma(name);
      TokensOfCommaName(last, first);
      CountConcat(Words(first), Words(last), LOWER[i]);
      CountWords(first, i);
      CountWords(last, i);
      LettersConcat(last + ",", first, i);
      LettersConcat(last, ",", i);
    } else {
      TokensOfPlainName(name);
      CountWords(name, i);
    }
  }

  /** The normal form is made of words of small letters, in lexicographic order, with one space between two. */
  lemma NormalForm(name: string) returns (words: seq<string>)
    ensures NormalizeName(name) == Join(words, ' ') && Sorted(words, StrLeq)
    ensures forall w :: w in words ==> w != "" && forall k :: 0 <= k < |w| ==> w[k] in LOWER
  {
    NormalizeIsJoin(name);
    TokensAreLetters(name);
    SortedTokens(NameTokens(name));
    StrLeqIsTotalPreorder();
    SortByIsStableSort(NameTokens(name), StrLeq);
    words := SortBy(NameTokens(name), StrLeq);
    forall w, k | w in words && 0 <= k < |w| ensures w[k] in LOWER {
      assert IsLetters(w);
      Alphabets(w[k] as int - 'a' as int);
    }
  }

  /** Words end at spaces and nowhere else: a piece without a space is one word, its other characters dropped, tabs and
      line ends included. */
  lemma WordOfPiece(s: string)
    requires ' ' !in s
    ensures Words(s) == IfNonEmpty(KeepLetters(ToLower(s)))
  {
    forall k | 0 <= k < |s| ensures ToLower(s)[k] != ' ' { assert s[k] in s; }
    NoSpaceKept(ToLower(s));
    FieldsOfWord(KeepLetters(ToLower(s)));
  }

  lemma {:induction false} NoSpaceKept(s: string)
    requires ' ' !in s
    ensures Without(KeepLetters(s), IsSpace)
  {
    if s != "" {
      assert s[0] in s;
      NoSpaceKept(s[1..]);
    }
  }

  /** What stands between letters goes. */
  lemma KeepAround(a: string, c: char, b: string)
    requires !IsKept(c) && Only(a, IsKept) && Only(b, IsKept)
    ensures KeepLetters(a + [c] + b) == a + b
  {
    KeepConcat(a + [c], b);
    KeepConcat(a, [c]);
    KeepIsKept(a);
    KeepIsKept(b);
    assert KeepLetters([c]) == [];
  }

  lemma LowerAround(a: string, c: char, b: string)
    requires LowerChar(c) == c
    ensures ToLower(a + [c] + b) == ToLower(a) + [c] + ToLower(b)
  {}

  /** Two runs of letters around another character are one word. */
  lemma WordAround(a: string, c: char, b: string, low: string)
    requires a != "" && ' ' !in a && ' ' !in b && c != ' ' && LowerChar(c) == c && !IsKept(c)
    requires Only(ToLower(a), IsKept) && Only(ToLower(b), IsKept) && low == ToLower(a) + ToLower(b)
    ensures Words(a + [c] + b) == [low]
  {
    LowerAround(a, c, b);
    KeepAround(ToLower(a), c, ToLower(b));
    WordOfPiece(a + [c] + b);
  }

  lemma WordOfLast()
    ensures Words("O" + ['\''] + "Brien") == ["o" + "brien"]
  {
    hide Words;
    assert ToLower("O") == "o" && ToLower("Brien") == "brien";
    WordAround("O", '\'', "Brien", "o" + "brien");
  }

  lemma WordOfFirst()
    ensures Words("Mary" + ['-'] + "Jane") == ["mary" + "jane"]
  {
    hide Words;
    assert ToLower("Mary") == "mary" && ToLower("Jane") == "jane";
    WordAround("Mary", '-', "Jane", "mary" + "jane");
  }

  lemma SortedPair(a: string, b: string)
    requires a != "" && b != "" && a[0] < b[0]
    ensures SortBy([b, a], StrLeq) == SortBy([a, b], StrLeq) == [a, b]
  {
    assert [b, a][1..] == [a] && [a, b][1..] == [b] && [a][1..] == [] && [b][1..] == [];
    assert SortBy([a], StrLeq) == [a] && SortBy([b], StrLeq) == [b];
    assert Insert(b, [], StrLeq) == [b];
  }

  /** A name with a comma, capitals and other characters, and the same name the other way round. */
  lemma OBrien()
    ensures NormalizeName("O'Brien" + "," + (" " + "Mary-Jane")) == "maryjane" + [' '] + "obrien"
    ensures NormalizeName(" " + "Mary-Jane" + " " + "O'Brien") == "maryjane" + [' '] + "obrien"
  {
    hide NameTokens, Words, ToLower;
    var last, first, a, b := "O'Brien", "Mary-Jane", "maryjane", "obrien";
    assert last == "O" + ['\''] + "Brien" && b == "o" + "brien" && ',' !in last;
    assert first == "Mary" + ['-'] + "Jane" && a == "mary" + "jane" && ',' !in " " + first;
    WordOfLast();
    WordOfFirst();
    SortedName(last, first, a, b);
  }

  lemma SortedName(last: string, first: string, a: string, b: string)
    requires ',' !in last && ',' !in " " + first && Words(first) == [a] && Words(last) == [b]
    requires a != "" && b != "" && a[0] < b[0]
    ensures NormalizeName(last + "," + (" " + first)) == a + [' '] + b
    ensures NormalizeName(" " + first + " " + last) == a + [' '] + b
  {
    hide NameTokens, Words;
    WordsDropFront(" ", first);
    TokensOfCommaName(last, " " + first);
    NormalizeIsJoin(last + "," + (" " + first));
    SortedPair(a, b);
    assert [a] + [b] == [a, b] && [a, b][1..] == [b];
    CommaOrderDoesNotMatter(last, " " + first);
  }
}
