/** internal/uikit/tokenize.go: splitting a search query into words and quoted phrases. */
module Tokenize {
  import opened Text

  const QUOTE: char := '"'

  predicate IsQuerySpace(c: char) { c == ' ' || c == '\t' || c == '\n' || c == '\r' }

  predicate EndsWord(c: char) { IsQuerySpace(c) || c == QUOTE }

  function WordLen(s: string): (n: nat)
    ensures n <= |s| && (n < |s| ==> EndsWord(s[n]))
    ensures forall i :: 0 <= i < n ==> !EndsWord(s[i])
  {
    if s == [] || EndsWord(s[0]) then 0 else 1 + WordLen(s[1..])
  }

  /** What a quoted phrase adds. */
  function Phrase(phrase: string): seq<string> {
    if TrimSpace(phrase) != "" then [phrase] else []
  }

  /** The tokens of a query, read from its front. */
  function Tokens(s: string): seq<string> {
    if s == [] then []
    else if IsQuerySpace(s[0]) then Tokens(s[1..])
    else if s[0] == QUOTE then
      match IndexChar(s, QUOTE, 1)
      case None => Tokens(s[1..])
      case Some(e) => Phrase(s[1..e]) + Tokens(s[e + 1..])
    else [s[..WordLen(s)]] + Tokens(s[WordLen(s)..])
  }

  lemma {:induction false} IndexShift(s: string, c: char, from: nat)
    requires 1 <= from <= |s|
    ensures var r := IndexChar(s[1..], c, from - 1);
            IndexChar(s, c, from) == if r.Some? then Some(r.value + 1) else None
    decreases |s| - from
  {
    if from < |s| {
      IndexShift(s, c, from + 1);
    }
  }

  /** Reading a phrase: the position after its closing quote, and what it adds. */
  lemma PhraseStep(query: string, i: nat, end: nat)
    requires i < |query| && query[i] == QUOTE && IndexChar(query[i + 1..], QUOTE, 0) == Some(end)
    ensures i + end + 2 <= |query|
    ensures var phrase := query[i + 1..i + 1 + end];
            Tokens(query[i..]) == Phrase(phrase) + Tokens(query[i + end + 2..])
  {
    var rest := query[i..];
    assert rest[1..] == query[i + 1..];
    IndexShift(rest, QUOTE, 1);
    assert rest[1..end + 1] == query[i + 1..i + 1 + end] && rest[end + 2..] == query[i + end + 2..];
  }

  lemma OpenQuoteStep(query: string, i: nat)
    requires i < |query| && query[i] == QUOTE && IndexChar(query[i + 1..], QUOTE, 0) == None
    ensures Tokens(query[i..]) == Tokens(query[i + 1..])
  {
    var rest := query[i..];
    assert rest[1..] == query[i + 1..];
    IndexShift(rest, QUOTE, 1);
  }

  /** The inner loop over the characters of a word. */
  method ScanWord(query: string, start: nat) returns (i: nat)
    requires start < |query| && !EndsWord(query[start])
    ensures start < i <= |query|
    ensures Tokens(query[start..]) == [query[start..i]] + Tokens(query[i..])
  {
    i := start;
    ghost var rest := query[start..];
    while i < |query| && !EndsWord(query[i])
      invariant start <= i <= |query|
      invariant WordLen(rest) == i - start + WordLen(query[i..])
    {
      assert query[i..][1..] == query[i + 1..];
      i := i + 1;
    }
    assert rest[..i - start] == query[start..i] && rest[i - start..] == query[i..];
  }

  /** The inner loop over white space. */
  method SkipSpaces(query: string, start: nat) returns (i: nat)
    requires start <= |query|
    ensures start <= i <= |query| && Tokens(query[i..]) == Tokens(query[start..])
    ensures i < |query| ==> !IsQuerySpace(query[i])
  {
    i := start;
    while i < |query| && IsQuerySpace(query[i])
      invariant start <= i <= |query|
      invariant Tokens(query[i..]) == Tokens(query[start..])
    {
      assert query[i..][1..] == query[i + 1..];
      i := i + 1;
    }
  }

  /** The branch at a quote: a phrase, or an opening quote that is dropped. */
  method ReadPhrase(query: string, i: nat, before: seq<string>) returns (out: seq<string>, next: nat)
    requires i < |query| && query[i] == QUOTE
    ensures i < next <= |query|
    ensures out + Tokens(query[next..]) == before + Tokens(query[i..])
  {
    hide Tokens;
    out := before;
    var end := IndexChar(query[i + 1..], QUOTE, 0);
    if end == None {
      OpenQuoteStep(query, i);
      return out, i + 1;
    }
    PhraseStep(query, i, end.value);
    var phrase := query[i + 1..i + 1 + end.value];
    if TrimSpace(phrase) != "" {
      out := out + [phrase];
    }
    next := i + 1 + end.value + 1;
    assert out == before + Phrase(phrase);
    ghost var rest := Tokens(query[next..]);
    assert Tokens(query[i..]) == Phrase(phrase) + rest;
    ConcatAssoc(before, Phrase(phrase), rest);
  }

  method TokenizeQuery(query: string) returns (out: seq<string>)
    ensures out == Tokens(query)
  {
    out := [];
    var i, n := 0, |query|;
    assert query[0..] == query;
    while i < n
      invariant 0 <= i <= n
      invariant out + Tokens(query[i..]) == Tokens(query)
    {
      i := SkipSpaces(query, i);
      if i >= n {
        break;
      }
      if query[i] == QUOTE {
        out, i := ReadPhrase(query, i, out);
        continue;
      }
      var start := i;
      i := ScanWord(query, start);
      ConcatAssoc(out, [query[start..i]], Tokens(query[i..]));
      if i > start {
        out := out + [query[start..i]];
      }
    }
    assert query[n..] == [];
  }

  // ---- What a token can be ----

  predicate IsToken(t: string) { t != "" && QUOTE !in t }

  lemma {:induction false} TokensAreTokens(s: string)
    ensures forall t :: t in Tokens(s) ==> IsToken(t)
    decreases |s|
  {
    if s == [] {
    } else if IsQuerySpace(s[0]) {
      TokensAreTokens(s[1..]);
    } else if s[0] == QUOTE {
      var e := IndexChar(s, QUOTE, 1);
      if e == None {
        TokensAreTokens(s[1..]);
      } else {
        TokensAreTokens(s[e.value + 1..]);
        TrimOfBlank(s[1..e.value], IsSpace);
        assert forall i :: 0 <= i < |s[1..e.value]| ==> s[1..e.value][i] == s[i + 1];
      }
    } else {
      TokensAreTokens(s[WordLen(s)..]);
    }
  }

  // ---- Quoting ----

  function Quoted(t: string): string { [QUOTE] + t + [QUOTE] }

  function QuoteAll(ts: seq<string>): string {
    if ts == [] then "" else if |ts| == 1 then Quoted(ts[0]) else Quoted(ts[0]) + " " + QuoteAll(ts[1..])
  }

  function IfNotBlank(t: string): seq<string> { if Only(t, IsSpace) then [] else [t] }

  function NonBlank(ts: seq<string>): seq<string> {
    if ts == [] then [] else IfNotBlank(ts[0]) + NonBlank(ts[1..])
  }

  lemma {:induction false} IndexOfNext(t: string, c: char, rest: string, from: nat)
    requires c !in t && from <= |t|
    ensures IndexChar(t + [c] + rest, c, from) == Some(|t|)
    decreases |t| - from
  {
    if from < |t| {
      assert (t + [c] + rest)[from] == t[from];
      IndexOfNext(t, c, rest, from + 1);
    }
  }

  lemma QuotedPhrase(t: string, rest: string)
    requires QUOTE !in t
    ensures Tokens(Quoted(t) + rest) == IfNotBlank(t) + Tokens(rest)
  {
    var s := Quoted(t) + rest;
    assert s[1..] == t + [QUOTE] + rest;
    IndexOfNext(t, QUOTE, rest, 0);
    IndexShift(s, QUOTE, 1);
    assert s[1..|t| + 1] == t && s[|t| + 2..] == rest;
    TrimOfBlank(t, IsSpace);
  }

  lemma QuoteAllStep(ts: seq<string>)
    requires ts != []
    ensures QuoteAll(ts) == Quoted(ts[0]) + (if |ts| == 1 then "" else " " + QuoteAll(ts[1..]))
  {}

  lemma {:induction false} QuotedPhrases(ts: seq<string>)
    requires forall t :: t in ts ==> QUOTE !in t
    ensures Tokens(QuoteAll(ts)) == NonBlank(ts)
  {
    if ts != [] {
      QuoteAllStep(ts);
      if |ts| == 1 {
        QuotedPhrase(ts[0], "");
        assert ts[1..] == [];
      } else {
        var rest := QuoteAll(ts[1..]);
        QuotedPhrases(ts[1..]);
        QuotedPhrase(ts[0], " " + rest);
        assert (" " + rest)[1..] == rest;
      }
    }
  }

  lemma NonBlankAll(ts: seq<string>)
    ensures |NonBlank(ts)| <= |ts|
    ensures NonBlank(ts) == ts <==> forall t :: t in ts ==> !Only(t, IsSpace)
  {
    if ts != [] {
      NonBlankAll(ts[1..]);
      assert ts == [ts[0]] + ts[1..];
    }
  }

  /** Quoting each phrase and joining with spaces is undone by the tokenizer, for exactly the lists of
      non-blank phrases without quotes. */
  lemma QuotingRoundTrips(ts: seq<string>)
    ensures Tokens(QuoteAll(ts)) == ts <==> forall t :: t in ts ==> QUOTE !in t && !Only(t, IsSpace)
  {
    TokensAreTokens(QuoteAll(ts));
    NonBlankAll(ts);
    if forall t :: t in ts ==> QUOTE !in t {
      QuotedPhrases(ts);
    }
  }

  // ---- Nothing else is lost ----

  function KeptChar(c: char): string { if IsSpace(c) || c == QUOTE then [] else [c] }

  /** The characters that are neither white space nor quotes. */
  function Kept(s: string): string {
    if s == [] then [] else KeptChar(s[0]) + Kept(s[1..])
  }

  function Flat(ts: seq<string>): string {
    if ts == [] then "" else ts[0] + Flat(ts[1..])
  }

  lemma {:induction false} KeptConcat(a: string, b: string)
    ensures Kept(a + b) == Kept(a) + Kept(b)
  {
    if a == [] {
      assert a + b == b;
    } else {
      KeptConcat(a[1..], b);
      ConcatTail(a, b);
      ConcatAssoc(KeptChar(a[0]), Kept(a[1..]), Kept(b));
    }
  }

  lemma {:induction false} KeptBlank(s: string)
    requires Only(s, IsSpace)
    ensures Kept(s) == ""
  {
    if s != [] { KeptBlank(s[1..]); }
  }

  lemma KeptQuoted(phrase: string, rest: string)
    ensures Kept(Quoted(phrase) + rest) == Kept(phrase) + Kept(rest)
  {
    assert Kept([QUOTE]) == "";
    KeptConcat([QUOTE] + phrase, [QUOTE]);
    KeptConcat([QUOTE], phrase);
    KeptConcat(Quoted(phrase), rest);
  }

  lemma KeptPhrase(phrase: string)
    ensures Kept(phrase) == if Phrase(phrase) == [] then "" else Kept(Phrase(phrase)[0])
  {
    TrimOfBlank(phrase, IsSpace);
    if Only(phrase, IsSpace) { KeptBlank(phrase); }
  }

  /** Put together, the tokens hold every character of the query that is neither white space nor a quote, in order. */
  lemma {:induction false} TokensKeepText(s: string)
    ensures Kept(Flat(Tokens(s))) == Kept(s)
    decreases |s|
  {
    if s == [] {
    } else if IsQuerySpace(s[0]) {
      TokensKeepText(s[1..]);
    } else if s[0] == QUOTE {
      var e := IndexChar(s, QUOTE, 1);
      if e == None {
        TokensKeepText(s[1..]);
      } else {
        TokensKeepText(s[e.value + 1..]);
        PhraseIsKept(s[1..e.value], s[e.value + 1..]);
        PhraseAtFront(s, e.value);
      }
    } else {
      TokensKeepText(s[WordLen(s)..]);
      WordIsKept(s[..WordLen(s)], s[WordLen(s)..]);
      assert s == s[..WordLen(s)] + s[WordLen(s)..];
    }
  }

  lemma PhraseIsKept(phrase: string, rest: string)
    requires Kept(Flat(Tokens(rest))) == Kept(rest)
    ensures Kept(Flat(Phrase(phrase) + Tokens(rest))) == Kept(Quoted(phrase) + rest)
  {
    FlatKept(Phrase(phrase), Tokens(rest));
    KeptQuoted(phrase, rest);
    KeptPhrase(phrase);
  }

  lemma PhraseAtFront(s: string, e: nat)
    requires 1 <= e < |s| && s[0] == QUOTE == s[e]
    ensures s == Quoted(s[1..e]) + s[e + 1..]
  {}

  lemma WordIsKept(word: string, rest: string)
    requires Kept(Flat(Tokens(rest))) == Kept(rest)
    ensures Kept(Flat([word] + Tokens(rest))) == Kept(word + rest)
  {
    FlatKept([word], Tokens(rest));
    KeptConcat(word, rest);
  }

  lemma FlatKept(head: seq<string>, tail: seq<string>)
    requires |head| <= 1
    ensures Kept(Flat(head + tail)) == (if head == [] then "" else Kept(head[0])) + Kept(Flat(tail))
  {
    if head == [] {
      assert head + tail == tail;
    } else {
      assert (head + tail)[1..] == tail;
      KeptConcat(head[0], Flat(tail));
    }
  }

  // ---- Unbalanced quotes ----

  function Quotes(s: string): nat {
    if s == [] then 0 else (if s[0] == QUOTE then 1 else 0) + Quotes(s[1..])
  }

  lemma {:induction false} QuotesConcat(a: string, b: string)
    ensures Quotes(a + b) == Quotes(a) + Quotes(b)
  {
    if a == [] {
      assert a + b == b;
    } else {
      QuotesConcat(a[1..], b);
      assert (a + b)[1..] == a[1..] + b;
    }
  }

  lemma NoQuotes(s: string)
    ensures Quotes(s) == 0 <==> QUOTE !in s
  {}

  lemma QuotesOfPhrase(phrase: string, rest: string)
    requires QUOTE !in phrase
    ensures Quotes(Quoted(phrase) + rest) == 2 + Quotes(rest)
  {
    assert Quotes([QUOTE]) == 1 by { assert [QUOTE][1..] == []; }
    QuotesConcat(Quoted(phrase), rest);
    QuotesConcat([QUOTE] + phrase, [QUOTE]);
    QuotesConcat([QUOTE], phrase);
    NoQuotes(phrase);
  }

  lemma {:induction false} WordLenOfPart(a: string, c: char, b: string)
    requires EndsWord(c)
    ensures WordLen(a + [c] + b) == WordLen(a)
  {
    if a != [] && !EndsWord(a[0]) {
      WordLenOfPart(a[1..], c, b);
      assert (a + [c] + b)[1..] == a[1..] + [c] + b;
    }
  }

  lemma WordOfParts(a: string, c: char, b: string)
    requires EndsWord(c) && a != [] && !EndsWord(a[0])
    ensures Tokens(a + [c] + b) == [a[..WordLen(a)]] + Tokens(a[WordLen(a)..] + [c] + b)
    ensures Quotes(a[WordLen(a)..]) == Quotes(a)
  {
    var n, s := WordLen(a), a + [c] + b;
    WordLenOfPart(a, c, b);
    assert a == a[..n] + a[n..];
    QuotesConcat(a[..n], a[n..]);
    NoQuotes(a[..n]);
    assert s[..n] == a[..n] && s[n..] == a[n..] + [c] + b;
  }

  lemma PhraseBeforeParts(phrase: string, tail: string, c: char, b: string)
    requires QUOTE !in phrase && Tokens(tail + [c] + b) == Tokens(tail) + Tokens(b)
    ensures Tokens(Quoted(phrase) + tail + [c] + b) == Tokens(Quoted(phrase) + tail) + Tokens(b)
  {
    QuotedPhrase(phrase, tail + [c] + b);
    QuotedPhrase(phrase, tail);
    ConcatAssoc(Quoted(phrase), tail, [c]);
    ConcatAssoc(Quoted(phrase), tail + [c], b);
    ConcatAssoc(IfNotBlank(phrase), Tokens(tail), Tokens(b));
  }

  /** After balanced quotes, white space separates; so does a quote that is never closed. */
  lemma {:induction false} TokensOfParts(a: string, c: char, b: string)
    requires Quotes(a) % 2 == 0
    requires IsQuerySpace(c) || (c == QUOTE && QUOTE !in b)
    ensures Tokens(a + [c] + b) == Tokens(a) + Tokens(b)
    decreases |a|
  {
    var s := a + [c] + b;
    if a == [] {
      assert s[1..] == b;
    } else if IsQuerySpace(a[0]) {
      assert s[1..] == a[1..] + [c] + b;
      TokensOfParts(a[1..], c, b);
    } else if a[0] == QUOTE {
      NoQuotes(a[1..]);
      var e := IndexChar(a, QUOTE, 1).value;
      var phrase, tail := a[1..e], a[e + 1..];
      PhraseAtFront(a, e);
      QuotesOfPhrase(phrase, tail);
      TokensOfParts(tail, c, b);
      PhraseBeforeParts(phrase, tail, c, b);
    } else {
      var n := WordLen(a);
      WordOfParts(a, c, b);
      TokensOfParts(a[n..], c, b);
      ConcatAssoc([a[..n]], Tokens(a[n..]), Tokens(b));
    }
  }

  /** With an odd number of quotes the last one, and no other, is dropped: it reads as a space. */
  lemma OpenQuoteReadsAsSpace(a: string, b: string)
    requires Quotes(a) % 2 == 0 && QUOTE !in b
    ensures Tokens(a + [QUOTE] + b) == Tokens(a + " " + b)
  {
    TokensOfParts(a, QUOTE, b);
    TokensOfParts(a, ' ', b);
  }

  /** A query without quotes is split at white space. */
  lemma {:induction false} UnquotedQuery(s: string)
    requires QUOTE !in s
    ensures Tokens(s) == NonEmpty(Split(s, IsQuerySpace))
    decreases |s|
  {
    if s == [] {
    } else if IsQuerySpace(s[0]) {
      UnquotedQuery(s[1..]);
      assert ([[]] + Split(s[1..], IsQuerySpace))[1..] == Split(s[1..], IsQuerySpace);
    } else {
      var n := WordLen(s);
      UnquotedQuery(s[n..]);
      FirstWord(s, n);
    }
  }

  lemma FirstWord(s: string, n: nat)
    requires QUOTE !in s && 0 < n == WordLen(s)
    ensures NonEmpty(Split(s, IsQuerySpace)) == [s[..n]] + NonEmpty(Split(s[n..], IsQuerySpace))
  {
    var word := s[..n];
    SplitWhole(word, IsQuerySpace);
    NonEmptyOne(word);
    if n < |s| {
      Around(s, n);
      WordBeforeSpace(word, s[n], s[n + 1..]);
    } else {
      assert word == s && s[n..] == [];
    }
  }

  lemma WordBeforeSpace(word: string, c: char, rest: string)
    requires IsQuerySpace(c) && Split(word, IsQuerySpace) == [word] && NonEmpty([word]) == [word]
    ensures NonEmpty(Split(word + [c] + rest, IsQuerySpace)) == [word] + NonEmpty(Split([c] + rest, IsQuerySpace))
  {
    hide Split, NonEmpty;
    SplitConcat(word, c, rest, IsQuerySpace);
    NonEmptyConcat([word], Split(rest, IsQuerySpace));
    SplitWhole([], IsQuerySpace);
    SplitConcat([], c, rest, IsQuerySpace);
    assert [] + [c] + rest == [c] + rest;
    NonEmptyOne([]);
    NonEmptyConcat([[]], Split(rest, IsQuerySpace));
  }

  // ---- A query, piece by piece ----

  /** The characters that end a word outside quotes, besides the quote itself. */
  const SPACES := " \t\n\r"

  lemma SpacesAre(c: char)
    ensures IsQuerySpace(c) <==> c in SPACES
  {
    assert SPACES[0] == ' ' && SPACES[1] == '\t' && SPACES[2] == '\n' && SPACES[3] == '\r';
  }

  lemma PlainWord(w: string)
    requires w != "" && '"' !in w && forall c :: c in SPACES ==> c !in w
    ensures Tokens(w) == [w]
  {
    forall i | 0 <= i < |w| ensures !EndsWord(w[i]) {
      assert w[i] in w;
      SpacesAre(w[i]);
    }
    WholeWord(w);
    assert w[..|w|] == w && w[|w|..] == "";
  }

  lemma {:induction false} WholeWord(w: string)
    requires forall i :: 0 <= i < |w| ==> !EndsWord(w[i])
    ensures WordLen(w) == |w|
  {
    if w != "" { WholeWord(w[1..]); }
  }

  /** A word, a phrase and a word, whatever white space is between them and in the phrase. */
  lemma WordPhraseWord(u: string, c: char, phrase: string, d: char, v: string)
    requires u != "" && '"' !in u && forall x :: x in SPACES ==> x !in u
    requires v != "" && '"' !in v && forall x :: x in SPACES ==> x !in v
    requires c in SPACES && d in SPACES && '"' !in phrase && exists i :: 0 <= i < |phrase| && !IsSpace(phrase[i])
    ensures Tokens(u + [c] + ("\"" + phrase + "\"" + [d] + v)) == [u, phrase, v]
  {
    hide Tokens;
    SpacesAre(c);
    SpacesAre(d);
    NoQuotes(u);
    PlainWord(u);
    PlainWord(v);
    var rest := "\"" + phrase + "\"" + [d] + v;
    TokensOfParts(u, c, rest);
    QuotedPhrase(phrase, [d] + v);
    assert rest == Quoted(phrase) + ([d] + v);
    TokensOfParts("", d, v);
    NoTokens();
    assert "" + [d] + v == [d] + v;
    assert [u] + ([phrase] + ([] + [v])) == [u, phrase, v];
  }

  lemma NoTokens()
    ensures Tokens("") == [] && Quotes("") == 0
  {}
}
