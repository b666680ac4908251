/** internal/uikit/render_md.go: highlighting the words and phrases of a query. */
module QueryHighlight {
  import opened Ansi
  import opened Highlight
  import opened Spans
  import opened Text
  import Tokenize

  function HighlightedQuery(styled: string, query: string, keepsEscape: bool): string {
    Highlighted(styled, Tokenize.Tokens(query), keepsEscape)
  }

  method HighlightMatches(styled: string, query: string, keepsEscape: bool) returns (out: string)
    ensures out == HighlightedQuery(styled, query, keepsEscape)
  {
    var tokens := Tokenize.TokenizeQuery(query);
    out := HighlightMatchesTokens(styled, tokens, keepsEscape);
  }

  /** Some word occurs as one run of characters around position k. */
  ghost predicate IsPartOfAny(plain: string, words: seq<string>, k: int) {
    exists word, p: nat :: word in words && FoundAt(plain, word, p) && p <= k < p + |word|
  }

  /** Every occurrence of a word begins reversed and, when exact, nothing is reversed but parts of occurrences. */
  ghost predicate Marks(cells: seq<Cell>, plain: string, words: seq<string>, exact: bool) {
    && (forall word, p: nat :: word in words && word != "" && FoundAt(plain, word, p) ==>
          p < |cells| && cells[p].reversed)
    && (exact ==> forall k :: 0 <= k < |cells| && cells[k].reversed ==> IsPartOfAny(plain, words, k))
  }

  lemma CoveredIsPart(plain: string, words: seq<string>, k: int)
    requires Covered(plain, words, k)
    ensures IsPartOfAny(plain, words, k)
  {
    var word, hits :| word in words && word != "" && AreHits(plain, word, 0, hits) && InSpan(hits, k);
    HitIsFound(plain, word, 0, hits, k);
  }

  lemma {:induction false} HitIsFound(plain: string, word: string, pos: nat, hits: seq<Span>, k: int)
    requires AreHits(plain, word, pos, hits) && InSpan(hits, k)
    ensures exists p: nat :: FoundAt(plain, word, p) && p <= k < p + |word|
    decreases |hits|
  {
    if !(hits[0].start <= k < hits[0].end) {
      var j :| 0 <= j < |hits| && hits[j].start <= k < hits[j].end;
      assert hits[1..][j - 1] == hits[j];
      HitIsFound(plain, word, hits[0].end, hits[1..], k);
    }
  }

  lemma OccurrenceIsCovered(plain: string, words: seq<string>, word: string, p: nat)
    requires word in words && word != "" && FoundAt(plain, word, p)
    ensures Covered(plain, words, p) && p < |plain|
  {
    FoundLowered(plain, word, p);
    ScanFindsAll(ToLower(plain), ToLower(word), 0, p);
    CoveredByScan(plain, words, p);
  }

  lemma CoverageMarks(cells: seq<Cell>, bytes: string, plain: string, words: seq<string>, exact: bool)
    requires ShowsMatches(cells, bytes, plain, words, exact) && |plain| <= |bytes|
    ensures Marks(cells, plain, words, exact)
  {
    hide Covered, FoundAt, IsPartOfAny;
    forall word, p: nat | word in words && word != "" && FoundAt(plain, word, p)
      ensures p < |cells| && cells[p].reversed
    {
      OccurrenceIsCovered(plain, words, word, p);
    }
    if exact {
      forall k | 0 <= k < |cells| && cells[k].reversed ensures IsPartOfAny(plain, words, k) {
        CoveredIsPart(plain, words, k);
      }
    }
  }

  /** The result shows the text, with marks at the occurrences of the words. */
  ghost predicate ShowsWords(styled: string, out: string, keepsEscape: bool, words: seq<string>, fx: string -> Effect) {
    var cells := Render(Pieces(out), false, fx);
    && |cells| == |Bytes(Pieces(styled))|
    && (forall i :: 0 <= i < |cells| ==> cells[i].c == Bytes(Pieces(styled))[i])
    && Marks(cells, Plain(styled, keepsEscape), words, NeverOn(Pieces(styled), fx))
  }

  lemma QueryShowsTokens(styled: string, query: string, keepsEscape: bool, fx: string -> Effect)
    requires ReadsMarks(fx) && !EscapeIsMatched(styled, Tokenize.Tokens(query), keepsEscape)
    ensures ShowsWords(styled, HighlightedQuery(styled, query, keepsEscape), keepsEscape, Tokenize.Tokens(query), fx)
  {
    hide Highlighted, Covered, Marks, Pieces, Render, EscapeIsMatched;
    var words := Tokenize.Tokens(query);
    HighlightShowsMatches(styled, words, keepsEscape, fx);
    CoverageMarks(Render(Pieces(Highlighted(styled, words, keepsEscape)), false, fx), Bytes(Pieces(styled)),
                  Plain(styled, keepsEscape), words, NeverOn(Pieces(styled), fx));
  }

  /** A query of quoted phrases marks the places where a phrase occurs as one run, white space included. */
  lemma PhrasesAreMarkedWhole(styled: string, phrases: seq<string>, keepsEscape: bool, fx: string -> Effect)
    requires forall t :: t in phrases ==> Tokenize.QUOTE !in t && !Only(t, IsSpace)
    requires ReadsMarks(fx) && !EscapeIsMatched(styled, phrases, keepsEscape)
    ensures ShowsWords(styled, HighlightedQuery(styled, Tokenize.QuoteAll(phrases), keepsEscape), keepsEscape,
                       phrases, fx)
  {
    hide ShowsWords, HighlightedQuery, EscapeIsMatched;
    Tokenize.QuotingRoundTrips(phrases);
    QueryShowsTokens(styled, Tokenize.QuoteAll(phrases), keepsEscape, fx);
  }

  /** A query without quotes marks the places where any of its words occurs. */
  lemma WordsAreMarked(styled: string, query: string, keepsEscape: bool, fx: string -> Effect)
    requires Tokenize.QUOTE !in query
    requires var words := NonEmpty(Split(query, Tokenize.IsQuerySpace));
             ReadsMarks(fx) && !EscapeIsMatched(styled, words, keepsEscape)
    ensures ShowsWords(styled, HighlightedQuery(styled, query, keepsEscape), keepsEscape,
                       NonEmpty(Split(query, Tokenize.IsQuerySpace)), fx)
  {
    hide ShowsWords, HighlightedQuery, EscapeIsMatched;
    Tokenize.UnquotedQuery(query);
    QueryShowsTokens(styled, query, keepsEscape, fx);
  }

  lemma HelloIsHello()
    ensures SameText("Hello", "hello")
  {
    assert UPPER[7] == 'H' && LOWER[7] == 'h';
    assert ArePair('H', 'h');
  }

  lemma WordOfQuery(word: string)
    requires word == "hello"
    ensures Tokenize.Tokens(word) == [word]
  {
    hide Tokenize.Tokens;
    Tokenize.UnquotedQuery(word);
    SplitWhole(word, Tokenize.IsQuerySpace);
    NonEmptyOne(word);
  }

  lemma PhraseOfQuery(phrase: string)
    requires phrase == "hello"
    ensures Tokenize.Tokens("\"" + phrase + "\"") == [phrase]
  {
    hide Tokenize.Tokens;
    assert phrase[0] == 'h' && Tokenize.QuoteAll([phrase]) == "\"" + phrase + "\"";
    Tokenize.QuotingRoundTrips([phrase]);
  }

  lemma OnlyH(c: char)
    requires SameLetter(c, 'h')
    ensures c == 'h' || c == 'H'
  {
    PairsByCode(c, 'h');
    PairsByCode('h', c);
  }

  lemma OneOccurrence(before: string, part: string, after: string)
    requires part == "Hello" && ((before == "" && after == "") || (before == "say " && after == " now"))
    ensures forall q: nat :: FoundAt(before + part + after, "hello", q) ==> q == |before|
  {
    var text := before + part + after;
    forall q: nat | FoundAt(text, "hello", q) ensures q == |before| {
      var found := text[q..q + 5];
      assert SameLetter(found[0], "hello"[0]);
      assert found[0] == text[q];
      OnlyH(text[q]);
    }
  }

  /** A query of one word, in another case than the text. */
  lemma HelloIsMarked(keepsEscape: bool)
    ensures HighlightedQuery("Hello", "hello", keepsEscape) == "\U{1B}[7mHello\U{1B}[27m"
  {
    hide Highlighted, SameText, FoundAt;
    HelloIsHello();
    WordOfQuery("hello");
    OneOccurrence("", "Hello", "");
    OnlyMatchIsMarked("", "Hello", "", "hello", keepsEscape);
    assert "" + "Hello" + "" == "Hello";
    assert "" + ("\U{1B}[7m" + ("Hello" + ("\U{1B}[27m" + ""))) == "\U{1B}[7mHello\U{1B}[27m";
  }

  /** A quoted one, in the middle of a text. */
  lemma QuotedHelloIsMarked(keepsEscape: bool)
    ensures HighlightedQuery("say " + "Hello" + " now", "\"" + "hello" + "\"", keepsEscape)
         == "say " + ("\U{1B}[7m" + ("Hello" + ("\U{1B}[27m" + " now")))
  {
    hide Highlighted, SameText, FoundAt;
    HelloIsHello();
    PhraseOfQuery("hello");
    OneOccurrence("say ", "Hello", " now");
    OnlyMatchIsMarked("say ", "Hello", " now", "hello", keepsEscape);
  }
}
