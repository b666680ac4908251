/** internal/uikit/render_md.go: where the query tokens match, as sorted and merged spans. */
module Spans {
  import opened Order
  import opened Text

  datatype Span = Span(start: nat, end: nat)

  predicate SpanLeq(a: Span, b: Span) {
    a.start < b.start || (a.start == b.start && a.end <= b.end)
  }

  /** Position k lies in some span. */
  predicate InSpan(spans: seq<Span>, k: int) {
    exists j :: 0 <= j < |spans| && spans[j].start <= k < spans[j].end
  }

  predicate Within(spans: seq<Span>, n: nat) {
    forall j :: 0 <= j < |spans| ==> spans[j].start < spans[j].end <= n
  }

  // ---- Scanning for one token ----

  /** The matches of a token found left to right, each search starting where the last match ended. */
  function Scan(text: string, token: string, pos: nat): (spans: seq<Span>)
    requires token != [] && pos <= |text|
    ensures Within(spans, |text|)
    decreases |text| - pos
  {
    match IndexFrom(text, token, pos)
    case None => []
    case Some(s) => [Span(s, s + |token|)] + Scan(text, token, s + |token|)
  }

  predicate IsMatch(text: string, token: string, span: Span) {
    span.end == span.start + |token| && OccursAt(text, token, span.start)
  }

  /** Occurrences of token from pos on, in order and without overlap. */
  predicate IsScan(text: string, token: string, pos: nat, spans: seq<Span>) {
    && (forall j :: 0 <= j < |spans| ==> pos <= spans[j].start && IsMatch(text, token, spans[j]))
    && (forall i, j :: 0 <= i < j < |spans| ==> spans[i].end <= spans[j].start)
  }

  lemma ScanCons(text: string, token: string, pos: nat, first: Span, tail: seq<Span>)
    requires pos <= first.start && IsMatch(text, token, first) && IsScan(text, token, first.end, tail)
    ensures IsScan(text, token, pos, [first] + tail)
  {
    var all := [first] + tail;
    forall j | 0 <= j < |all| ensures pos <= all[j].start && IsMatch(text, token, all[j]) {
      assert j > 0 ==> all[j] == tail[j - 1];
    }
  }

  lemma {:induction false} ScanIsOrdered(text: string, token: string, pos: nat)
    requires token != [] && pos <= |text|
    ensures IsScan(text, token, pos, Scan(text, token, pos))
    decreases |text| - pos
  {
    var found := IndexFrom(text, token, pos);
    if found.Some? {
      var next := found.value + |token|;
      ScanIsOrdered(text, token, next);
      ScanCons(text, token, pos, Span(found.value, next), Scan(text, token, next));
    }
  }

  lemma InOneSpan(s: nat, e: nat, k: int)
    ensures InSpan([Span(s, e)], k) <==> s <= k < e
  {
    assert [Span(s, e)][0] == Span(s, e);
  }

  /** Every occurrence from pos on begins inside a reported one. */
  lemma {:induction false} ScanFindsAll(text: string, token: string, pos: nat, p: nat)
    requires token != [] && pos <= p && OccursAt(text, token, p)
    ensures InSpan(Scan(text, token, pos), p)
    decreases |text| - pos
  {
    hide InSpan, IndexFrom;
    var s := IndexFrom(text, token, pos).value;
    var next := s + |token|;
    InSpanConcat([Span(s, next)], Scan(text, token, next), p);
    if p >= next {
      ScanFindsAll(text, token, next, p);
    } else {
      hide OccursAt, Scan;
      InOneSpan(s, next, p);
    }
  }

  // ---- Ignoring case ----

  /** The word stands in the text at position p, ignoring case. */
  predicate FoundAt(text: string, word: string, p: nat) {
    p + |word| <= |text| && SameText(text[p..p + |word|], word)
  }

  lemma FoundLowered(text: string, word: string, p: nat)
    ensures FoundAt(text, word, p) <==> OccursAt(ToLower(text), ToLower(word), p)
    ensures FoundAt(text, word, p) ==> p + |word| <= |text|
  {
    if p + |word| <= |text| {
      var part := text[p..p + |word|];
      assert ToLower(text)[p..p + |word|] == ToLower(part);
      LowerIgnoresCase(part, word);
    }
  }

  /** The places of the word from pos on: always the next one that does not overlap the last, to the end. */
  ghost predicate AreHits(text: string, word: string, pos: nat, spans: seq<Span>)
    decreases |spans|
  {
    if spans == [] then forall p: nat :: pos <= p ==> !FoundAt(text, word, p)
    else
      && pos <= spans[0].start && FoundAt(text, word, spans[0].start) && spans[0].end == spans[0].start + |word|
      && (forall p: nat :: pos <= p < spans[0].start ==> !FoundAt(text, word, p))
      && AreHits(text, word, spans[0].end, spans[1..])
  }

  lemma HitsCons(text: string, word: string, pos: nat, first: Span, hits: seq<Span>)
    requires pos <= first.start && first.end == first.start + |word| && FoundAt(text, word, first.start)
    requires forall p: nat :: pos <= p < first.start ==> !FoundAt(text, word, p)
    requires AreHits(text, word, first.end, hits)
    ensures AreHits(text, word, pos, [first] + hits)
  {
    assert ([first] + hits)[1..] == hits;
  }

  /** Scanning the lower-cased text for the lower-cased word finds those places. */
  lemma {:induction false} ScanHits(text: string, word: string, pos: nat)
    requires word != [] && pos <= |text|
    ensures AreHits(text, word, pos, Scan(ToLower(text), ToLower(word), pos))
    decreases |text| - pos
  {
    hide FoundAt, OccursAt, IndexFrom, ToLower;
    var low, token := ToLower(text), ToLower(word);
    var found := IndexFrom(low, token, pos);
    forall p: nat | pos <= p ensures FoundAt(text, word, p) <==> OccursAt(low, token, p) {
      FoundLowered(text, word, p);
    }
    if found.Some? {
      var s := found.value;
      FoundLowered(text, word, s);
      ScanHits(text, word, s + |word|);
      HitsCons(text, word, pos, Span(s, s + |word|), Scan(low, token, s + |word|));
    }
  }

  lemma {:induction false} HitsAreDetermined(text: string, word: string, pos: nat, a: seq<Span>, b: seq<Span>)
    requires AreHits(text, word, pos, a) && AreHits(text, word, pos, b)
    ensures a == b
    decreases |a|
  {
    if a != [] && b != [] {
      assert a[0].start == b[0].start;
      HitsAreDetermined(text, word, a[0].end, a[1..], b[1..]);
      HeadTail(a);
      HeadTail(b);
    }
  }

  // ---- All tokens ----

  function TokenMatches(text: string, token: string): (spans: seq<Span>)
    ensures Within(spans, |text|)
  {
    if token == [] then [] else Scan(text, ToLower(token), 0)
  }

  function Matches(text: string, tokens: seq<string>): (spans: seq<Span>)
    ensures Within(spans, |text|)
  {
    if tokens == [] then [] else TokenMatches(text, tokens[0]) + Matches(text, tokens[1..])
  }

  /** One of the places of some token covers position k of the plain text, ignoring case. */
  ghost predicate Covered(plain: string, tokens: seq<string>, k: int) {
    exists t, hits :: t in tokens && t != [] && AreHits(plain, t, 0, hits) && InSpan(hits, k)
  }

  lemma CoveredByScan(plain: string, tokens: seq<string>, k: int)
    ensures Covered(plain, tokens, k) <==>
            exists t :: t in tokens && t != [] && InSpan(Scan(ToLower(plain), ToLower(t), 0), k)
  {
    forall t | t in tokens && t != []
      ensures AreHits(plain, t, 0, Scan(ToLower(plain), ToLower(t), 0))
    {
      ScanHits(plain, t, 0);
    }
    if t, hits :| t in tokens && t != [] && AreHits(plain, t, 0, hits) && InSpan(hits, k) {
      HitsAreDetermined(plain, t, 0, hits, Scan(ToLower(plain), ToLower(t), 0));
    }
  }

  lemma InSpanConcat(a: seq<Span>, b: seq<Span>, k: int)
    ensures InSpan(a + b, k) <==> InSpan(a, k) || InSpan(b, k)
  {
    if InSpan(a, k) {
      var j :| 0 <= j < |a| && a[j].start <= k < a[j].end;
      assert (a + b)[j] == a[j];
    }
    if InSpan(b, k) {
      var j :| 0 <= j < |b| && b[j].start <= k < b[j].end;
      assert (a + b)[|a| + j] == b[j];
    }
  }

  lemma {:induction false} MatchesCover(plain: string, tokens: seq<string>, k: int)
    ensures InSpan(Matches(ToLower(plain), tokens), k) <==> Covered(plain, tokens, k)
  {
    hide AreHits, Scan;
    CoveredByScan(plain, tokens, k);
    if tokens != [] {
      CoveredByScan(plain, tokens[1..], k);
      MatchesCover(plain, tokens[1..], k);
      InSpanConcat(TokenMatches(ToLower(plain), tokens[0]), Matches(ToLower(plain), tokens[1..]), k);
    }
  }

  /** The inner loop: the matches of one token are appended. */
  method AppendMatches(lowerPlain: string, lowerTok: string, before: seq<Span>) returns (matches: seq<Span>)
    requires lowerTok != []
    ensures matches == before + Scan(lowerPlain, lowerTok, 0)
  {
    matches := before;
    var pos := 0;
    ghost var all := before + Scan(lowerPlain, lowerTok, 0);
    while true
      invariant 0 <= pos <= |lowerPlain|
      invariant matches + Scan(lowerPlain, lowerTok, pos) == all
      decreases |lowerPlain| - pos
    {
      var idx := IndexFrom(lowerPlain, lowerTok, pos);
      if idx == None {
        return;
      }
      var s := idx.value;
      ConcatAssoc(matches, [Span(s, s + |lowerTok|)], Scan(lowerPlain, lowerTok, s + |lowerTok|));
      matches := matches + [Span(s, s + |lowerTok|)];
      pos := s + |lowerTok|;
    }
  }

  lemma MatchesStep(before: seq<Span>, text: string, tokens: seq<string>, i: nat)
    requires i < |tokens|
    ensures before + Matches(text, tokens[i..]) ==
            (before + TokenMatches(text, tokens[i])) + Matches(text, tokens[i + 1..])
  {
    HeadTail(tokens[i..]);
    assert tokens[i..][1..] == tokens[i + 1..];
    ConcatAssoc(before, TokenMatches(text, tokens[i]), Matches(text, tokens[i + 1..]));
  }

  /** The outer loop. */
  method CollectMatches(lowerPlain: string, tokens: seq<string>) returns (matches: seq<Span>)
    ensures matches == Matches(lowerPlain, tokens)
  {
    matches := [];
    ghost var all := Matches(lowerPlain, tokens);
    assert tokens[0..] == tokens;
    for i := 0 to |tokens|
      invariant matches + Matches(lowerPlain, tokens[i..]) == all
    {
      MatchesStep(matches, lowerPlain, tokens, i);
      ghost var before := matches;
      var lowerTok := ToLower(tokens[i]);
      if lowerTok != "" {
        matches := AppendMatches(lowerPlain, lowerTok, matches);
      }
      assert matches == before + TokenMatches(lowerPlain, tokens[i]);
    }
    assert tokens[|tokens|..] == [];
  }

  // ---- Merging ----

  /** The last span grows over m when they meet, otherwise m starts a new one. */
  function Absorb(done: seq<Span>, m: Span): seq<Span> {
    var last := |done| - 1;
    if done != [] && m.start <= done[last].end then
      if m.end > done[last].end then done[last := Span(done[last].start, m.end)] else done
    else done + [m]
  }

  function MergeOnto(done: seq<Span>, rest: seq<Span>): seq<Span>
    decreases |rest|
  {
    if rest == [] then done else MergeOnto(Absorb(done, rest[0]), rest[1..])
  }

  function Merge(spans: seq<Span>): seq<Span> { MergeOnto([], spans) }

  /** merged := matches[:0]: the merge is written over the front of the array being read. */
  method MergeInPlace(matches: array<Span>) returns (n: nat)
    modifies matches
    ensures n <= matches.Length
    ensures matches[..n] == Merge(old(matches[..]))
  {
    n := 0;
    assert matches[0..] == matches[..];
    for i := 0 to matches.Length
      invariant n <= i
      invariant MergeOnto(matches[..n], matches[i..]) == Merge(old(matches[..]))
    {
      var m := matches[i];
      ghost var done, rest := matches[..n], matches[i..];
      assert rest[1..] == matches[i + 1..];
      if n > 0 && m.start <= matches[n - 1].end {
        if m.end > matches[n - 1].end {
          matches[n - 1] := Span(matches[n - 1].start, m.end);
        }
      } else {
        matches[n] := m;
        n := n + 1;
        assert matches[..n] == done + [m];
      }
      assert matches[i + 1..] == rest[1..];
    }
  }

  /** Spans in order with a gap between each two. */
  predicate Separated(spans: seq<Span>) {
    && (forall i :: 0 <= i < |spans| ==> spans[i].start < spans[i].end)
    && (forall i, j :: 0 <= i < j < |spans| ==> spans[i].end < spans[j].start)
  }

  predicate SortedByStart(spans: seq<Span>) {
    forall i, j :: 0 <= i < j < |spans| ==> spans[i].start <= spans[j].start
  }

  lemma AbsorbSeparates(done: seq<Span>, m: Span, n: nat)
    requires Separated(done) && Within(done, n) && m.start < m.end <= n
    requires done != [] ==> done[|done| - 1].start <= m.start
    ensures Separated(Absorb(done, m)) && Within(Absorb(done, m), n)
    ensures var next := Absorb(done, m); next != [] && next[|next| - 1].start <= m.start
  {}

  lemma AbsorbKeepsCoverage(done: seq<Span>, m: Span, k: int)
    requires Separated(done) && m.start < m.end
    requires done != [] ==> done[|done| - 1].start <= m.start
    ensures InSpan(Absorb(done, m), k) <==> InSpan(done, k) || m.start <= k < m.end
  {
    var last, next := |done| - 1, Absorb(done, m);
    if done == [] || m.start > done[last].end {
      InSpanConcat(done, [m], k);
      assert InSpan([m], k) <==> [m][0].start <= k < [m][0].end;
    } else {
      assert m.start <= k < m.end ==> next[last].start <= k < next[last].end;
      if InSpan(done, k) {
        var j :| 0 <= j < |done| && done[j].start <= k < done[j].end;
        assert next[j].start <= k < next[j].end;
      }
      if InSpan(next, k) {
        var j :| 0 <= j < |next| && next[j].start <= k < next[j].end;
        assert done[j].start <= k < done[j].end || m.start <= k < m.end;
      }
    }
  }

  /** Merging sorted spans separates them without covering or uncovering any position. */
  lemma {:induction false} MergeKeepsCoverage(done: seq<Span>, rest: seq<Span>, n: nat)
    requires Separated(done) && Within(done, n) && Within(rest, n) && SortedByStart(rest)
    requires done != [] && rest != [] ==> done[|done| - 1].start <= rest[0].start
    ensures Separated(MergeOnto(done, rest)) && Within(MergeOnto(done, rest), n)
    ensures forall k :: InSpan(MergeOnto(done, rest), k) <==> InSpan(done, k) || InSpan(rest, k)
    decreases |rest|
  {
    if rest != [] {
      var m, next, tail := rest[0], Absorb(done, rest[0]), rest[1..];
      AbsorbSeparates(done, m, n);
      MergeKeepsCoverage(next, tail, n);
      forall k ensures InSpan(rest, k) <==> m.start <= k < m.end || InSpan(tail, k) {
        InSpanConcat([m], tail, k);
        assert [m] + tail == rest;
        assert InSpan([m], k) <==> [m][0].start <= k < [m][0].end;
      }
      forall k ensures InSpan(next, k) <==> InSpan(done, k) || m.start <= k < m.end {
        AbsorbKeepsCoverage(done, m, k);
      }
    }
  }

  function Prepared(text: string, tokens: seq<string>): seq<Span> {
    Merge(SortBy(Matches(text, tokens), SpanLeq))
  }

  lemma MultisetCoverage(a: seq<Span>, b: seq<Span>, k: int)
    requires multiset(a) == multiset(b)
    ensures InSpan(a, k) ==> InSpan(b, k)
  {
    if InSpan(a, k) {
      var j :| 0 <= j < |a| && a[j].start <= k < a[j].end;
      assert a[j] in multiset(b);
    }
  }

  /** The spans handed to the walk: in order, apart, inside the text, and covering what the scans cover. */
  lemma PreparedSpans(plain: string, tokens: seq<string>)
    ensures var spans := Prepared(ToLower(plain), tokens);
            Separated(spans) && Within(spans, |plain|) && forall k :: InSpan(spans, k) <==> Covered(plain, tokens, k)
  {
    var found := Matches(ToLower(plain), tokens);
    var sorted := SortBy(found, SpanLeq);
    SortByIsStableSort(found, SpanLeq);
    forall j | 0 <= j < |sorted| ensures sorted[j].start < sorted[j].end <= |plain| {
      assert sorted[j] in multiset(found);
    }
    MergeKeepsCoverage([], sorted, |plain|);
    forall k ensures InSpan(Merge(sorted), k) <==> Covered(plain, tokens, k) {
      MultisetCoverage(found, sorted, k);
      MultisetCoverage(sorted, found, k);
      MatchesCover(plain, tokens, k);
    }
  }

  lemma EndIsOutside(spans: seq<Span>, j: nat)
    requires Separated(spans) && j < |spans|
    ensures !InSpan(spans, spans[j].end)
  {}

  /** Separated spans that cover one run of positions are that run. */
  lemma OneRun(spans: seq<Span>, s: nat, e: nat)
    requires Separated(spans) && s < e && forall k :: InSpan(spans, k) <==> s <= k < e
    ensures spans == [Span(s, e)]
  {
    assert InSpan(spans, s);
    var j :| 0 <= j < |spans| && spans[j].start <= s < spans[j].end;
    RunOf(spans, j, s, e);
    EndIsOutside(spans, j);
    if |spans| > 1 {
      RunOf(spans, if j == 0 then 1 else 0, s, e);
      assert false;
    }
  }

  lemma RunOf(spans: seq<Span>, j: nat, s: nat, e: nat)
    requires Separated(spans) && j < |spans| && forall k :: InSpan(spans, k) ==> s <= k < e
    ensures s <= spans[j].start < spans[j].end <= e
  {
    assert InSpan(spans, spans[j].start) && InSpan(spans, spans[j].end - 1);
  }

  /** A word that stands in the text once is the only span. */
  lemma OnlyMatch(plain: string, word: string, p: nat)
    requires word != "" && FoundAt(plain, word, p) && forall q: nat :: FoundAt(plain, word, q) ==> q == p
    ensures Prepared(ToLower(plain), [word]) == [Span(p, p + |word|)]
  {
    hide FoundAt, Prepared, Separated;
    var hits := [Span(p, p + |word|)];
    assert hits[1..] == [];
    assert AreHits(plain, word, p + |word|, []);
    assert AreHits(plain, word, 0, hits);
    PreparedSpans(plain, [word]);
    forall k ensures Covered(plain, [word], k) <==> p <= k < p + |word| {
      if p <= k < p + |word| {
        assert hits[0].start <= k < hits[0].end;
        assert word in [word] && InSpan(hits, k);
      }
      if Covered(plain, [word], k) {
        var t, found :| t in [word] && t != [] && AreHits(plain, t, 0, found) && InSpan(found, k);
        HitsAreDetermined(plain, word, 0, found, hits);
      }
    }
    OneRun(Prepared(ToLower(plain), [word]), p, p + |word|);
  }
}
