/** internal/uikit/render_md.go: injecting reverse video around search matches. */
module Highlight {
  import opened Ansi
  import opened Spans
  import opened Text
  import Order

  const HL_ON := "\U{1B}[7m"
  const HL_OFF := "\U{1B}[27m"

  // ---- The walk, piece by piece ----

  /** plainIdx, mi and inHL of the walk. */
  datatype Cursor = Cursor(k: nat, mi: nat, on: bool)

  predicate Starts(spans: seq<Span>, c: Cursor) {
    !c.on && c.mi < |spans| && c.k == spans[c.mi].start
  }

  predicate Ends(spans: seq<Span>, c: Cursor) {
    (c.on || Starts(spans, c)) && c.mi < |spans| && c.k + 1 == spans[c.mi].end
  }

  function Advance(p: Piece, spans: seq<Span>, c: Cursor): Cursor {
    if p.Seq? then c
    else Cursor(c.k + 1, if Ends(spans, c) then c.mi + 1 else c.mi, (c.on || Starts(spans, c)) && !Ends(spans, c))
  }

  function Emit(p: Piece, spans: seq<Span>, c: Cursor): seq<Piece> {
    if p.Seq? then [p] + (if c.on then [Seq(HL_ON)] else [])
    else (if Starts(spans, c) then [Seq(HL_ON)] else []) + [p] + (if Ends(spans, c) then [Seq(HL_OFF)] else [])
  }

  function Walk(ps: seq<Piece>, spans: seq<Span>, c: Cursor): seq<Piece> {
    if ps == [] then if c.on then [Seq(HL_OFF)] else []
    else Emit(ps[0], spans, c) + Walk(ps[1..], spans, Advance(ps[0], spans, c))
  }

  const START := Cursor(0, 0, false)

  /** HighlightMatchesTokens as a function; keepsEscape is what ansi.Strip does with a lone escape at the end. */
  function Highlighted(styled: string, tokens: seq<string>, keepsEscape: bool): string {
    Unparse(Walk(Pieces(styled), Prepared(ToLower(Plain(styled, keepsEscape)), tokens), START))
  }

  // ---- The loop ----

  lemma {:induction false} UnparseConcat(a: seq<Piece>, b: seq<Piece>)
    ensures Unparse(a + b) == Unparse(a) + Unparse(b)
  {
    if a == [] {
      assert a + b == b;
    } else {
      UnparseConcat(a[1..], b);
      ConcatTail(a, b);
      ConcatAssoc(Written(a[0]), Unparse(a[1..]), Unparse(b));
    }
  }

  lemma UnparseOne(p: Piece)
    ensures Unparse([p]) == Written(p)
  {
    assert [p][1..] == [];
  }

  lemma UnparseEmit(p: Piece, spans: seq<Span>, c: Cursor)
    ensures Unparse(Emit(p, spans, c)) ==
            if p.Seq? then p.text + (if c.on then HL_ON else "")
            else (if Starts(spans, c) then HL_ON else "") + [p.c] + (if Ends(spans, c) then HL_OFF else "")
  {
    UnparseOne(p);
    UnparseOne(Seq(HL_ON));
    UnparseOne(Seq(HL_OFF));
    if p.Seq? {
      UnparseConcat([p], if c.on then [Seq(HL_ON)] else []);
    } else {
      var before, after := if Starts(spans, c) then [Seq(HL_ON)] else [], if Ends(spans, c) then [Seq(HL_OFF)] else [];
      UnparseConcat(before + [p], after);
      UnparseConcat(before, [p]);
    }
  }

  /** The piece at the front of a text. */
  function FirstPiece(s: string): (p: Piece)
    requires s != []
    ensures 0 < |Written(p)| <= |s|
  {
    if SeqLen(s) > 0 then Seq(s[..SeqLen(s)]) else Byte(s[0])
  }

  lemma PiecesFromFirst(s: string)
    requires s != []
    ensures Pieces(s) == [FirstPiece(s)] + Pieces(s[|Written(FirstPiece(s))|..])
  {}

  /** The text still to be written from position i on. */
  function Todo(styled: string, i: nat, spans: seq<Span>, c: Cursor): string
    requires i <= |styled|
  {
    Unparse(Walk(Pieces(styled[i..]), spans, c))
  }

  /** One step of the walk on text: what is written for the piece at position i. */
  lemma WalkStep(out: string, styled: string, i: nat, p: Piece, spans: seq<Span>, c: Cursor)
    requires i < |styled| && p == FirstPiece(styled[i..])
    ensures i + |Written(p)| <= |styled|
    ensures (out + Unparse(Emit(p, spans, c))) + Todo(styled, i + |Written(p)|, spans, Advance(p, spans, c))
            == out + Todo(styled, i, spans, c)
  {
    hide Pieces, Unparse;
    var n, next := i + |Written(p)|, Advance(p, spans, c);
    PiecesFromFirst(styled[i..]);
    assert styled[i..][|Written(p)|..] == styled[n..];
    assert ([p] + Pieces(styled[n..]))[1..] == Pieces(styled[n..]);
    UnparseConcat(Emit(p, spans, c), Walk(Pieces(styled[n..]), spans, next));
    ConcatAssoc(out, Unparse(Emit(p, spans, c)), Todo(styled, n, spans, next));
  }

  /** A highlight that is still open at the end is closed. */
  lemma WalkEnd(styled: string, spans: seq<Span>, c: Cursor)
    ensures Todo(styled, |styled|, spans, c) == if c.on then HL_OFF else ""
  {
    assert styled[|styled|..] == [];
    UnparseOne(Seq(HL_OFF));
  }

  lemma Regroup(a: string, b: string, c: string, d: string)
    ensures a + b + c + d == a + (b + c + d)
    ensures a + b + c == a + (b + c)
  {
    assert a + b + c == a + (b + c);
    assert a + b + c + d == a + (b + c + d);
  }

  /** The part of the loop body that writes an escape sequence. */
  method WriteSequence(out: string, text: string, inHL: bool, ghost spans: seq<Span>, ghost c: Cursor)
    returns (r: string)
    requires c.on == inHL
    ensures r == out + Unparse(Emit(Seq(text), spans, c))
  {
    r := out + text;
    if inHL {
      r := r + HL_ON;
    }
    UnparseEmit(Seq(text), spans, c);
    Regroup(out, text, if inHL then HL_ON else "", "");
  }

  /** The part of the loop body that writes a plain byte. */
  method WriteByte(out: string, b: char, matches: array<Span>, n: nat, c: Cursor) returns (r: string, next: Cursor)
    requires n <= matches.Length
    ensures r == out + Unparse(Emit(Byte(b), matches[..n], c))
    ensures next == Advance(Byte(b), matches[..n], c)
  {
    ghost var spans := matches[..n];
    ghost var on, off := if Starts(spans, c) then HL_ON else "", if Ends(spans, c) then HL_OFF else "";
    var plainIdx, mi, inHL := c.k, c.mi, c.on;
    r := out;
    if !inHL && mi < n && plainIdx == matches[mi].start {
      r := r + HL_ON;
      inHL := true;
    }
    assert r == out + on;
    r := r + [b];
    plainIdx := plainIdx + 1;
    if inHL && mi < n && plainIdx == matches[mi].end {
      r := r + HL_OFF;
      inHL := false;
      mi := mi + 1;
    }
    assert r == out + on + [b] + off;
    Regroup(out, on, [b], off);
    UnparseEmit(Byte(b), spans, c);
    next := Cursor(plainIdx, mi, inHL);
  }

  /** The part of the loop body that tells an escape sequence from a plain byte. */
  method NextPiece(styled: string, i: nat) returns (p: Piece)
    requires i < |styled|
    ensures p == FirstPiece(styled[i..])
  {
    var rest := styled[i..];
    var len := 0;
    if styled[i] == ESC {
      len := AnsiSeqLen(rest);
    }
    p := if len > 0 then Seq(rest[..len]) else Byte(styled[i]);
  }

  method WritePiece(out: string, p: Piece, matches: array<Span>, n: nat, c: Cursor) returns (r: string, next: Cursor)
    requires n <= matches.Length
    ensures r == out + Unparse(Emit(p, matches[..n], c)) && next == Advance(p, matches[..n], c)
  {
    match p
    case Seq(text) =>
      r := WriteSequence(out, text, c.on, matches[..n], c);
      next := c;
    case Byte(b) =>
      r, next := WriteByte(out, b, matches, n, c);
  }

  method WalkStyled(styled: string, matches: array<Span>, n: nat) returns (out: string)
    requires n <= matches.Length
    ensures out == Unparse(Walk(Pieces(styled), matches[..n], START))
  {
    hide Walk, Pieces, Unparse, Emit;
    ghost var spans := matches[..n];
    assert styled[0..] == styled;
    out := "";
    var c, i := START, 0;
    while i < |styled|
      invariant i <= |styled|
      invariant out + Todo(styled, i, spans, c) == Todo(styled, 0, spans, START)
      decreases |styled| - i
    {
      var p := NextPiece(styled, i);
      WalkStep(out, styled, i, p, spans, c);
      out, c := WritePiece(out, p, matches, n, c);
      i := i + |Written(p)|;
    }
    WalkEnd(styled, spans, c);
    if c.on {
      out := out + HL_OFF;
    }
  }

  lemma {:induction false} PlainWalk(ps: seq<Piece>, c: Cursor)
    requires !c.on
    ensures Walk(ps, [], c) == ps
  {
    if ps != [] {
      PlainWalk(ps[1..], Advance(ps[0], [], c));
      HeadTail(ps);
    }
  }

  /** Without matches the walk writes the text as it is. */
  lemma NothingToHighlight(styled: string, tokens: seq<string>, keepsEscape: bool)
    requires Matches(ToLower(Plain(styled, keepsEscape)), tokens) == []
    ensures Highlighted(styled, tokens, keepsEscape) == styled
  {
    PlainWalk(Pieces(styled), START);
    UnparsePieces(styled);
  }

  method HighlightMatchesTokens(styled: string, tokens: seq<string>, keepsEscape: bool) returns (out: string)
    ensures out == Highlighted(styled, tokens, keepsEscape)
  {
    hide Walk, Pieces, Unparse, Merge;
    if |tokens| == 0 {
      NothingToHighlight(styled, tokens, keepsEscape);
      return styled;
    }
    var lowerPlain := ToLower(Plain(styled, keepsEscape));
    var matches := CollectMatches(lowerPlain, tokens);
    if |matches| == 0 {
      NothingToHighlight(styled, tokens, keepsEscape);
      return styled;
    }
    var sorted := Order.SortBy(matches, SpanLeq);
    var buffer := new Span[|sorted|](i requires 0 <= i < |sorted| => sorted[i]);
    assert buffer[..] == sorted;
    var n := MergeInPlace(buffer);
    out := WalkStyled(styled, buffer, n);
  }

  // ---- The cursor follows the spans ----

  predicate OnTrack(spans: seq<Span>, c: Cursor) {
    && c.mi <= |spans|
    && (c.on ==> c.mi < |spans| && spans[c.mi].start < c.k < spans[c.mi].end)
    && (!c.on && c.mi < |spans| ==> c.k <= spans[c.mi].start)
    && (forall j :: 0 <= j < c.mi ==> spans[j].end <= c.k)
  }

  lemma CursorAdvances(p: Piece, spans: seq<Span>, c: Cursor)
    requires Separated(spans) && OnTrack(spans, c)
    ensures OnTrack(spans, Advance(p, spans, c))
    ensures InSpan(spans, c.k) <==> c.on || Starts(spans, c)
  {
    if InSpan(spans, c.k) {
      var j :| 0 <= j < |spans| && spans[j].start <= c.k < spans[j].end;
      assert j >= c.mi;
      assert j == c.mi;
    }
    if c.on || Starts(spans, c) {
      assert spans[c.mi].start <= c.k < spans[c.mi].end;
    }
  }

  // ---- What the terminal shows ----

  /** What an escape sequence does to reverse video. */
  datatype Effect = TurnOn | TurnOff | Keep

  datatype Cell = Cell(c: char, reversed: bool)

  function After(p: Piece, on: bool, fx: string -> Effect): bool {
    if p.Byte? then on
    else match fx(p.text) case TurnOn => true case TurnOff => false case Keep => on
  }

  function Shown(p: Piece, on: bool): seq<Cell> { if p.Byte? then [Cell(p.c, on)] else [] }

  /** The visible bytes, each with the reverse-video state it is shown in. */
  function Render(ps: seq<Piece>, on: bool, fx: string -> Effect): seq<Cell> {
    if ps == [] then [] else Shown(ps[0], on) + Render(ps[1..], After(ps[0], on, fx), fx)
  }

  function FinalState(ps: seq<Piece>, on: bool, fx: string -> Effect): bool {
    if ps == [] then on else FinalState(ps[1..], After(ps[0], on, fx), fx)
  }

  lemma {:induction false} FinalConcat(a: seq<Piece>, b: seq<Piece>, on: bool, fx: string -> Effect)
    ensures FinalState(a + b, on, fx) == FinalState(b, FinalState(a, on, fx), fx)
  {
    if a == [] {
      assert a + b == b;
    } else {
      FinalConcat(a[1..], b, After(a[0], on, fx), fx);
      ConcatTail(a, b);
    }
  }

  lemma {:induction false} RenderConcat(a: seq<Piece>, b: seq<Piece>, on: bool, fx: string -> Effect)
    ensures Render(a + b, on, fx) == Render(a, on, fx) + Render(b, FinalState(a, on, fx), fx)
  {
    if a == [] {
      assert a + b == b;
    } else {
      var next := After(a[0], on, fx);
      RenderConcat(a[1..], b, next, fx);
      ConcatTail(a, b);
      ConcatAssoc(Shown(a[0], on), Render(a[1..], next, fx), Render(b, FinalState(a, on, fx), fx));
    }
  }

  lemma RenderOne(p: Piece, on: bool, fx: string -> Effect)
    ensures Render([p], on, fx) == Shown(p, on)
    ensures FinalState([p], on, fx) == After(p, on, fx)
  {
    assert [p][1..] == [];
  }

  /** fx reads reverse video on and off (ECMA-48 section 8.3.117). */
  predicate ReadsMarks(fx: string -> Effect) { fx("\U{1B}[7m") == TurnOn && fx("\U{1B}[27m") == TurnOff }

  /** The text itself never turns reverse video on. */
  predicate NeverOn(ps: seq<Piece>, fx: string -> Effect) {
    forall i :: 0 <= i < |ps| && ps[i].Seq? ==> fx(ps[i].text) != TurnOn
  }

  /** The cells show the bytes, reversed at the covered positions (counted from k); only there when exact. */
  predicate Shows(cells: seq<Cell>, bytes: string, spans: seq<Span>, k: nat, exact: bool) {
    && |cells| == |bytes|
    && forall i :: 0 <= i < |cells| ==>
         && cells[i].c == bytes[i]
         && (InSpan(spans, k + i) ==> cells[i].reversed)
         && (exact && cells[i].reversed ==> InSpan(spans, k + i))
  }

  lemma EmitRenders(p: Piece, spans: seq<Span>, c: Cursor, on: bool, fx: string -> Effect)
    requires ReadsMarks(fx) && (c.on ==> on)
    ensures Render(Emit(p, spans, c), on, fx) == if p.Seq? then [] else [Cell(p.c, on || Starts(spans, c))]
    ensures FinalState(Emit(p, spans, c), on, fx) ==
            if p.Seq? then c.on || After(p, on, fx) else (on || Starts(spans, c)) && !Ends(spans, c)
  {
    RenderOne(Seq(HL_ON), on, fx);
    if p.Seq? {
      RenderOne(p, on, fx);
      if c.on {
        RenderConcat([p], [Seq(HL_ON)], on, fx);
        FinalConcat([p], [Seq(HL_ON)], on, fx);
        RenderOne(Seq(HL_ON), After(p, on, fx), fx);
      }
    } else {
      var before, after := if Starts(spans, c) then [Seq(HL_ON)] else [], if Ends(spans, c) then [Seq(HL_OFF)] else [];
      var on' := on || Starts(spans, c);
      RenderOne(p, on', fx);
      RenderOne(Seq(HL_OFF), on', fx);
      RenderConcat(before, [p], on, fx);
      RenderConcat(before + [p], after, on, fx);
      FinalConcat(before, [p], on, fx);
      FinalConcat(before + [p], after, on, fx);
    }
  }

  lemma ShowsStep(tail: seq<Cell>, bytes: string, cell: Cell, spans: seq<Span>, k: nat, exact: bool)
    requires Shows(tail, bytes, spans, k + 1, exact)
    requires (InSpan(spans, k) ==> cell.reversed) && (exact && cell.reversed ==> InSpan(spans, k))
    ensures Shows([cell] + tail, [cell.c] + bytes, spans, k, exact)
  {
    var cells := [cell] + tail;
    forall i | 0 < i < |cells|
      ensures cells[i].c == ([cell.c] + bytes)[i]
      ensures InSpan(spans, k + i) ==> cells[i].reversed
      ensures exact && cells[i].reversed ==> InSpan(spans, k + i)
    {
      assert cells[i] == tail[i - 1] && k + i == k + 1 + (i - 1);
    }
  }

  lemma ClosingShows(spans: seq<Span>, c: Cursor, on: bool, fx: string -> Effect, exact: bool)
    ensures Shows(Render(Walk([], spans, c), on, fx), Bytes([]), spans, c.k, exact)
  {
    assert [Seq(HL_OFF)][1..] == [];
  }

  lemma {:induction false} WalkShows(ps: seq<Piece>, spans: seq<Span>, c: Cursor, on: bool, fx: string -> Effect,
                                     exact: bool)
    requires Separated(spans) && OnTrack(spans, c) && ReadsMarks(fx)
    requires (c.on ==> on) && (exact && on ==> c.on) && (exact ==> NeverOn(ps, fx))
    ensures Shows(Render(Walk(ps, spans, c), on, fx), Bytes(ps), spans, c.k, exact)
  {
    if ps == [] {
      ClosingShows(spans, c, on, fx, exact);
    } else {
      hide Shows, Separated, OnTrack, ReadsMarks, Starts, Ends, InSpan, Emit;
      var p, next := ps[0], Advance(ps[0], spans, c);
      var emitted, rest := Emit(p, spans, c), Walk(ps[1..], spans, next);
      var on' := FinalState(emitted, on, fx);
      CursorAdvances(p, spans, c);
      EmitRenders(p, spans, c, on, fx);
      RenderConcat(emitted, rest, on, fx);
      assert Walk(ps, spans, c) == emitted + rest;
      WalkShows(ps[1..], spans, next, on', fx, exact);
      if p.Byte? {
        ShowsStep(Render(rest, on', fx), Bytes(ps[1..]), Cell(p.c, on || Starts(spans, c)), spans, c.k, exact);
      } else {
        assert Render(emitted + rest, on, fx) == Render(rest, on', fx);
        assert Bytes(ps) == Bytes(ps[1..]);
      }
    }
  }

  // ---- The output reads back as it was written ----

  ghost predicate AllStable(ps: seq<Piece>) { forall i :: 0 <= i < |ps| ==> Stable(ps[i]) }

  lemma {:induction false} StableReparse(ps: seq<Piece>, s: string)
    requires AllStable(ps)
    ensures Pieces(Unparse(ps) + s) == ps + Pieces(s)
  {
    if ps == [] {
      assert Unparse(ps) + s == s;
    } else {
      StableReparse(ps[1..], s);
      ConcatAssoc(Written(ps[0]), Unparse(ps[1..]), s);
      StableHead(ps[0], Unparse(ps[1..]) + s);
      HeadTail(ps);
      ConcatAssoc([ps[0]], ps[1..], Pieces(s));
    }
  }

  lemma StableHead(p: Piece, rest: string)
    requires Stable(p)
    ensures Pieces(Written(p) + rest) == [p] + Pieces(rest)
  {
    if p.Byte? {
      assert ([p.c] + rest)[1..] == rest;
    } else {
      var s := p.text + rest;
      assert SeqLen(s) == |p.text| && s[..|p.text|] == p.text && s[|p.text|..] == rest;
    }
  }

  lemma MarksAreStable()
    ensures Stable(Seq(HL_ON)) && Stable(Seq(HL_OFF))
  {
    forall rest ensures SeqLen(HL_ON + rest) == |HL_ON| {
      var s := HL_ON + rest;
      assert s[0] == ESC && s[1] == '[' && s[2] == '7' && s[3] == 'm';
      assert CsiEnd(s, 3) == 4;
    }
    forall rest ensures SeqLen(HL_OFF + rest) == |HL_OFF| {
      var s := HL_OFF + rest;
      assert s[0] == ESC && s[1] == '[' && s[2] == '2' && s[3] == '7' && s[4] == 'm';
      assert CsiEnd(s, 4) == 5;
      assert CsiEnd(s, 3) == 5;
    }
  }

  lemma StableEmit(p: Piece, spans: seq<Span>, c: Cursor)
    requires Stable(p)
    ensures AllStable(Emit(p, spans, c))
  {
    MarksAreStable();
  }

  lemma {:induction false} BytesConcat(a: seq<Piece>, b: seq<Piece>)
    ensures Bytes(a + b) == Bytes(a) + Bytes(b)
  {
    if a == [] {
      assert a + b == b;
    } else {
      BytesConcat(a[1..], b);
      ConcatTail(a, b);
      ConcatAssoc(Visible(a[0]), Bytes(a[1..]), Bytes(b));
    }
  }

  lemma {:induction false} WalkReparses(ps: seq<Piece>, spans: seq<Span>, c: Cursor)
    requires WellCut(ps) && Separated(spans) && OnTrack(spans, c) && Within(spans, c.k + |Bytes(ps)|)
    requires EndsInEscape(ps) ==> !InSpan(spans, c.k + |Bytes(ps)| - 1)
    ensures Pieces(Unparse(Walk(ps, spans, c))) == Walk(ps, spans, c)
  {
    if ps != [] {
      var p, next := ps[0], Advance(ps[0], spans, c);
      if Stable(p) {
        CursorAdvances(p, spans, c);
        WalkReparses(ps[1..], spans, next);
        UnparseConcat(Emit(p, spans, c), Walk(ps[1..], spans, next));
        StableEmit(p, spans, c);
        StableReparse(Emit(p, spans, c), Unparse(Walk(ps[1..], spans, next)));
      } else {
        LastPieceReparses(p, ps, spans, c);
      }
    }
  }

  /** An unfinished sequence or a lone escape ends the text, where no highlight is open. */
  lemma LastPieceReparses(p: Piece, ps: seq<Piece>, spans: seq<Span>, c: Cursor)
    requires ps == [p] && Final(p) && (p.Byte? ==> p.c == ESC)
    requires Separated(spans) && OnTrack(spans, c) && Within(spans, c.k + |Bytes(ps)|)
    requires EndsInEscape(ps) ==> !InSpan(spans, c.k + |Bytes(ps)| - 1)
    ensures Pieces(Unparse(Walk(ps, spans, c))) == Walk(ps, spans, c)
  {
    CursorAdvances(p, spans, c);
    assert ps[1..] == [];
    assert |Bytes(ps)| == if p.Byte? then 1 else 0;
    assert !c.on && !(p.Byte? && Starts(spans, c));
    assert Walk(ps, spans, c) == [p];
    UnparseOne(p);
    var t := Written(p);
    assert Pieces([]) == [];
    assert t[|t|..] == [] && t[..|t|] == t;
  }

  // ---- Theorems ----

  /** The one case that goes wrong: the text ends in a lone escape that ansi.Strip keeps and a token matches. */
  ghost predicate EscapeIsMatched(styled: string, tokens: seq<string>, keepsEscape: bool) {
    var plain := Plain(styled, keepsEscape);
    keepsEscape && EndsInEscape(Pieces(styled)) && Covered(plain, tokens, |plain| - 1)
  }

  /** The spans of a text lie within its visible bytes, away from a lone escape unless it is matched. */
  lemma SpansOfText(styled: string, tokens: seq<string>, keepsEscape: bool)
    ensures var spans := Prepared(ToLower(Plain(styled, keepsEscape)), tokens);
            var ps := Pieces(styled);
            && WellCut(ps) && Separated(spans) && Within(spans, |Bytes(ps)|)
            && (forall k :: InSpan(spans, k) <==> Covered(Plain(styled, keepsEscape), tokens, k))
            && (EndsInEscape(ps) && InSpan(spans, |Bytes(ps)| - 1) <==> EscapeIsMatched(styled, tokens, keepsEscape))
  {
    hide Prepared, Pieces, Bytes, Covered;
    var plain, ps := Plain(styled, keepsEscape), Pieces(styled);
    PreparedSpans(plain, tokens);
    PiecesAreWellCut(styled);
    EscapeComesLast(ps);
  }

  /** The visible bytes of the result and their marks: every byte of the text is shown once, in order, and reversed
      where a token's scan covers it; nowhere else unless the text itself turns reverse on. */
  lemma HighlightShowsMatches(styled: string, tokens: seq<string>, keepsEscape: bool, fx: string -> Effect)
    requires ReadsMarks(fx) && !EscapeIsMatched(styled, tokens, keepsEscape)
    ensures ShowsMatches(Render(Pieces(Highlighted(styled, tokens, keepsEscape)), false, fx), Bytes(Pieces(styled)),
                         Plain(styled, keepsEscape), tokens, NeverOn(Pieces(styled), fx))
  {
    hide Walk, Pieces, Unparse, Render, Bytes, Prepared, Covered, WellCut, EscapeIsMatched;
    var spans, ps := Prepared(ToLower(Plain(styled, keepsEscape)), tokens), Pieces(styled);
    SpansOfText(styled, tokens, keepsEscape);
    WalkReparses(ps, spans, START);
    WalkShows(ps, spans, START, false, fx, NeverOn(ps, fx));
    var cells := Render(Walk(ps, spans, START), false, fx);
    assert forall i :: 0 <= i < |cells| ==> (InSpan(spans, 0 + i) <==> Covered(Plain(styled, keepsEscape), tokens, i));
  }

  predicate ShowsAt(cell: Cell, c: char, covered: bool, exact: bool) {
    cell.c == c && (covered ==> cell.reversed) && (exact && cell.reversed ==> covered)
  }

  ghost predicate ShowsMatches(cells: seq<Cell>, bytes: string, plain: string, tokens: seq<string>, exact: bool) {
    && |cells| == |bytes|
    && forall i :: 0 <= i < |cells| ==> ShowsAt(cells[i], bytes[i], Covered(plain, tokens, i), exact)
  }

  lemma {:induction false} RenderedBytes(ps: seq<Piece>, on: bool, fx: string -> Effect)
    ensures |Render(ps, on, fx)| == |Bytes(ps)|
    ensures forall i :: 0 <= i < |Bytes(ps)| ==> Render(ps, on, fx)[i].c == Bytes(ps)[i]
  {
    if ps != [] {
      RenderedBytes(ps[1..], After(ps[0], on, fx), fx);
    }
  }

  lemma EmitBytes(p: Piece, spans: seq<Span>, c: Cursor)
    ensures Bytes(Emit(p, spans, c)) == Visible(p)
  {
    var on, off := [Seq(HL_ON)], [Seq(HL_OFF)];
    assert on[1..] == [] && off[1..] == [] && [p][1..] == [];
    if p.Seq? {
      BytesConcat([p], if c.on then on else []);
    } else {
      var before, after := if Starts(spans, c) then on else [], if Ends(spans, c) then off else [];
      BytesConcat(before, [p]);
      BytesConcat(before + [p], after);
    }
  }

  const LEAK: seq<Piece> := [Byte('['), Byte('2'), Byte('7'), Byte('m')]

  lemma PiecesOfMark()
    ensures Pieces("[27m") == LEAK
  {
    assert "[27m"[1..] == "27m" && "27m"[1..] == "7m" && "7m"[1..] == "m" && "m"[1..] == "";
    assert Pieces("m") == [Byte('m')] + Pieces("");
    assert Pieces("7m") == [Byte('7')] + Pieces("m");
    assert Pieces("27m") == [Byte('2')] + Pieces("7m");
    assert Pieces("[27m") == [Byte('[')] + Pieces("27m");
  }

  lemma BytesOfMark()
    ensures Bytes(LEAK) == "[27m"
  {
    BytesConcat([Byte('['), Byte('2')], [Byte('7'), Byte('m')]);
    assert LEAK == [Byte('['), Byte('2')] + [Byte('7'), Byte('m')];
    assert Bytes([Byte('['), Byte('2')]) == "[2" && Bytes([Byte('7'), Byte('m')]) == "7m";
  }

  lemma LeakedBytes()
    ensures Bytes(Pieces(Unparse([Byte(ESC), Seq(HL_OFF)]))) == "[27m"
  {
    UnparseConcat([Byte(ESC)], [Seq(HL_OFF)]);
    UnparseOne(Byte(ESC));
    UnparseOne(Seq(HL_OFF));
    var s := [ESC] + HL_OFF;
    assert [Byte(ESC)] + [Seq(HL_OFF)] == [Byte(ESC), Seq(HL_OFF)];
    assert SeqLen(s) == 2 && s[2..] == "[27m";
    PiecesOfMark();
    BytesOfMark();
    assert Pieces(s) == [Seq(s[..2])] + LEAK;
    BytesConcat([Seq(s[..2])], LEAK);
    assert Bytes([Seq(s[..2])]) == "";
  }

  lemma LastEscapeLeaks(spans: seq<Span>, c: Cursor)
    requires Separated(spans) && OnTrack(spans, c) && Within(spans, c.k + 1) && InSpan(spans, c.k)
    ensures Bytes(Pieces(Unparse(Walk([Byte(ESC)], spans, c)))) == "[27m"
  {
    var p, off := Byte(ESC), Seq(HL_OFF);
    var before := if Starts(spans, c) then [Seq(HL_ON)] else [];
    CursorAdvances(p, spans, c);
    assert Ends(spans, c);
    assert Walk([p][1..], spans, Advance(p, spans, c)) == [];
    assert Walk([p], spans, c) == Emit(p, spans, c) == before + [p, off];
    UnparseConcat(before, [p, off]);
    MarksAreStable();
    StableReparse(before, Unparse([p, off]));
    BytesConcat(before, Pieces(Unparse([p, off])));
    assert before != [] ==> before[1..] == [];
    assert Bytes(before) == "";
    LeakedBytes();
  }

  /** A lone escape that is highlighted swallows the escape of the closing mark: its place is taken by the rest of
      the mark, which becomes visible. */
  lemma {:induction false} WalkLeaks(ps: seq<Piece>, spans: seq<Span>, c: Cursor)
    requires WellCut(ps) && Separated(spans) && OnTrack(spans, c) && Within(spans, c.k + |Bytes(ps)|)
    requires EndsInEscape(ps) && InSpan(spans, c.k + |Bytes(ps)| - 1)
    ensures Bytes(ps) != ""
    ensures Bytes(Pieces(Unparse(Walk(ps, spans, c)))) == Bytes(ps)[..|Bytes(ps)| - 1] + "[27m"
  {
    hide Pieces, Unparse, Emit;
    if |ps| > 1 {
      var p, next := ps[0], Advance(ps[0], spans, c);
      CursorAdvances(p, spans, c);
      WalkLeaks(ps[1..], spans, next);
      EmittedThenRest(p, Walk(ps[1..], spans, next), spans, c);
      KeepsFront(Visible(p), Bytes(ps[1..]), "[27m");
    } else {
      assert ps == [Byte(ESC)] && ps[1..] == [] && |Bytes(ps)| == 1;
      LastEscapeLeaks(spans, c);
    }
  }

  lemma KeepsFront(a: string, b: string, c: string)
    requires b != ""
    ensures a + (b[..|b| - 1] + c) == (a + b)[..|a + b| - 1] + c
  {}

  lemma EmittedThenRest(p: Piece, rest: seq<Piece>, spans: seq<Span>, c: Cursor)
    requires Stable(p)
    ensures Bytes(Pieces(Unparse(Emit(p, spans, c) + rest))) == Visible(p) + Bytes(Pieces(Unparse(rest)))
  {
    UnparseConcat(Emit(p, spans, c), rest);
    StableEmit(p, spans, c);
    StableReparse(Emit(p, spans, c), Unparse(rest));
    BytesConcat(Emit(p, spans, c), Pieces(Unparse(rest)));
    EmitBytes(p, spans, c);
  }

  /** Where the one case applies, the escape character is gone and three bytes more than before are visible. */
  lemma HighlightedEscapeLeaks(styled: string, tokens: seq<string>)
    requires EscapeIsMatched(styled, tokens, true)
    ensures var plain := Plain(styled, true);
            plain != "" && Plain(Highlighted(styled, tokens, true), true) == plain[..|plain| - 1] + "[27m"
  {
    hide Walk, Pieces, Unparse, Bytes, Prepared, Covered, WellCut;
    SpansOfText(styled, tokens, true);
    WalkLeaks(Pieces(styled), Prepared(ToLower(Plain(styled, true)), tokens), START);
  }

  /** The shortest such input: an escape character on its own, searched for. */
  lemma LoneEscapeLeaks()
    ensures Plain([ESC], true) == [ESC]
    ensures Plain(Highlighted([ESC], [[ESC]], true), true) == "[27m"
  {
    var text, tokens := [ESC], [[ESC]];
    assert Pieces(text) == [Byte(ESC)] && Bytes([Byte(ESC)]) == [ESC] by {
      assert text[1..] == [] && [Byte(ESC)][1..] == [];
    }
    assert ToLower(text) == text;
    ScanFindsAll(text, text, 0, 0);
    assert text in tokens;
    CoveredByScan(text, tokens, 0);
    HighlightedEscapeLeaks(text, tokens);
  }

  /** Erasing the escape sequences from the result gives back the plain text, except exactly in that case: always, if
      ansi.Strip drops a lone escape character. */
  lemma PlainTextIsKept(styled: string, tokens: seq<string>, keepsEscape: bool)
    ensures Plain(Highlighted(styled, tokens, keepsEscape), keepsEscape) == Plain(styled, keepsEscape)
        <==> !EscapeIsMatched(styled, tokens, keepsEscape)
  {
    hide Walk, Pieces, Unparse, Render, Bytes, Prepared, Covered, EscapeIsMatched;
    if EscapeIsMatched(styled, tokens, keepsEscape) {
      EscapeIsKept(styled, tokens, keepsEscape);
      HighlightedEscapeLeaks(styled, tokens);
    } else {
      var fx := (t: string) => if t == HL_ON then TurnOn else if t == HL_OFF then TurnOff else Keep;
      HighlightShowsMatches(styled, tokens, keepsEscape, fx);
      RenderedBytes(Pieces(Highlighted(styled, tokens, keepsEscape)), false, fx);
    }
  }

  lemma EscapeIsKept(styled: string, tokens: seq<string>, keepsEscape: bool)
    requires EscapeIsMatched(styled, tokens, keepsEscape)
    ensures keepsEscape
  {}

  // ---- The text that is written ----

  /** What is written for one byte. */
  function ByteText(b: char, spans: seq<Span>, c: Cursor): string {
    (if Starts(spans, c) then HL_ON else "") + [b] + (if Ends(spans, c) then HL_OFF else "")
  }

  function WrittenText(s: string, spans: seq<Span>, c: Cursor): string { Unparse(Walk(Pieces(s), spans, c)) }

  lemma EmittedText(b: char, spans: seq<Span>, c: Cursor)
    ensures Unparse(Emit(Byte(b), spans, c)) == ByteText(b, spans, c)
  {
    var on, off := if Starts(spans, c) then [Seq(HL_ON)] else [], if Ends(spans, c) then [Seq(HL_OFF)] else [];
    UnparseConcat(on + [Byte(b)], off);
    UnparseConcat(on, [Byte(b)]);
    UnparseOne(Seq(HL_ON));
    UnparseOne(Seq(HL_OFF));
    UnparseOne(Byte(b));
  }

  lemma ByteFirst(s: string, rest: string, spans: seq<Span>, c: Cursor)
    requires s != "" && ESC !in s
    ensures WrittenText(s + rest, spans, c) ==
            ByteText(s[0], spans, c) + WrittenText(s[1..] + rest, spans, Advance(Byte(s[0]), spans, c))
    ensures s == [s[0]] + s[1..] && ESC !in s[1..]
  {
    ConcatTail(s, rest);
    assert s[0] in s;
    var p := Byte(s[0]);
    assert Pieces(s + rest) == [p] + Pieces(s[1..] + rest);
    EmittedText(s[0], spans, c);
    UnparseConcat(Emit(p, spans, c), Walk(Pieces(s[1..] + rest), spans, Advance(p, spans, c)));
  }

  /** Outside highlights, text without escape characters is copied. */
  lemma {:induction false} CopiedOutside(s: string, rest: string, spans: seq<Span>, c: Cursor)
    requires ESC !in s && !c.on && (c.mi < |spans| ==> c.k + |s| <= spans[c.mi].start)
    ensures WrittenText(s + rest, spans, c) == s + WrittenText(rest, spans, Cursor(c.k + |s|, c.mi, false))
  {
    hide WrittenText;
    if s == "" {
      assert s + rest == rest;
    } else {
      ByteFirst(s, rest, spans, c);
      assert ByteText(s[0], spans, c) == [s[0]];
      var next := Cursor(c.k + 1, c.mi, false);
      CopiedOutside(s[1..], rest, spans, next);
      ConcatAssoc([s[0]], s[1..], WrittenText(rest, spans, Cursor(c.k + |s|, c.mi, false)));
    }
  }

  /** Inside a highlight, up to its end. */
  lemma {:induction false} CopiedInside(s: string, rest: string, spans: seq<Span>, c: Cursor)
    requires ESC !in s && s != "" && c.on && c.mi < |spans| && c.k + |s| == spans[c.mi].end
    ensures WrittenText(s + rest, spans, c)
         == s + (HL_OFF + WrittenText(rest, spans, Cursor(c.k + |s|, c.mi + 1, false)))
    decreases |s|
  {
    hide WrittenText;
    var tail := HL_OFF + WrittenText(rest, spans, Cursor(c.k + |s|, c.mi + 1, false));
    ByteFirst(s, rest, spans, c);
    if |s| == 1 {
      assert s[1..] == "" && "" + rest == rest;
      assert ByteText(s[0], spans, c) == s + HL_OFF;
      ConcatAssoc(s, HL_OFF, WrittenText(rest, spans, Cursor(c.k + |s|, c.mi + 1, false)));
    } else {
      assert ByteText(s[0], spans, c) == [s[0]];
      CopiedInside(s[1..], rest, spans, Cursor(c.k + 1, c.mi, true));
      ConcatAssoc([s[0]], s[1..], tail);
    }
  }

  /** The whole match, with a mark in front of it and one behind it. */
  lemma MatchIsMarked(s: string, rest: string, spans: seq<Span>, c: Cursor)
    requires ESC !in s && s != "" && !c.on && c.mi < |spans| && spans[c.mi] == Span(c.k, c.k + |s|)
    ensures WrittenText(s + rest, spans, c)
         == HL_ON + (s + (HL_OFF + WrittenText(rest, spans, Cursor(c.k + |s|, c.mi + 1, false))))
  {
    hide WrittenText;
    var tail := HL_OFF + WrittenText(rest, spans, Cursor(c.k + |s|, c.mi + 1, false));
    ByteFirst(s, rest, spans, c);
    if |s| == 1 {
      assert s[1..] == "" && "" + rest == rest;
      assert ByteText(s[0], spans, c) == HL_ON + s + HL_OFF;
      Nested(HL_ON, s, HL_OFF, WrittenText(rest, spans, Cursor(c.k + |s|, c.mi + 1, false)));
    } else {
      assert ByteText(s[0], spans, c) == HL_ON + [s[0]];
      CopiedInside(s[1..], rest, spans, Cursor(c.k + 1, c.mi, true));
      ConcatAssoc(HL_ON, [s[0]], s[1..] + tail);
      ConcatAssoc([s[0]], s[1..], tail);
    }
  }

  lemma HighlightedText(styled: string, tokens: seq<string>, keepsEscape: bool)
    ensures Highlighted(styled, tokens, keepsEscape)
         == WrittenText(styled, Prepared(ToLower(Plain(styled, keepsEscape)), tokens), START)
  {}

  lemma NothingLeft(spans: seq<Span>, c: Cursor)
    requires !c.on
    ensures WrittenText("", spans, c) == ""
  {}

  lemma {:induction false} PlainOfText(s: string, keepsEscape: bool)
    requires ESC !in s
    ensures Plain(s, keepsEscape) == s
  {
    if s != "" {
      assert s[0] in s && s[|s| - 1] in s;
      BytesOfText(s);
    }
  }

  lemma {:induction false} BytesOfText(s: string)
    requires ESC !in s
    ensures Bytes(Pieces(s)) == s
  {
    if s != "" {
      assert s[0] in s;
      BytesOfText(s[1..]);
      HeadTail(s);
      assert Pieces(s)[1..] == Pieces(s[1..]);
    }
  }

  lemma OneSpanIsMarked(before: string, part: string, after: string)
    requires ESC !in before && ESC !in part && ESC !in after && part != ""
    ensures WrittenText(before + part + after, [Span(|before|, |before| + |part|)], START)
         == before + (HL_ON + (part + (HL_OFF + after)))
  {
    hide WrittenText;
    var n, m := |before|, |before| + |part|;
    var spans := [Span(n, m)];
    ConcatAssoc(before, part, after);
    CopiedOutside(before, part + after, spans, START);
    MatchIsMarked(part, after, spans, Cursor(n, 0, false));
    CopiedOutside(after, "", spans, Cursor(m, 1, false));
    NothingLeft(spans, Cursor(m + |after|, 1, false));
    assert after + "" == after;
  }

  lemma PartIsFound(before: string, part: string, after: string, word: string)
    requires SameText(part, word)
    ensures |part| == |word| && FoundAt(before + part + after, word, |before|)
  {
    var text := before + part + after;
    assert text[|before|..|before| + |word|] == part;
  }

  lemma NoEscape(a: string, b: string, c: string)
    requires ESC !in a && ESC !in b && ESC !in c
    ensures ESC !in a + b + c
  {}

  /** A word that stands in a text without escape characters once, in whatever case, is put between the two marks,
      and the rest of the text is as it was. */
  lemma OnlyMatchIsMarked(before: string, part: string, after: string, word: string, keepsEscape: bool)
    requires ESC !in before && ESC !in part && ESC !in after
    requires word != "" && SameText(part, word)
    requires forall q: nat :: FoundAt(before + part + after, word, q) ==> q == |before|
    ensures Highlighted(before + part + after, [word], keepsEscape)
         == before + ("\U{1B}[7m" + (part + ("\U{1B}[27m" + after)))
  {
    hide FoundAt, SameText, Highlighted, Plain, Prepared, WrittenText, ToLower;
    var text := before + part + after;
    NoEscape(before, part, after);
    PartIsFound(before, part, after, word);
    PlainOfText(text, keepsEscape);
    OnlyMatch(text, word, |before|);
    HighlightedText(text, [word], keepsEscape);
    OneSpanIsMarked(before, part, after);
  }
}
