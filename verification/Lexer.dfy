/** The text layer of encoding/json: the tokens of a text, separators included, and those of a document. */
module Lexer {
  import opened Json
  import opened Text

  /** Mark is one of the six structural characters; Bad stands for a token that the scanner rejects or does not see
      the end of. */
  datatype Token = Mark(c: char) | String(body: seq<Chunk>) | Numeral(digits: string) | Constant(word: string) | Bad

  // ---- The tokens of a document ----

  function CommaIf(started: bool): seq<Token> { if started then [Mark(',')] else [] }

  /** The tokens of v; a special float counts as the string that names it. */
  function Tokens(v: Value): seq<Token>
    decreases v, 0
  {
    match v
    case Word(w) => [Constant(w)]
    case Number(s) => [Numeral(s)]
    case Str(body) => [String(body)]
    case Float(f) => [String(Chars(Name(f)))]
    case Array(_, items) => [Mark('[')] + TokensOfItems(items, false) + [Mark(']')]
    case Object(_, members) => [Mark('{')] + TokensOfMembers(members, false) + [Mark('}')]
    case Spaced(_, value, _) => Tokens(value)
  }

  /** The tokens of items, after others when the list has started. */
  function TokensOfItems(items: seq<Value>, started: bool): seq<Token>
    decreases items, 1
  {
    if items == [] then [] else CommaIf(started) + Tokens(items[0]) + TokensOfItems(items[1..], true)
  }

  function TokensOfMembers(members: seq<Member>, started: bool): seq<Token>
    decreases members, 1
  {
    if members == [] then []
    else
      CommaIf(started) + [String(members[0].key), Mark(':')] + Tokens(members[0].value)
      + TokensOfMembers(members[1..], true)
  }

  // ---- The tokens of a text ----

  /** White space (RFC 8259 section 2). */
  predicate IsBlank(c: char) { c == ' ' || c == '\t' || c == '\n' || c == '\r' }

  predicate IsMark(c: char) { c == '{' || c == '}' || c == '[' || c == ']' || c == ',' || c == ':' }

  predicate IsHex(c: char) { '0' <= c <= '9' || 'a' <= c <= 'f' || 'A' <= c <= 'F' }

  /** What may follow a backslash (RFC 8259 section 7). */
  predicate IsEscape(s: string) {
    s != [] && (s[0] in "\"\\/bfnrt" || (s[0] == 'u' && |s| > 4 && forall i :: 1 <= i <= 4 ==> IsHex(s[i])))
  }

  /** A string body up to its closing quote, and the text after the quote; None when it is malformed or not closed. */
  function ReadBody(s: string): (r: Option<(seq<Chunk>, string)>)
    ensures r.Some? ==> |r.value.1| < |s|
  {
    if s == [] || s[0] < ' ' then None
    else if s[0] == '"' then Some(([], s[1..]))
    else if s[0] != '\\' then AddChunk(Char(s[0]), ReadBody(s[1..]))
    else if !IsEscape(s[1..]) then None
    else AddChunk(Escape(s[1]), ReadBody(s[2..]))
  }

  function AddChunk(chunk: Chunk, read: Option<(seq<Chunk>, string)>): Option<(seq<Chunk>, string)> {
    if read.Some? then Some(([chunk] + read.value.0, read.value.1)) else None
  }

  /** The states of a number (RFC 8259 section 6), named by what has been read last. */
  datatype Part = First | Minus | Zero | Whole | Point | Fraction | Exponent | Sign | Power

  predicate IsDigit(c: char) { '0' <= c <= '9' }

  function AfterMinus(c: char): Option<Part> {
    if c == '0' then Some(Zero) else if IsDigit(c) then Some(Whole) else None
  }

  function AfterFraction(c: char): Option<Part> { if c == 'e' || c == 'E' then Some(Exponent) else None }

  function AfterZero(c: char): Option<Part> { if c == '.' then Some(Point) else AfterFraction(c) }

  function Step(part: Part, c: char): Option<Part> {
    match part
    case First => if c == '-' then Some(Minus) else AfterMinus(c)
    case Minus => AfterMinus(c)
    case Zero => AfterZero(c)
    case Whole => if IsDigit(c) then Some(Whole) else AfterZero(c)
    case Point => if IsDigit(c) then Some(Fraction) else None
    case Fraction => if IsDigit(c) then Some(Fraction) else AfterFraction(c)
    case Exponent => if c == '+' || c == '-' then Some(Sign) else if IsDigit(c) then Some(Power) else None
    case Sign => if IsDigit(c) then Some(Power) else None
    case Power => if IsDigit(c) then Some(Power) else None
  }

  predicate MayEnd(part: Part) { part.Zero? || part.Whole? || part.Fraction? || part.Power? }

  /** How far a number reaches into the text; None when it stops where a number may not end. */
  function NumberLen(s: string, part: Part): (n: Option<nat>)
    ensures n.Some? ==> n.value <= |s| && (part.First? ==> n.value > 0)
  {
    if s == [] || Step(part, s[0]).None? then if MayEnd(part) then Some(0) else None
    else
      var n := NumberLen(s[1..], Step(part, s[0]).value);
      if n.None? then None else Some(n.value + 1)
  }

  predicate IsNumeral(s: string) { NumberLen(s, First) == Some(|s|) }

  function WordAt(s: string): (w: Option<string>)
    ensures w.Some? ==> w.value != "" && w.value <= s
  {
    if "null" <= s then Some("null")
    else if "true" <= s then Some("true")
    else if "false" <= s then Some("false")
    else None
  }

  /** The tokens of a text, up to the first one that is malformed. */
  function Lex(s: string): seq<Token>
    decreases |s|
  {
    if s == [] then []
    else if IsBlank(s[0]) then Lex(s[1..])
    else if IsMark(s[0]) then [Mark(s[0])] + Lex(s[1..])
    else if s[0] == '"' then
      match ReadBody(s[1..])
      case None => [Bad]
      case Some(read) => [String(read.0)] + Lex(read.1)
    else if WordAt(s).Some? then [Constant(WordAt(s).value)] + Lex(s[|WordAt(s).value|..])
    else
      match NumberLen(s, First)
      case None => [Bad]
      case Some(n) => [Numeral(s[..n])] + Lex(s[n..])
  }

  // ---- Documents that are JSON ----

  /** Only escapes and characters that RFC 8259 section 7 allows. */
  predicate IsText(body: seq<Chunk>) {
    body == [] ||
    (&& (match body[0]
         case Char(c) => ' ' <= c
         case Escape(c) => IsEscape([c] + PrintBody(body[1..])))
     && IsText(body[1..]))
  }

  /** Every number and string of v is one of JSON. */
  predicate IsJson(v: Value)
    decreases v, 0
  {
    match v
    case Number(s) => IsNumeral(s)
    case Str(body) => IsText(body)
    case Array(_, items) => AllJson(items)
    case Object(_, members) => MembersJson(members)
    case Spaced(_, value, _) => IsJson(value)
    case _ => true
  }

  predicate AllJson(items: seq<Value>)
    decreases items, 1
  {
    items == [] || (IsJson(items[0]) && AllJson(items[1..]))
  }

  predicate MembersJson(members: seq<Member>)
    decreases members, 1
  {
    members == [] || (IsText(members[0].key) && IsJson(members[0].value) && MembersJson(members[1..]))
  }

  lemma NameIsText(f: Special)
    ensures IsText(Chars(Name(f)))
  {
    assert Name(f) in ["-Inf", "Inf", "NaN"];
    PlainIsText(Name(f));
  }

  lemma {:induction false} PlainIsText(s: string)
    requires forall i :: 0 <= i < |s| ==> ' ' <= s[i]
    ensures IsText(Chars(s))
  {
    if s != [] {
      PlainIsText(s[1..]);
      assert Chars(s)[1..] == Chars(s[1..]);
    }
  }

  lemma {:induction false} NamedIsJson(v: Value)
    requires IsJson(v)
    ensures IsJson(NameFloats(v))
    decreases v, 0
  {
    match v
    case Float(f) => NameIsText(f);
    case Array(_, items) => NamedItemsAreJson(items);
    case Object(_, members) => NamedMembersAreJson(members);
    case Spaced(_, value, _) => NamedIsJson(value);
    case _ =>
  }

  lemma {:induction false} NamedItemsAreJson(items: seq<Value>)
    requires AllJson(items)
    ensures AllJson(NameFloatsItems(items))
    decreases items, 1
  {
    if items != [] {
      NamedIsJson(items[0]);
      NamedItemsAreJson(items[1..]);
      assert NameFloatsItems(items)[1..] == NameFloatsItems(items[1..]);
    }
  }

  lemma {:induction false} NamedMembersAreJson(members: seq<Member>)
    requires MembersJson(members)
    ensures MembersJson(NameFloatsMembers(members))
    decreases members, 1
  {
    if members != [] {
      NamedIsJson(members[0].value);
      NamedMembersAreJson(members[1..]);
      assert NameFloatsMembers(members)[1..] == NameFloatsMembers(members[1..]);
    }
  }

  // ---- Lexing printed text ----

  /** Text that a number cannot continue into. */
  predicate Breaks(rest: string) { rest == [] || IsBlank(rest[0]) || IsMark(rest[0]) }

  /** In front of any text (any that breaks off a scalar, when tight), text yields the tokens ts. */
  ghost predicate Lexes(text: string, ts: seq<Token>, tight: bool) {
    forall rest :: (tight ==> Breaks(rest)) ==> Lex(text + rest) == ts + Lex(rest)
  }

  lemma LexesConcat(a: string, ts: seq<Token>, tightA: bool, b: string, us: seq<Token>, tightB: bool)
    requires Lexes(a, ts, tightA) && Lexes(b, us, tightB)
    requires tightA ==> if b == [] then tightB else Breaks(b)
    ensures Lexes(a + b, ts + us, tightB)
  {
    hide Lex;
    forall rest | tightB ==> Breaks(rest) ensures Lex((a + b) + rest) == (ts + us) + Lex(rest) {
      ConcatAssoc(a, b, rest);
      assert Lex(b + rest) == us + Lex(rest);
      assert tightA ==> Breaks(b + rest);
      assert Lex(a + (b + rest)) == ts + Lex(b + rest);
      ConcatAssoc(ts, us, Lex(rest));
    }
  }

  /** Text that is not tight keeps its tokens in front of any other text. */
  lemma LexesThen(a: string, ts: seq<Token>, b: string, us: seq<Token>, tight: bool)
    requires Lexes(a, ts, false) && Lexes(b, us, tight)
    ensures Lexes(a + b, ts + us, tight)
  {
    LexesConcat(a, ts, false, b, us, tight);
  }

  lemma LexesTight(text: string, ts: seq<Token>)
    requires Lexes(text, ts, false)
    ensures Lexes(text, ts, true)
  {}

  lemma {:induction false} GapLexes(s: string)
    requires IsGap(s)
    ensures Lexes(s, [], false)
  {
    if s == [] {
      forall rest ensures Lex(s + rest) == [] + Lex(rest) {
        assert s + rest == rest && [] + Lex(rest) == Lex(rest);
      }
    } else {
      GapLexes(s[1..]);
      forall rest ensures Lex(s + rest) == [] + Lex(rest) {
        ConcatTail(s, rest);
        assert Lex(s[1..] + rest) == [] + Lex(rest);
      }
    }
  }

  lemma MarkLexes(c: char)
    requires IsMark(c)
    ensures Lexes([c], [Mark(c)], false)
  {
    forall rest ensures Lex([c] + rest) == [Mark(c)] + Lex(rest) {
      ConcatTail([c], rest);
      assert [c][1..] + rest == rest;
    }
  }

  lemma {:induction false} NumberEnds(s: string, part: Part, rest: string)
    requires NumberLen(s, part) == Some(|s|) && Breaks(rest)
    ensures NumberLen(s + rest, part) == Some(|s|)
  {
    if s == [] {
      assert s + rest == rest;
    } else {
      ConcatTail(s, rest);
      NumberEnds(s[1..], Step(part, s[0]).value, rest);
    }
  }

  lemma NumeralLexes(s: string)
    requires IsNumeral(s)
    ensures Lexes(s, [Numeral(s)], true)
  {
    forall rest | Breaks(rest) ensures Lex(s + rest) == [Numeral(s)] + Lex(rest) {
      NumberEnds(s, First, rest);
      assert Step(First, s[0]).Some? && (s + rest)[0] == s[0];
      assert WordAt(s + rest) == None;
      assert (s + rest)[..|s|] == s && (s + rest)[|s|..] == rest;
    }
  }

  lemma WordIsRead(w: string, rest: string)
    requires w == "null" || w == "true" || w == "false"
    ensures var s := w + rest; WordAt(s) == Some(w) && !IsBlank(s[0]) && !IsMark(s[0]) && s[0] != '"'
  {
    var s := w + rest;
    assert w <= s && s[0] == w[0];
  }

  lemma WordLexes(w: string)
    requires w == "null" || w == "true" || w == "false"
    ensures Lexes(w, [Constant(w)], true)
  {
    hide WordAt;
    forall rest ensures Lex(w + rest) == [Constant(w)] + Lex(rest) {
      WordIsRead(w, rest);
      assert (w + rest)[|w|..] == rest;
    }
  }

  lemma ReadChar(c: char, text: string)
    requires ' ' <= c && c != '"' && c != '\\'
    ensures ReadBody([c] + text) == AddChunk(Char(c), ReadBody(text))
  {
    assert ([c] + text)[1..] == text;
  }

  lemma ReadEscape(c: char, text: string)
    requires IsEscape([c] + text)
    ensures ReadBody(['\\', c] + text) == AddChunk(Escape(c), ReadBody(text))
  {
    hide IsEscape;
    var s := ['\\', c] + text;
    assert s[1..] == [c] + text && s[2..] == text;
  }

  lemma EscapeStays(s: string, rest: string)
    requires IsEscape(s)
    ensures IsEscape(s + rest)
  {
    assert forall i :: 0 <= i < |s| ==> (s + rest)[i] == s[i];
  }

  lemma ReadChunk(body: seq<Chunk>, rest: string)
    requires body != [] && IsBody(body) && IsText(body)
    ensures var text := PrintBody(body[1..]) + rest;
            ReadBody(PrintChunk(body[0]) + text) == AddChunk(body[0], ReadBody(text))
  {
    hide ReadBody, IsEscape, PrintBody;
    var more := PrintBody(body[1..]);
    match body[0]
    case Char(c) => ReadChar(c, more + rest);
    case Escape(c) =>
      EscapeStays([c] + more, rest);
      ConcatAssoc([c], more, rest);
      ReadEscape(c, more + rest);
  }

  lemma {:induction false} ReadPrintedBody(body: seq<Chunk>, rest: string)
    requires IsBody(body) && IsText(body)
    ensures ReadBody(PrintBody(body) + (['"'] + rest)) == Some((body, rest))
  {
    var tail := ['"'] + rest;
    if body == [] {
      assert PrintBody(body) + tail == tail && tail[1..] == rest;
    } else {
      ReadPrintedBody(body[1..], rest);
      ConcatAssoc(PrintChunk(body[0]), PrintBody(body[1..]), tail);
      ReadChunk(body, tail);
      HeadTail(body);
    }
  }

  lemma QuotedLexes(body: seq<Chunk>)
    requires IsBody(body) && IsText(body)
    ensures Lexes(Quoted(body), [String(body)], false)
  {
    hide ReadBody, IsText, PrintBody;
    forall rest ensures Lex(Quoted(body) + rest) == [String(body)] + Lex(rest) {
      var s, tail := Quoted(body) + rest, PrintBody(body) + (['"'] + rest);
      assert s[0] == '"' && s[1..] == tail;
      ReadPrintedBody(body, rest);
    }
  }

  lemma BracketedLexes(open: char, gap: string, text: string, ts: seq<Token>, close: char)
    requires IsMark(open) && IsMark(close) && IsGap(gap) && Lexes(text, ts, true)
    ensures Lexes([open] + gap + text + [close], [Mark(open)] + ts + [Mark(close)], true)
  {
    hide Lexes;
    MarkLexes(open);
    MarkLexes(close);
    GapLexes(gap);
    LexesThen([open], [Mark(open)], gap, [], false);
    assert [Mark(open)] + [] == [Mark(open)];
    LexesThen([open] + gap, [Mark(open)], text, ts, true);
    LexesConcat([open] + gap + text, [Mark(open)] + ts, true, [close], [Mark(close)], false);
    LexesTight([open] + gap + text + [close], [Mark(open)] + ts + [Mark(close)]);
  }

  lemma SpacedLexes(before: string, text: string, ts: seq<Token>, after: string)
    requires IsGap(before) && IsGap(after) && Lexes(text, ts, true)
    ensures Lexes(before + text + after, ts, true)
  {
    hide Lexes;
    GapLexes(before);
    GapLexes(after);
    LexesTight(after, []);
    LexesThen(before, [], text, ts, true);
    assert [] + ts == ts && ts + [] == ts;
    LexesConcat(before + text, ts, true, after, [], true);
  }

  lemma ListLexes(text: string, ts: seq<Token>, more: string, us: seq<Token>)
    requires Lexes(text, ts, true) && Lexes(more, us, true)
    ensures Lexes(text + ([','] + more), ts + ([Mark(',')] + us), true)
  {
    hide Lexes;
    MarkLexes(',');
    LexesThen([','], [Mark(',')], more, us, true);
    LexesConcat(text, ts, true, [','] + more, [Mark(',')] + us, true);
  }

  lemma EmptyLexes()
    ensures Lexes("", [], true)
  {
    GapLexes("");
    LexesTight("", []);
  }

  lemma StrLexes(body: seq<Chunk>)
    requires IsBody(body) && IsText(body)
    ensures Lexes(Print(Str(body)), Tokens(Str(body)), true)
  {
    QuotedLexes(body);
    LexesTight(Quoted(body), [String(body)]);
  }

  /** The printing of a standard document yields the document's tokens. */
  lemma {:induction false} ValueLexes(v: Value)
    requires Wf(v) && FloatFree(v) && IsJson(v)
    ensures Lexes(Print(v), Tokens(v), true)
    decreases v, 0
  {
    hide Lexes;
    match v
    case Word(w) => WordLexes(w);
    case Number(s) => NumeralLexes(s);
    case Str(body) => StrLexes(body);
    case Float(_) =>
    case Array(gap, items) =>
      ItemsLex(items);
      BracketedLexes('[', gap, PrintItems(items), TokensOfItems(items, false), ']');
    case Object(gap, members) =>
      MembersLex(members);
      BracketedLexes('{', gap, PrintMembers(members), TokensOfMembers(members, false), '}');
    case Spaced(before, value, after) =>
      ValueLexes(value);
      SpacedLexes(before, Print(value), Tokens(value), after);
  }

  lemma ItemsStarted(items: seq<Value>)
    requires items != []
    ensures TokensOfItems(items, true) == [Mark(',')] + TokensOfItems(items, false)
  {
    assert CommaIf(false) + Tokens(items[0]) == Tokens(items[0]);
    ConcatAssoc([Mark(',')], Tokens(items[0]), TokensOfItems(items[1..], true));
  }

  lemma {:induction false} ItemsLex(items: seq<Value>)
    requires WfItems(items) && FloatFreeItems(items) && AllJson(items)
    ensures Lexes(PrintItems(items), TokensOfItems(items, false), true)
    decreases items, 1
  {
    hide Lexes;
    if items == [] {
      EmptyLexes();
    } else {
      var text, ts := Print(items[0]), Tokens(items[0]);
      ValueLexes(items[0]);
      assert CommaIf(false) + ts == ts;
      if |items| == 1 {
        assert items[1..] == [] && text + "" == text && ts + [] == ts;
      } else {
        ItemsLex(items[1..]);
        ItemsStarted(items[1..]);
        ListLexes(text, ts, PrintItems(items[1..]), TokensOfItems(items[1..], false));
      }
    }
  }

  lemma KeyLexes(m: Member)
    requires IsGap(m.before) && IsBody(m.key) && IsText(m.key) && IsGap(m.gap)
    ensures Lexes(PrintKey(m), [String(m.key), Mark(':')], false)
  {
    hide Lexes;
    var colon, key := m.gap + [':'], [String(m.key)];
    GapLexes(m.before);
    QuotedLexes(m.key);
    GapLexes(m.gap);
    MarkLexes(':');
    LexesThen(m.gap, [], [':'], [Mark(':')], false);
    LexesThen(Quoted(m.key), key, colon, [] + [Mark(':')], false);
    assert [] + (key + ([] + [Mark(':')])) == [String(m.key), Mark(':')];
    LexesThen(m.before, [], Quoted(m.key) + colon, key + ([] + [Mark(':')]), false);
  }

  lemma MembersStarted(members: seq<Member>)
    requires members != []
    ensures TokensOfMembers(members, true) == [Mark(',')] + TokensOfMembers(members, false)
  {
    var key, value := [String(members[0].key), Mark(':')], Tokens(members[0].value);
    assert CommaIf(false) + key + value == key + value;
    assert [Mark(',')] + key + value == [Mark(',')] + (key + value);
    ConcatAssoc([Mark(',')], key + value, TokensOfMembers(members[1..], true));
  }

  lemma MemberLexes(m: Member, text: string, ts: seq<Token>)
    requires IsGap(m.before) && IsBody(m.key) && IsText(m.key) && IsGap(m.gap) && Lexes(text, ts, true)
    ensures Lexes(PrintKey(m) + text, [String(m.key), Mark(':')] + ts, true)
  {
    KeyLexes(m);
    LexesThen(PrintKey(m), [String(m.key), Mark(':')], text, ts, true);
  }

  lemma {:induction false} MembersLex(members: seq<Member>)
    requires WfMembers(members) && FloatFreeMembers(members) && MembersJson(members)
    ensures Lexes(PrintMembers(members), TokensOfMembers(members, false), true)
    decreases members, 1
  {
    hide Lexes;
    if members == [] {
      EmptyLexes();
    } else {
      var m := members[0];
      var text, ts := PrintKey(m) + Print(m.value), [String(m.key), Mark(':')] + Tokens(m.value);
      ValueLexes(m.value);
      MemberLexes(m, Print(m.value), Tokens(m.value));
      assert CommaIf(false) + [String(m.key), Mark(':')] + Tokens(m.value) == ts;
      if |members| == 1 {
        assert members[1..] == [] && text + "" == text && ts + [] == ts;
      } else {
        MembersLex(members[1..]);
        MembersStarted(members[1..]);
        ListLexes(text, ts, PrintMembers(members[1..]), TokensOfMembers(members[1..], false));
      }
    }
  }

  /** Lexing undoes printing: the tokens of a standard document's text are the document's. */
  lemma LexUndoesPrint(v: Value)
    requires Wf(v) && FloatFree(v) && IsJson(v)
    ensures Lex(Print(v)) == Tokens(v)
  {
    ValueLexes(v);
    assert Lex(Print(v) + []) == Tokens(v) + Lex([]);
    assert Print(v) + [] == Print(v) && Tokens(v) + [] == Tokens(v);
  }

  // ---- The grammar of numbers and escapes ----

  predicate AllDigits(s: string) { forall i :: 0 <= i < |s| ==> s[i] in DIGITS }

  /** int of RFC 8259 section 6: no leading zero. */
  predicate IsInteger(s: string) { s == "0" || (s != "" && s[0] != '0' && AllDigits(s)) }

  predicate IsFraction(s: string) { s == "" || (|s| > 1 && s[0] == '.' && AllDigits(s[1..])) }

  predicate IsSigned(s: string) {
    s != "" && (AllDigits(s) || (|s| > 1 && (s[0] == '+' || s[0] == '-') && AllDigits(s[1..])))
  }

  predicate IsPower(s: string) { s == "" || ((s[0] == 'e' || s[0] == 'E') && IsSigned(s[1..])) }

  /** The whole of s is read from this state on. */
  predicate Accepts(s: string, part: Part) { NumberLen(s, part) == Some(|s|) }

  lemma AcceptsStep(s: string, part: Part)
    ensures Accepts(s, part) <==>
            if s == "" then MayEnd(part) else Step(part, s[0]).Some? && Accepts(s[1..], Step(part, s[0]).value)
  {}

  lemma DigitsStep(s: string)
    requires s != ""
    ensures AllDigits(s) <==> IsDigit(s[0]) && AllDigits(s[1..])
  {
    CapitalsAndDigits(s[0]);
    if AllDigits(s[1..]) && s[0] in DIGITS {
      forall i | 0 <= i < |s| ensures s[i] in DIGITS {
        if i > 0 { assert s[i] == s[1..][i - 1]; }
      }
    }
  }

  lemma {:induction false} PowerIff(s: string)
    ensures Accepts(s, Power) <==> AllDigits(s)
  {
    AcceptsStep(s, Power);
    if s != "" {
      hide AllDigits;
      DigitsStep(s);
      PowerIff(s[1..]);
    }
  }

  lemma ExponentIff(s: string)
    ensures Accepts(s, Exponent) <==> IsSigned(s)
  {
    hide Accepts, AllDigits;
    AcceptsStep(s, Exponent);
    if s != "" {
      AcceptsStep(s[1..], Sign);
      DigitsStep(s);
      PowerIff(s[1..]);
      if |s| > 1 {
        DigitsStep(s[1..]);
        PowerIff(s[1..][1..]);
      }
    }
  }

  /** The rest of a number from where an exponent may begin. */
  lemma PowerPart(s: string)
    ensures s == "" || (AfterFraction(s[0]).Some? && Accepts(s[1..], Exponent)) <==> IsPower(s)
  {
    if s != "" { ExponentIff(s[1..]); }
  }

  /** Digits up to k, then an exponent or nothing. */
  predicate DigitsUpTo(s: string, k: nat) { k <= |s| && AllDigits(s[..k]) && IsPower(s[k..]) }

  /** A fraction up to k, then an exponent or nothing. */
  predicate FractionUpTo(s: string, k: nat) { k <= |s| && IsFraction(s[..k]) && IsPower(s[k..]) }

  /** Digits up to j, then the rest of a number. */
  ghost predicate WholeUpTo(s: string, j: nat) {
    j <= |s| && AllDigits(s[..j]) && exists k: nat :: FractionUpTo(s[j..], k)
  }

  lemma DigitsUpToStep(s: string, k: nat)
    requires s != ""
    ensures DigitsUpTo(s, k + 1) <==> IsDigit(s[0]) && DigitsUpTo(s[1..], k)
    ensures DigitsUpTo(s, 0) <==> IsPower(s)
  {
    hide IsPower, AllDigits;
    if k < |s| {
      DigitsStep(s[..k + 1]);
      assert s[..k + 1][1..] == s[1..][..k] && s[k + 1..] == s[1..][k..];
    }
    assert s[0..] == s && AllDigits(s[..0]) by { assert s[..0] == ""; NoDigits(); }
  }

  lemma NoDigits()
    ensures AllDigits("")
  {}

  lemma EmptyEnds()
    ensures DigitsUpTo("", 0) && FractionUpTo("", 0)
  {
    assert ""[..0] == "" && ""[0..] == "";
  }

  lemma {:induction false} FractionIff(s: string)
    ensures Accepts(s, Fraction) <==> exists k: nat :: DigitsUpTo(s, k)
  {
    hide Accepts, DigitsUpTo, IsPower;
    AcceptsStep(s, Fraction);
    PowerPart(s);
    if s == "" {
      assert DigitsUpTo(s, 0) by { EmptyEnds(); }
    } else {
      FractionIff(s[1..]);
      DigitsUpToStep(s, 0);
      if k: nat :| DigitsUpTo(s, k) {
        if k > 0 { DigitsUpToStep(s, k - 1); }
      }
      if k: nat :| DigitsUpTo(s[1..], k) {
        DigitsUpToStep(s, k);
      }
    }
  }

  lemma PointIff(s: string)
    ensures Accepts(s, Point) <==> exists k: nat :: k > 0 && DigitsUpTo(s, k)
  {
    hide Accepts, DigitsUpTo, IsPower;
    AcceptsStep(s, Point);
    if s == "" {
      forall k: nat | k > 0 ensures !DigitsUpTo(s, k) { NoRoom(s, k); }
    } else {
      FractionIff(s[1..]);
      if k: nat :| k > 0 && DigitsUpTo(s, k) {
        DigitsUpToStep(s, k - 1);
      }
      if k: nat :| DigitsUpTo(s[1..], k) {
        DigitsUpToStep(s, k);
      }
    }
  }

  lemma NoRoom(s: string, k: nat)
    requires k > |s|
    ensures !DigitsUpTo(s, k)
  {}

  lemma FractionUpToStep(s: string, k: nat)
    requires s != ""
    ensures FractionUpTo(s, k + 1) <==> s[0] == '.' && k > 0 && DigitsUpTo(s[1..], k)
    ensures FractionUpTo(s, 0) <==> IsPower(s)
  {
    hide IsPower, AllDigits;
    if k < |s| {
      assert s[..k + 1][1..] == s[1..][..k] && s[k + 1..] == s[1..][k..];
    }
    assert s[0..] == s && s[..0] == "";
  }

  lemma ZeroIff(s: string)
    ensures Accepts(s, Zero) <==> exists k: nat :: FractionUpTo(s, k)
  {
    hide Accepts, DigitsUpTo, FractionUpTo, IsPower;
    AcceptsStep(s, Zero);
    PowerPart(s);
    EmptyEnds();
    if s != "" {
      PointIff(s[1..]);
      FractionUpToStep(s, 0);
      if k: nat :| FractionUpTo(s, k) {
        if k > 0 { FractionUpToStep(s, k - 1); }
      }
      if k: nat :| k > 0 && DigitsUpTo(s[1..], k) {
        FractionUpToStep(s, k);
      }
    }
  }

  lemma WholeUpToStep(s: string, j: nat)
    requires s != ""
    ensures WholeUpTo(s, j + 1) <==> IsDigit(s[0]) && WholeUpTo(s[1..], j)
    ensures WholeUpTo(s, 0) <==> exists k: nat :: FractionUpTo(s, k)
  {
    hide FractionUpTo, AllDigits;
    if j < |s| {
      DigitsStep(s[..j + 1]);
      assert s[..j + 1][1..] == s[1..][..j] && s[j + 1..] == s[1..][j..];
    }
    assert s[0..] == s && AllDigits(s[..0]) by { assert s[..0] == ""; NoDigits(); }
  }

  lemma {:induction false} WholeIff(s: string)
    ensures Accepts(s, Whole) <==> exists j: nat :: WholeUpTo(s, j)
  {
    hide Accepts, WholeUpTo, FractionUpTo;
    AcceptsStep(s, Whole);
    if s == "" {
      assert WholeUpTo(s, 0) by { NothingMore(); }
    } else {
      ZeroIff(s);
      AcceptsStep(s, Zero);
      WholeIff(s[1..]);
      WholeUpToStep(s, 0);
      if j: nat :| WholeUpTo(s, j) {
        if j > 0 { WholeUpToStep(s, j - 1); }
      }
      if j: nat :| WholeUpTo(s[1..], j) {
        WholeUpToStep(s, j);
      }
    }
  }

  lemma NothingMore()
    ensures WholeUpTo("", 0)
  {
    EmptyEnds();
    assert ""[..0] == "" && ""[0..] == "";
  }

  /** An integer, then a fraction or nothing, then an exponent or nothing. */
  ghost predicate IsUnsigned(s: string) {
    exists whole, fraction, power ::
      IsInteger(whole) && IsFraction(fraction) && IsPower(power) && s == whole + fraction + power
  }

  lemma UnsignedParts(s: string, whole: string, fraction: string, power: string)
    requires IsInteger(whole) && IsFraction(fraction) && IsPower(power) && s == whole + fraction + power
    ensures Accepts(s, Minus)
  {
    hide Accepts, IsFraction, IsPower;
    var rest := s[1..];
    AcceptsStep(s, Minus);
    assert rest == whole[1..] + (fraction + power) && s[0] == whole[0];
    assert FractionUpTo(fraction + power, |fraction|) by {
      assert (fraction + power)[..|fraction|] == fraction && (fraction + power)[|fraction|..] == power;
    }
    if whole == "0" {
      assert rest == fraction + power;
      ZeroIff(rest);
    } else {
      DigitsStep(whole);
      assert rest[..|whole| - 1] == whole[1..] && rest[|whole| - 1..] == fraction + power;
      assert WholeUpTo(rest, |whole| - 1);
      WholeIff(rest);
    }
  }

  lemma IsInParts(s: string, j: nat, k: nat)
    requires s != "" && j < |s| && IsInteger([s[0]] + s[1..][..j]) && FractionUpTo(s[1..][j..], k)
    ensures IsUnsigned(s)
  {
    hide IsInteger, IsFraction, IsPower;
    var rest := s[1..][j..];
    var whole, fraction, power := [s[0]] + s[1..][..j], rest[..k], rest[k..];
    assert fraction + power == rest && s == whole + rest;
    ConcatAssoc(whole, fraction, power);
  }

  lemma UnsignedIs(s: string)
    requires Accepts(s, Minus)
    ensures IsUnsigned(s)
  {
    hide Accepts, FractionUpTo, IsUnsigned;
    AcceptsStep(s, Minus);
    var rest := s[1..];
    if s[0] == '0' {
      ZeroIff(rest);
      var k: nat :| FractionUpTo(rest, k);
      assert rest[0..] == rest && [s[0]] + rest[..0] == "0";
      IsInParts(s, 0, k);
    } else {
      WholeIff(rest);
      var j: nat :| WholeUpTo(rest, j);
      var k: nat :| FractionUpTo(rest[j..], k);
      var whole := [s[0]] + rest[..j];
      assert whole[1..] == rest[..j];
      DigitsStep(whole);
      IsInParts(s, j, k);
    }
  }

  lemma UnsignedIff(s: string)
    ensures Accepts(s, Minus) <==> IsUnsigned(s)
  {
    hide Accepts, IsInteger, IsFraction, IsPower;
    if Accepts(s, Minus) { UnsignedIs(s); }
    forall whole, fraction, power |
      IsInteger(whole) && IsFraction(fraction) && IsPower(power) && s == whole + fraction + power
      ensures Accepts(s, Minus)
    {
      UnsignedParts(s, whole, fraction, power);
    }
  }

  /** The scanner's numbers are those of RFC 8259 section 6. */
  lemma NumeralIff(s: string)
    ensures IsNumeral(s) <==> IsUnsigned(s) || (s != "" && s[0] == '-' && IsUnsigned(s[1..]))
  {
    AcceptsStep(s, First);
    AcceptsStep(s, Minus);
    UnsignedIff(s);
    hide NumberLen, IsUnsigned;
    if s != "" { UnsignedIff(s[1..]); }
  }

  lemma HexDigits(c: char)
    ensures IsHex(c) <==> c in DIGITS + "abcdef" + "ABCDEF"
  {
    CapitalsAndDigits(c);
    var small, capital := "abcdef", "ABCDEF";
    assert forall i :: 0 <= i < 6 ==> small[i] as int == 'a' as int + i && capital[i] as int == 'A' as int + i;
    if 'a' <= c <= 'f' { assert c == small[c as int - 'a' as int]; }
    if 'A' <= c <= 'F' { assert c == capital[c as int - 'A' as int]; }
  }

  /** The escapes of RFC 8259 section 7. */
  lemma EscapeIff(s: string)
    ensures IsEscape(s) <==>
            || (s != "" && s[0] in ['"', '\\', '/', 'b', 'f', 'n', 'r', 't'])
            || (|s| >= 5 && s[0] == 'u' && forall i :: 1 <= i < 5 ==> s[i] in DIGITS + "abcdef" + "ABCDEF")
  {
    assert "\"\\/bfnrt" == ['"', '\\', '/', 'b', 'f', 'n', 'r', 't'];
    forall c: char ensures IsHex(c) <==> c in DIGITS + "abcdef" + "ABCDEF" { HexDigits(c); }
  }

  /** The characters that a token or white space begins with. */
  predicate Begins(c: char) { c in " \t\n\r" || c in "{}[],:" || c == '"' || c == '-' || c in DIGITS || c in "ntf" }

  lemma BlanksAndMarks(c: char)
    ensures IsBlank(c) <==> c in " \t\n\r"
    ensures IsMark(c) <==> c in "{}[],:"
  {
    var blanks, marks := " \t\n\r", "{}[],:";
    assert blanks[0] == ' ' && blanks[1] == '\t' && blanks[2] == '\n' && blanks[3] == '\r';
    assert marks[0] == '{' && marks[1] == '}' && marks[2] == '[' && marks[3] == ']';
    assert marks[4] == ',' && marks[5] == ':';
  }

  lemma WordsBegin(s: string)
    requires s != "" && WordAt(s).Some?
    ensures s[0] in "ntf"
  {
    assert "ntf"[0] == 'n' && "ntf"[1] == 't' && "ntf"[2] == 'f';
  }

  lemma NumbersBegin(s: string)
    requires s != "" && NumberLen(s, First).Some?
    ensures s[0] == '-' || s[0] in DIGITS
  {
    CapitalsAndDigits(s[0]);
  }

  /** No token begins with any other character. */
  lemma OtherTextIsBad(c: char, rest: string)
    requires !Begins(c)
    ensures Lex([c] + rest) == [Bad]
  {
    hide IsBlank, IsMark, WordAt, NumberLen;
    var s := [c] + rest;
    BlanksAndMarks(c);
    if WordAt(s).Some? { WordsBegin(s); }
    if NumberLen(s, First).Some? { NumbersBegin(s); }
  }
}
