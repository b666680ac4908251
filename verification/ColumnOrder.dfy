/** internal/duck/decode.go: recovering the column order of a query result. */
module ColumnOrder {
  import opened Json
  import opened JsonDecoder
  import opened Lexer
  import opened Text
  import opened ValueSkipper
  import SpecialFloats

  // ---- Specification on token streams ----

  function WithKey(key: seq<Chunk>, keys: Option<seq<seq<Chunk>>>): Option<seq<seq<Chunk>>> {
    if keys.None? then None else Some([key] + keys.value)
  }

  /** The alternation of keys and values up to a closing bracket or the end of the stream. */
  function Keys(r: Reader): Option<seq<seq<Chunk>>>
    decreases |r.ts|
  {
    if !HasMore(r) then Some([])
    else
      match Read(r)
      case None => None
      case Some((t, next)) =>
        if !t.String? then None
        else
          var rest := Skip(next);
          if rest.None? then None else WithKey(t.body, Keys(rest.value))
  }

  function Columns(r: Reader): Option<seq<seq<Chunk>>> {
    match Read(r)
    case None => None
    case Some((_, rows)) =>
      if !HasMore(rows) then Some([])
      else
        match Read(rows)
        case None => None
        case Some((_, row)) => Keys(row)
  }

  /** A stream that has not been read from. */
  function Fresh(ts: seq<Token>, fits: string -> bool): Reader { Reader(ts, Top, fits) }

  function ColumnsOfText(data: string, fits: string -> bool): Option<seq<seq<Chunk>>> {
    Columns(Fresh(Lex(SpecialFloats.Rewrite(data, SpecialFloats.Outside)), fits))
  }

  // ---- The loop ----

  lemma KeysStep(r: Reader, names: seq<seq<Chunk>>)
    requires HasMore(r) && Read(r).Some? && Read(r).value.0.String?
    ensures var (t, next) := Read(r).value;
            if Skip(next).Some? && Keys(Skip(next).value).Some?
            then Keys(r).Some? && names + Keys(r).value == (names + [t.body]) + Keys(Skip(next).value).value
            else Keys(r) == None
  {
    hide Skip, Read, HasMore;
    var (t, next) := Read(r).value;
    if Skip(next).Some? {
      var keys := Keys(Skip(next).value);
      if keys.Some? { ConcatAssoc(names, [t.body], keys.value); }
    }
  }

  /** The part of columnOrder that reads from the decoder. */
  method ReadColumns(dec: Decoder) returns (cols: Option<seq<seq<Chunk>>>)
    requires dec.Valid()
    modifies dec
    ensures cols == Columns(old(dec.Rest()))
  {
    var open := dec.Token();
    if open == None {
      return None;
    }
    var more := dec.More();
    if !more {
      return Some([]);
    }
    open := dec.Token();
    if open == None {
      return None;
    }
    var names: seq<seq<Chunk>> := [];
    ghost var result := Columns(old(dec.Rest()));
    assert result.Some? ==> names + result.value == result.value;
    more := dec.More();
    while more
      invariant dec.Valid() && more == HasMore(dec.Rest())
      invariant var keys := Keys(dec.Rest());
                result == if keys.None? then None else Some(names + keys.value)
      decreases |dec.Rest().ts|
    {
      ghost var before := dec.Rest();
      var key := dec.Token();
      if key == None || !key.value.String? {
        return None;
      }
      KeysStep(before, names);
      names := names + [key.value.body];
      var ok := SkipValue(dec);
      if !ok {
        return None;
      }
      more := dec.More();
    }
    assert names + [] == names;
    return Some(names);
  }

  method ColumnOrder(data: array<char>, fits: string -> bool) returns (cols: Option<seq<seq<Chunk>>>)
    ensures cols == ColumnsOfText(data[..], fits)
  {
    var sanitized := SpecialFloats.SanitizeSpecialFloats(data);
    var dec := new Decoder(sanitized[..], fits);
    cols := ReadColumns(dec);
  }

  // ---- Rows ----

  function KeysOf(members: seq<Member>): seq<seq<Chunk>> {
    if members == [] then [] else [members[0].key] + KeysOf(members[1..])
  }

  /** Nothing is left, or a closing bracket comes next. */
  predicate Ends(rest: seq<Token>) { rest == [] || Closes(rest[0]) }

  /** One member is one key, whatever follows it. */
  lemma MemberFirst(m: Member, started: bool, rest: seq<Token>, outer: Nest, fits: string -> bool)
    ensures Keys(InMembers(TokensOfMember(m, started) + rest, started, outer, fits))
         == if Fits(m.value, fits) then WithKey(m.key, Keys(InMembers(rest, true, outer, fits))) else None
  {
    var s := Tokens(m.value) + rest;
    MemberParts(m, started, rest);
    KeyIsRead(m.key, [Mark(':')] + s, started, outer, fits);
    Separated(Mark(':'), s, InObject(AtColon, outer), fits);
    ValueIsSkipped(m.value, rest, InObject(AtValue, outer), fits);
  }

  function WithKeys(names: seq<seq<Chunk>>, keys: Option<seq<seq<Chunk>>>): Option<seq<seq<Chunk>>> {
    if keys.None? then None else Some(names + keys.value)
  }

  /** Members are read one by one, whatever follows them. */
  lemma {:induction false} MembersFirst(members: seq<Member>, started: bool, rest: seq<Token>, outer: Nest,
                                        fits: string -> bool)
    ensures Keys(InMembers(TokensOfMembers(members, started) + rest, started, outer, fits))
         == if MembersFit(members, fits)
            then WithKeys(KeysOf(members), Keys(InMembers(rest, started || members != [], outer, fits))) else None
  {
    hide Keys;
    var keys := Keys(InMembers(rest, started || members != [], outer, fits));
    if members == [] {
      assert TokensOfMembers(members, started) + rest == rest;
      assert keys.Some? ==> [] + keys.value == keys.value;
    } else {
      var m, more := members[0], TokensOfMembers(members[1..], true);
      MembersFirst(members[1..], true, rest, outer, fits);
      ConcatAssoc(TokensOfMember(m, started), more, rest);
      MemberFirst(m, started, more + rest, outer, fits);
      if keys.Some? {
        ConcatAssoc([m.key], KeysOf(members[1..]), keys.value);
      }
    }
  }

  lemma MemberKeys(members: seq<Member>, started: bool, rest: seq<Token>, outer: Nest, fits: string -> bool)
    requires Ends(rest)
    ensures Keys(InMembers(TokensOfMembers(members, started) + rest, started, outer, fits))
         == if MembersFit(members, fits) then Some(KeysOf(members)) else None
  {
    MembersFirst(members, started, rest, outer, fits);
    assert KeysOf(members) + [] == KeysOf(members);
  }

  /** A row that is read on begins with a key, a colon and a value that is skipped. */
  lemma MemberBegins(ts: seq<Token>, started: bool, outer: Nest, fits: string -> bool)
    returns (key: seq<Chunk>, s: seq<Token>)
    requires Keys(InMembers(ts, started, outer, fits)).Some? && !Ends(ts)
    ensures ts == CommaIf(started) + ([String(key)] + ([Mark(':')] + s))
    ensures Skip(Reader(s, InObject(AtValue, outer), fits)).Some?
  {
    key, s := ReadKey(ts, started, outer, fits);
    hide Read;
    KeyIsRead(key, [Mark(':')] + s, started, outer, fits);
    Separated(Mark(':'), s, InObject(AtColon, outer), fits);
  }

  /** Whatever is read as a row is a list of whole members, up to a closing bracket or the end. */
  lemma {:induction false} ReadRow(ts: seq<Token>, started: bool, outer: Nest, fits: string -> bool)
    returns (members: seq<Member>, rest: seq<Token>)
    requires Keys(InMembers(ts, started, outer, fits)).Some?
    ensures ts == TokensOfMembers(members, started) + rest && Ends(rest) && MembersFit(members, fits)
    decreases |ts|
  {
    hide Keys, Skip, Unwind, Tokens, Fits;
    if Ends(ts) {
      members, rest := [], ts;
    } else {
      var key, s := MemberBegins(ts, started, outer, fits);
      var v, more := SkippedValue(Reader(s, InObject(AtValue, outer), fits));
      var m := Member("", key, "", v);
      MemberParts(m, started, more);
      MemberFirst(m, started, more, outer, fits);
      var others;
      others, rest := ReadRow(more, true, outer, fits);
      members := [m] + others;
      MembersParts(ts, started, m, others, more, rest);
    }
  }

  lemma OpensRow(ts: seq<Token>, fits: string -> bool)
    requires |ts| >= 2 && ts[0] == Mark('[') && ts[1] == Mark('{')
    ensures Columns(Fresh(ts, fits)) == Keys(InMembers(ts[2..], false, InArray(AtStart, Top), fits))
  {
    assert ts[1..][1..] == ts[2..];
  }

  /** The stream begins with the members of an object, which ends there or is cut off there. */
  ghost predicate HoldsRow(ts: seq<Token>, members: seq<Member>, fits: string -> bool) {
    var row := TokensOfMembers(members, false);
    row <= ts && Ends(ts[|row|..]) && MembersFit(members, fits)
  }

  /** On every text that opens an array and an object, however it goes on: columns are returned exactly when whole
      members come first, up to a closing bracket or the end, and they are the keys of those. */
  lemma ColumnsIff(ts: seq<Token>, fits: string -> bool)
    requires |ts| >= 2 && ts[0] == Mark('[') && ts[1] == Mark('{')
    ensures Columns(Fresh(ts, fits)).Some? <==> exists members :: HoldsRow(ts[2..], members, fits)
    ensures forall members :: HoldsRow(ts[2..], members, fits) ==> Columns(Fresh(ts, fits)) == Some(KeysOf(members))
  {
    hide Keys, Columns;
    var outer := InArray(AtStart, Top);
    OpensRow(ts, fits);
    forall members | HoldsRow(ts[2..], members, fits) ensures Columns(Fresh(ts, fits)) == Some(KeysOf(members)) {
      var row := TokensOfMembers(members, false);
      MemberKeys(members, false, ts[2..][|row|..], outer, fits);
      assert row + ts[2..][|row|..] == ts[2..];
    }
    if Columns(Fresh(ts, fits)).Some? {
      var members, rest := ReadRow(ts[2..], false, outer, fits);
      assert HoldsRow(ts[2..], members, fits);
    }
  }

  // ---- Result sets ----

  function Unspaced(v: Value): (u: Value)
    ensures !u.Spaced? && Tokens(u) == Tokens(v)
  {
    if v.Spaced? then Unspaced(v.value) else v
  }

  predicate IsResult(v: Value) {
    Unspaced(v).Array? && (Unspaced(v).items != [] ==> Unspaced(Unspaced(v).items[0]).Object?)
  }

  /** The members of the first row; none without a row. */
  function FirstRow(v: Value): seq<Member>
    requires IsResult(v)
  {
    var rows := Unspaced(v).items;
    if rows == [] then [] else Unspaced(rows[0]).members
  }

  lemma RowTokens(row: Value, after: seq<Token>)
    requires Unspaced(row).Object?
    ensures Tokens(row) + after
         == [Mark('{')] + (TokensOfMembers(Unspaced(row).members, false) + ([Mark('}')] + after))
  {
    ListParts('{', TokensOfMembers(Unspaced(row).members, false), '}', after);
    assert Tokens(row) == Tokens(Unspaced(row));
  }

  lemma ArrayTokens(v: Value)
    requires Unspaced(v).Array?
    ensures Tokens(v) == [Mark('[')] + (TokensOfItems(Unspaced(v).items, false) + [Mark(']')])
    ensures Unspaced(v).items == [] ==> Tokens(v) == [Mark('['), Mark(']')]
  {
    var items := TokensOfItems(Unspaced(v).items, false);
    assert Tokens(v) == Tokens(Unspaced(v)) == [Mark('[')] + items + [Mark(']')];
    ConcatAssoc([Mark('[')], items, [Mark(']')]);
  }

  lemma ItemsAfter(items: seq<Value>, rest: seq<Token>)
    requires items != []
    ensures TokensOfItems(items, false) + rest == Tokens(items[0]) + (TokensOfItems(items[1..], true) + rest)
  {
    assert CommaIf(false) + Tokens(items[0]) == Tokens(items[0]);
    ConcatAssoc(Tokens(items[0]), TokensOfItems(items[1..], true), rest);
  }

  /** An array of rows starts with the members of the first one, which a closing bracket follows. */
  lemma ResultTokens(v: Value) returns (tail: seq<Token>)
    requires IsResult(v)
    ensures Unspaced(v).items == [] ==> Tokens(v) == [Mark('['), Mark(']')]
    ensures Unspaced(v).items != [] ==>
              tail != [] && Ends(tail)
              && Tokens(v) == [Mark('['), Mark('{')] + (TokensOfMembers(FirstRow(v), false) + tail)
  {
    var rows := Unspaced(v).items;
    ArrayTokens(v);
    var after := (if rows == [] then [] else TokensOfItems(rows[1..], true)) + [Mark(']')];
    tail := [Mark('}')] + after;
    if rows != [] {
      hide Tokens, TokensOfItems;
      ItemsAfter(rows, [Mark(']')]);
      RowTokens(rows[0], after);
      var row := TokensOfMembers(FirstRow(v), false) + tail;
      assert [Mark('[')] + ([Mark('{')] + row) == [Mark('['), Mark('{')] + row;
    }
  }

  lemma ColumnsOfTokens(v: Value, fits: string -> bool)
    requires IsResult(v)
    ensures Columns(Fresh(Tokens(v), fits))
         == if MembersFit(FirstRow(v), fits) then Some(KeysOf(FirstRow(v))) else None
  {
    var ts := Tokens(v);
    var tail := ResultTokens(v);
    if Unspaced(v).items != [] {
      hide Keys, Tokens, Columns;
      OpensRow(ts, fits);
      assert ts[2..] == TokensOfMembers(FirstRow(v), false) + tail;
      MemberKeys(FirstRow(v), false, tail, InArray(AtStart, Top), fits);
    }
  }

  /** Naming the special floats does not change the tokens: they count as their names. */
  lemma {:induction false} NamedTokens(v: Value)
    ensures Tokens(NameFloats(v)) == Tokens(v)
    decreases v, 0
  {
    match v
    case Array(_, items) => NamedItemTokens(items, false);
    case Object(_, members) => NamedMemberTokens(members, false);
    case Spaced(_, value, _) => NamedTokens(value);
    case _ =>
  }

  lemma {:induction false} NamedItemTokens(items: seq<Value>, started: bool)
    ensures TokensOfItems(NameFloatsItems(items), started) == TokensOfItems(items, started)
    decreases items, 1
  {
    if items != [] {
      NamedTokens(items[0]);
      NamedItemTokens(items[1..], true);
      assert NameFloatsItems(items)[1..] == NameFloatsItems(items[1..]);
    }
  }

  lemma {:induction false} NamedMemberTokens(members: seq<Member>, started: bool)
    ensures TokensOfMembers(NameFloatsMembers(members), started) == TokensOfMembers(members, started)
    decreases members, 1
  {
    if members != [] {
      NamedTokens(members[0].value);
      NamedMemberTokens(members[1..], true);
      assert NameFloatsMembers(members)[1..] == NameFloatsMembers(members[1..]);
    }
  }

  /** What the decoder reads from DuckDB's text, once sanitized, is the document that was printed. */
  lemma SanitizedTextLexes(v: Value)
    requires Wf(v) && IsJson(v)
    ensures Lex(SpecialFloats.Rewrite(Print(v), SpecialFloats.Outside)) == Tokens(v)
  {
    SpecialFloats.PrintedDocumentIsSanitized(v);
    NamedIsFloatFree(v);
    NamedIsJson(v);
    LexUndoesPrint(NameFloats(v));
    NamedTokens(v);
  }

  /** From DuckDB's text of an array of rows, special floats and nested values included, columnOrder recovers the
      keys of the first row in their written order; an empty array has none. Only a number in the first row that a
      float64 cannot hold is an error. */
  lemma ColumnsOfRows(v: Value, fits: string -> bool)
    requires Wf(v) && IsJson(v) && IsResult(v)
    ensures ColumnsOfText(Print(v), fits)
         == if MembersFit(FirstRow(v), fits) then Some(KeysOf(FirstRow(v))) else None
  {
    SanitizedTextLexes(v);
    ColumnsOfTokens(v, fits);
  }

  // ---- Whole texts ----

  /** A member without white space whose key is one plain character. */
  function Short(c: char, v: Value): Member { Member("", [Char(c)], "", v) }

  lemma ShortKey(c: char, v: Value)
    requires ' ' <= c && c != '"' && c != '\\'
    ensures var m := Short(c, v); IsBody(m.key) && IsText(m.key) && PrintKey(m) == ['"', c, '"', ':']
  {
    var m := Short(c, v);
    assert m.key[1..] == [] && PrintBody(m.key) == [c];
  }

  lemma OneMember(c: char, v: Value, fits: string -> bool)
    requires 'a' <= c <= 'z' && Wf(v) && IsJson(v)
    ensures var ms := [Short(c, v)];
            && WfMembers(ms) && MembersJson(ms) && (MembersFit(ms, fits) <==> Fits(v, fits))
            && PrintMembers(ms) == ['"', c, '"', ':'] + Print(v)
  {
    hide IsBody, IsText, PrintKey, Wf, IsJson, Print, Fits;
    ShortKey(c, v);
    var ms := [Short(c, v)];
    assert ms[1..] == [] && WfMembers([]) && MembersJson([]) && MembersFit([], fits);
  }

  lemma OneMore(c: char, v: Value, more: seq<Member>, fits: string -> bool)
    requires 'a' <= c <= 'z' && Wf(v) && IsJson(v) && WfMembers(more) && MembersJson(more) && more != []
    ensures var ms := [Short(c, v)] + more;
            && WfMembers(ms) && MembersJson(ms) && (MembersFit(ms, fits) <==> Fits(v, fits) && MembersFit(more, fits))
            && PrintMembers(ms) == ['"', c, '"', ':'] + Print(v) + ([','] + PrintMembers(more))
  {
    hide IsBody, IsText, PrintKey, Wf, IsJson, Print, Fits;
    ShortKey(c, v);
    var ms := [Short(c, v)] + more;
    assert ms[0] == Short(c, v) && ms[1..] == more;
  }

  lemma OneRowText(members: seq<Member>)
    ensures Print(Array("", [Object("", members)])) == "[{" + PrintMembers(members) + "}]"
  {
    hide PrintMembers;
    var row := Object("", members);
    assert PrintItems([row]) == Print(row) + "" == Print(row);
    assert Print(row) == "{" + PrintMembers(members) + "}";
  }

  lemma OneRow(members: seq<Member>)
    requires WfMembers(members) && MembersJson(members)
    ensures var v := Array("", [Object("", members)]);
            Wf(v) && IsJson(v) && IsResult(v) && FirstRow(v) == members
            && Print(v) == "[{" + PrintMembers(members) + "}]"
  {
    hide IsBody, IsText, Print, PrintMembers;
    OneRowText(members);
    var row := Object("", members);
    assert Wf(row) && IsJson(row) && WfItems([]) && AllJson([]);
    assert [row][1..] == [] && WfItems([row]) && AllJson([row]);
  }

  lemma RowColumns(members: seq<Member>, text: string, fits: string -> bool)
    requires WfMembers(members) && MembersJson(members) && text == "[{" + PrintMembers(members) + "}]"
    ensures ColumnsOfText(text, fits) == if MembersFit(members, fits) then Some(KeysOf(members)) else None
  {
    hide ColumnsOfText, Print, Wf, IsJson;
    OneRow(members);
    ColumnsOfRows(Array("", [Object("", members)]), fits);
  }

  lemma HugeIsNumeral()
    ensures Wf(Number("1e999")) && IsNumeral("1e999")
  {
    hide IsNumeral;
    NumeralIff("1e999");
    assert IsInteger("1") && IsFraction("") && "1e999" == "1" + "" + "e999";
    assert "e999"[1..] == "999" && AllDigits("999") && IsPower("e999");
  }

  /** A result with a number beyond the range of float64, which decodeRows reads without rounding. */
  lemma HugeNumberIsAnError(fits: string -> bool)
    requires !fits("1e999")
    ensures ColumnsOfText("[{\"a\":1e999}]", fits) == None
  {
    hide ColumnsOfText, PrintMembers, WfMembers, MembersJson, MembersFit;
    HugeIsNumeral();
    OneMember('a', Number("1e999"), fits);
    var row := [Short('a', Number("1e999"))];
    assert "[{" + PrintMembers(row) + "}]" == "[{\"a\":1e999}]";
    RowColumns(row, "[{\"a\":1e999}]", fits);
  }

  /** The columns are the keys of the first row and their order is that of its members. */
  lemma {:induction false} KeysInOrder(members: seq<Member>)
    ensures |KeysOf(members)| == |members| && forall i :: 0 <= i < |members| ==> KeysOf(members)[i] == members[i].key
  {
    if members != [] { KeysInOrder(members[1..]); }
  }

  lemma NestedText(inner: string)
    requires inner == ['"', 'c', '"', ':'] + "null"
    ensures ['"', 'b', '"', ':'] + (['{'] + "" + inner + ['}']) == "\"b\":{\"c\":null}"
  {}

  lemma LastText()
    ensures [','] + (['"', 'a', '"', ':'] + "-Infinity") == ",\"a\":-Infinity"
  {}

  /** A row as DuckDB writes it: the key of a nested value is no column, and the order is the written one. */
  lemma NestedColumns(fits: string -> bool)
    ensures ColumnsOfText("[{" + ("\"b\":{\"c\":null}" + ",\"a\":-Infinity") + "}]", fits)
         == Some([[Char('b')], [Char('a')]])
  {
    hide ColumnsOfText, PrintMembers, WfMembers, MembersJson, MembersFit;
    var inner, last := [Short('c', Word("null"))], [Short('a', Float(NegInf))];
    OneMember('c', Word("null"), fits);
    OneMember('a', Float(NegInf), fits);
    var nested := Object("", inner);
    OneMore('b', nested, last, fits);
    var row := [Short('b', nested)] + last;
    NestedText(PrintMembers(inner));
    LastText();
    RowColumns(row, "[{" + ("\"b\":{\"c\":null}" + ",\"a\":-Infinity") + "}]", fits);
    KeysInOrder(row);
    assert row[0].key == [Char('b')] && row[1].key == [Char('a')];
    assert KeysOf(row) == [[Char('b')], [Char('a')]];
  }

  // ---- Results that are cut off ----

  /** How many members lie wholly within the first n tokens. */
  function WholeMembers(members: seq<Member>, started: bool, n: int): (k: nat)
    ensures k <= |members|
  {
    if members == [] || n < |TokensOfMember(members[0], started)| then 0
    else 1 + WholeMembers(members[1..], true, n - |TokensOfMember(members[0], started)|)
  }

  /** The first n tokens end inside a member: after the comma in front of it, after its key, or inside its value. */
  predicate EndsInside(members: seq<Member>, started: bool, n: int) {
    var k := WholeMembers(members, started, n);
    k < |members| && n > |TokensOfMembers(members[..k], started)|
  }

  lemma CutMember(m: Member, started: bool, n: nat, outer: Nest, fits: string -> bool)
    requires 0 < n < |TokensOfMember(m, started)|
    ensures Keys(InMembers(TokensOfMember(m, started)[..n], started, outer, fits)) == None
  {
    var all, lead, tail := TokensOfMember(m, started), |CommaIf(started)|, [Mark(':')] + Tokens(m.value);
    assert all == CommaIf(started) + ([String(m.key)] + tail);
    if n <= lead {
      assert all[..n] == [Mark(',')];
    } else {
      var rest := tail[..n - lead - 1];
      assert all[..n] == CommaIf(started) + ([String(m.key)] + rest);
      KeyIsRead(m.key, rest, started, outer, fits);
      CutValue(m.value, rest, n - lead - 1, outer, fits);
    }
  }

  lemma CutValue(v: Value, part: seq<Token>, n: nat, outer: Nest, fits: string -> bool)
    requires n <= |Tokens(v)| && part == ([Mark(':')] + Tokens(v))[..n]
    ensures Skip(Reader(part, InObject(AtColon, outer), fits)) == None
  {
    if n > 0 {
      var ts := Tokens(v)[..n - 1];
      assert part == [Mark(':')] + ts;
      Separated(Mark(':'), ts, InObject(AtColon, outer), fits);
      assert ts + Tokens(v)[n - 1..] == Tokens(v);
      TruncatedValueIsAnError(v, ts, Tokens(v)[n - 1..], InObject(AtValue, outer), fits);
    }
  }

  lemma WholeStep(members: seq<Member>, started: bool, n: int)
    requires members != [] && n >= |TokensOfMember(members[0], started)|
    ensures var left, k := n - |TokensOfMember(members[0], started)|, WholeMembers(members, started, n);
            && k == 1 + WholeMembers(members[1..], true, left)
            && members[..k][0] == members[0] && members[..k][1..] == members[1..][..k - 1]
            && (EndsInside(members, started, n) <==> EndsInside(members[1..], true, left))
  {
    var k := WholeMembers(members, started, n);
    assert members[..k][1..] == members[1..][..k - 1] && members[..k][0] == members[0];
    assert TokensOfMembers(members[..k], started)
        == TokensOfMember(members[0], started) + TokensOfMembers(members[1..][..k - 1], true);
  }

  lemma NothingCut(members: seq<Member>, started: bool, n: int, outer: Nest, fits: string -> bool)
    requires n <= 0 || members == []
    ensures !EndsInside(members, started, n) && WholeMembers(members, started, n) == 0
    ensures MembersFit([], fits) && Keys(InMembers([], started, outer, fits)) == Some(KeysOf([]))
  {}

  lemma FirstCut(members: seq<Member>, started: bool, n: nat)
    requires members != [] && n < |TokensOfMember(members[0], started)|
    ensures WholeMembers(members, started, n) == 0 && (EndsInside(members, started, n) <==> n > 0)
  {}

  /** The columns of a row of which n tokens are there: none of it is an error exactly when the stream ends inside a
      member or a number of a whole one does not fit. */
  lemma {:induction false} CutMembers(members: seq<Member>, started: bool, tail: seq<Token>, n: nat, outer: Nest,
                                      fits: string -> bool)
    requires n <= |TokensOfMembers(members, started) + tail| && Ends(tail)
    ensures var whole := members[..WholeMembers(members, started, n)];
            Keys(InMembers((TokensOfMembers(members, started) + tail)[..n], started, outer, fits))
            == if EndsInside(members, started, n) || !MembersFit(whole, fits) then None else Some(KeysOf(whole))
  {
    hide Tokens, Keys, EndsInside, WholeMembers;
    var ts := TokensOfMembers(members, started) + tail;
    if members == [] {
      assert ts == tail && ts[..n] == TokensOfMembers([], started) + ts[..n];
      NothingCut(members, started, n, outer, fits);
      MemberKeys([], started, ts[..n], outer, fits);
    } else {
      var first, more := TokensOfMember(members[0], started), TokensOfMembers(members[1..], true) + tail;
      ConcatAssoc(first, TokensOfMembers(members[1..], true), tail);
      assert ts == first + more;
      if n >= |first| {
        assert ts[..n] == first + more[..n - |first|];
        CutMembers(members[1..], true, tail, n - |first|, outer, fits);
        MemberFirst(members[0], started, more[..n - |first|], outer, fits);
        WholeStep(members, started, n);
      } else {
        assert ts[..n] == first[..n];
        FirstCut(members, started, n);
        if n > 0 {
          CutMember(members[0], started, n, outer, fits);
        } else {
          NothingCut([], started, n, outer, fits);
        }
      }
    }
  }

  lemma NoRow(ts: seq<Token>, fits: string -> bool)
    requires ts == [] || ts == [Mark('[')] || ts == [Mark('['), Mark(']')]
    ensures Columns(Fresh(ts, fits)) == if ts == [] then None else Some([])
  {}

  /** Where a result that is cut off between two tokens is accepted: without any token, or inside a member of the first
      row, a comma in front of it included, it is an error; elsewhere the columns are those of the whole members. */
  lemma CutResult(v: Value, n: nat, fits: string -> bool)
    requires IsResult(v) && n <= |Tokens(v)|
    ensures var row := FirstRow(v);
            var whole := row[..WholeMembers(row, false, n - 2)];
            Columns(Fresh(Tokens(v)[..n], fits))
            == if n == 0 || EndsInside(row, false, n - 2) || !MembersFit(whole, fits) then None
               else Some(KeysOf(whole))
  {
    hide Keys, Tokens, Columns, EndsInside, WholeMembers, MembersFit;
    var ts, members := Tokens(v), FirstRow(v);
    var tail := ResultTokens(v);
    if n < 2 || Unspaced(v).items == [] {
      NoRow(ts[..n], fits);
      NothingCut(members, false, n - 2, InArray(AtStart, Top), fits);
    } else {
      OpensRow(ts[..n], fits);
      assert ts[2..] == TokensOfMembers(members, false) + tail;
      assert ts[..n][2..] == ts[2..][..n - 2];
      CutMembers(members, false, tail, n - 2, InArray(AtStart, Top), fits);
    }
  }

  lemma CommaAlone(outer: Nest, fits: string -> bool)
    ensures Keys(InMembers([Mark(',')], true, outer, fits)) == None
  {}

  /** A stream that ends between two members yields the columns read so far if it ends in front of the comma, and an
      error behind it. */
  lemma TruncatedRowIsAccepted(read: seq<Member>, fits: string -> bool)
    requires read != [] && MembersFit(read, fits)
    ensures var ts := [Mark('['), Mark('{')] + TokensOfMembers(read, false);
            Columns(Fresh(ts, fits)) == Some(KeysOf(read)) && Columns(Fresh(ts + [Mark(',')], fits)) == None
  {
    hide Keys, Columns, Tokens;
    var row, outer := TokensOfMembers(read, false), InArray(AtStart, Top);
    var ts := [Mark('['), Mark('{')] + row;
    OpensRow(ts, fits);
    OpensRow(ts + [Mark(',')], fits);
    assert ts[2..] == row + [] && (ts + [Mark(',')])[2..] == row + [Mark(',')];
    MemberKeys(read, false, [], outer, fits);
    MembersFirst(read, false, [Mark(',')], outer, fits);
    CommaAlone(outer, fits);
  }
}
