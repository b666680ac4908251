/** internal/duck/decode.go: skipping one JSON value, token by token. */
module ValueSkipper {
  import opened Json
  import opened JsonDecoder
  import opened Lexer
  import opened Text

  // ---- Specification on token streams ----

  function Deeper(depth: nat, t: Token): nat
    requires depth > 0
  {
    if Opens(t) then depth + 1 else if t.Mark? then depth - 1 else depth
  }

  /** What is left once `depth` open brackets are closed; None for an error or when the stream ends first. */
  function Unwind(r: Reader, depth: nat): (rest: Option<Reader>)
    ensures rest.Some? ==> |rest.value.ts| <= |r.ts|
    decreases |r.ts|
  {
    if depth == 0 then Some(r)
    else
      match Read(r)
      case None => None
      case Some((t, next)) => Unwind(next, Deeper(depth, t))
  }

  /** What is left after one value. */
  function Skip(r: Reader): (rest: Option<Reader>)
    ensures rest.Some? ==> |rest.value.ts| < |r.ts|
  {
    match Read(r)
    case None => None
    case Some((t, next)) => if Opens(t) then Unwind(next, 1) else Some(next)
  }

  // ---- The loop ----

  method SkipValue(dec: Decoder) returns (ok: bool)
    requires dec.Valid()
    modifies dec
    ensures dec.Valid()
    ensures ok <==> Skip(old(dec.Rest())).Some?
    ensures ok ==> dec.Rest() == Skip(old(dec.Rest())).value
  {
    var tok := dec.Token();
    if tok == None {
      return false;
    }
    if !Opens(tok.value) {
      return true;
    }
    var depth := 1;
    ghost var result := Skip(old(dec.Rest()));
    while depth > 0
      invariant dec.Valid() && depth >= 0
      invariant Unwind(dec.Rest(), depth) == result
      decreases |dec.Rest().ts|, depth
    {
      tok := dec.Token();
      if tok == None {
        return false;
      }
      if tok.value.Mark? {
        if Opens(tok.value) {
          depth := depth + 1;
        } else {
          depth := depth - 1;
        }
      }
    }
    return true;
  }

  // ---- Whole values are read ----

  /** Every number of v fits. */
  predicate Fits(v: Value, fits: string -> bool)
    decreases v, 0
  {
    match v
    case Number(s) => fits(s)
    case Array(_, items) => AllFit(items, fits)
    case Object(_, members) => MembersFit(members, fits)
    case Spaced(_, value, _) => Fits(value, fits)
    case _ => true
  }

  predicate AllFit(items: seq<Value>, fits: string -> bool)
    decreases items, 1
  {
    items == [] || (Fits(items[0], fits) && AllFit(items[1..], fits))
  }

  predicate MembersFit(members: seq<Member>, fits: string -> bool)
    decreases members, 1
  {
    members == [] || (Fits(members[0].value, fits) && MembersFit(members[1..], fits))
  }

  function ListAt(started: bool): At { if started then AtComma else AtStart }

  /** Where the next value of an array is read, its comma swallowed. */
  function ItemAt(started: bool): At { if started then AtValue else AtStart }

  function TokensOfMember(m: Member, started: bool): seq<Token> {
    CommaIf(started) + [String(m.key), Mark(':')] + Tokens(m.value)
  }

  lemma ListParts(open: char, ts: seq<Token>, close: char, rest: seq<Token>)
    ensures [Mark(open)] + ts + [Mark(close)] + rest == [Mark(open)] + (ts + ([Mark(close)] + rest))
  {}

  lemma Separated(t: Token, ts: seq<Token>, nest: Nest, fits: string -> bool)
    requires IsSeparator(t) && Swallow(t, nest).Some?
    ensures Read(Reader([t] + ts, nest, fits)) == Read(Reader(ts, Swallow(t, nest).value, fits))
  {
    assert ([t] + ts)[1..] == ts;
  }

  lemma OpeningIsRead(c: char, ts: seq<Token>, nest: Nest, fits: string -> bool)
    requires TakesValue(nest) && (c == '[' || c == '{')
    ensures Read(Reader([Mark(c)] + ts, nest, fits))
         == Some((Mark(c), Reader(ts, if c == '[' then InArray(AtStart, nest) else InObject(AtStart, nest), fits)))
  {
    assert ([Mark(c)] + ts)[1..] == ts;
  }

  lemma ScalarIsRead(v: Value, rest: seq<Token>, nest: Nest, fits: string -> bool)
    requires TakesValue(nest) && !v.Array? && !v.Object? && !v.Spaced?
    ensures |Tokens(v)| == 1 && !Tokens(v)[0].Mark?
    ensures Read(Reader(Tokens(v) + rest, nest, fits))
         == if Fits(v, fits) then Some((Tokens(v)[0], Reader(rest, AfterValue(nest), fits))) else None
  {
    assert (Tokens(v) + rest)[1..] == rest;
  }

  /** In an array, before its first element or after another. */
  function InItems(ts: seq<Token>, started: bool, outer: Nest, fits: string -> bool): Reader {
    Reader(ts, InArray(ListAt(started), outer), fits)
  }

  function InMembers(ts: seq<Token>, started: bool, outer: Nest, fits: string -> bool): Reader {
    Reader(ts, InObject(ListAt(started), outer), fits)
  }

  lemma ClosingIsRead(c: char, rest: seq<Token>, started: bool, outer: Nest, fits: string -> bool)
    requires c == ']' || c == '}'
    ensures var ts := [Mark(c)] + rest;
            Read(if c == ']' then InItems(ts, started, outer, fits) else InMembers(ts, started, outer, fits))
            == Some((Mark(c), Reader(rest, AfterValue(outer), fits)))
  {
    assert ([Mark(c)] + rest)[1..] == rest;
  }

  lemma ItemStarts(ts: seq<Token>, started: bool, outer: Nest, fits: string -> bool)
    ensures Read(InItems(CommaIf(started) + ts, started, outer, fits))
         == Read(Reader(ts, InArray(ItemAt(started), outer), fits))
  {
    if started {
      Separated(Mark(','), ts, InArray(AtComma, outer), fits);
    } else {
      assert CommaIf(started) + ts == ts;
    }
  }

  lemma KeyIsRead(key: seq<Chunk>, ts: seq<Token>, started: bool, outer: Nest, fits: string -> bool)
    ensures Read(InMembers(CommaIf(started) + ([String(key)] + ts), started, outer, fits))
         == Some((String(key), Reader(ts, InObject(AtColon, outer), fits)))
  {
    var s := [String(key)] + ts;
    assert s[1..] == ts;
    if started {
      Separated(Mark(','), s, InObject(AtComma, outer), fits);
    } else {
      assert CommaIf(started) + s == s;
    }
  }

  lemma MemberParts(m: Member, started: bool, rest: seq<Token>)
    ensures TokensOfMember(m, started) + rest
         == CommaIf(started) + ([String(m.key)] + ([Mark(':')] + (Tokens(m.value) + rest)))
  {}

  /** Unwinding passes over one whole value, or fails at a number that does not fit. */
  lemma {:induction false} ValueUnwinds(v: Value, rest: seq<Token>, nest: Nest, fits: string -> bool, depth: nat)
    requires depth > 0 && TakesValue(nest)
    ensures Unwind(Reader(Tokens(v) + rest, nest, fits), depth)
         == if Fits(v, fits) then Unwind(Reader(rest, AfterValue(nest), fits), depth) else None
    decreases v, 0
  {
    hide Read, AfterValue, AllFit, MembersFit, TokensOfItems, TokensOfMembers;
    match v
    case Array(_, items) =>
      ArrayUnwinds(items, rest, nest, fits, depth);
      ListParts('[', TokensOfItems(items, false), ']', rest);
      OpeningIsRead('[', TokensOfItems(items, false) + ([Mark(']')] + rest), nest, fits);
    case Object(_, members) =>
      ObjectUnwinds(members, rest, nest, fits, depth);
      ListParts('{', TokensOfMembers(members, false), '}', rest);
      OpeningIsRead('{', TokensOfMembers(members, false) + ([Mark('}')] + rest), nest, fits);
    case Spaced(_, value, _) =>
      ValueUnwinds(value, rest, nest, fits, depth);
    case _ =>
      ScalarIsRead(v, rest, nest, fits);
  }

  /** From behind an array's opening bracket to behind its closing one. */
  lemma {:induction false} ArrayUnwinds(items: seq<Value>, rest: seq<Token>, nest: Nest, fits: string -> bool,
                                        depth: nat)
    ensures Unwind(InItems(TokensOfItems(items, false) + ([Mark(']')] + rest), false, nest, fits), depth + 1)
         == if AllFit(items, fits) then Unwind(Reader(rest, AfterValue(nest), fits), depth) else None
    decreases items, 2
  {
    hide TokensOfItems;
    ItemsUnwind(items, false, [Mark(']')] + rest, nest, fits, depth + 1);
    ClosingIsRead(']', rest, items != [], nest, fits);
  }

  lemma {:induction false} ObjectUnwinds(members: seq<Member>, rest: seq<Token>, nest: Nest, fits: string -> bool,
                                         depth: nat)
    ensures Unwind(InMembers(TokensOfMembers(members, false) + ([Mark('}')] + rest), false, nest, fits), depth + 1)
         == if MembersFit(members, fits) then Unwind(Reader(rest, AfterValue(nest), fits), depth) else None
    decreases members, 2
  {
    hide TokensOfMembers;
    MembersUnwind(members, false, [Mark('}')] + rest, nest, fits, depth + 1);
    ClosingIsRead('}', rest, members != [], nest, fits);
  }

  lemma ItemParts(items: seq<Value>, started: bool, rest: seq<Token>)
    requires items != []
    ensures TokensOfItems(items, started) + rest
         == CommaIf(started) + (Tokens(items[0]) + (TokensOfItems(items[1..], true) + rest))
  {
    ConcatAssoc(CommaIf(started) + Tokens(items[0]), TokensOfItems(items[1..], true), rest);
    ConcatAssoc(CommaIf(started), Tokens(items[0]), TokensOfItems(items[1..], true) + rest);
  }

  lemma ItemTakesValue(started: bool, outer: Nest)
    ensures var nest := InArray(ItemAt(started), outer);
            TakesValue(nest) && AfterValue(nest) == InArray(ListAt(true), outer)
  {}

  lemma {:induction false} ItemsUnwind(items: seq<Value>, started: bool, rest: seq<Token>, outer: Nest,
                                       fits: string -> bool, depth: nat)
    requires depth > 0
    ensures Unwind(InItems(TokensOfItems(items, started) + rest, started, outer, fits), depth)
         == if AllFit(items, fits) then Unwind(InItems(rest, started || items != [], outer, fits), depth) else None
    decreases items, 1
  {
    if items == [] {
      assert TokensOfItems(items, started) + rest == rest;
    } else {
      hide Read, TakesValue, Tokens, Fits;
      var ts, more := Tokens(items[0]), TokensOfItems(items[1..], true) + rest;
      ItemParts(items, started, rest);
      ItemStarts(ts + more, started, outer, fits);
      ItemTakesValue(started, outer);
      ValueUnwinds(items[0], more, InArray(ItemAt(started), outer), fits, depth);
      ItemsUnwind(items[1..], true, rest, outer, fits, depth);
    }
  }

  /** A key and its colon lead to the value. */
  lemma KeyUnwinds(key: seq<Chunk>, ts: seq<Token>, started: bool, outer: Nest, fits: string -> bool, depth: nat)
    requires depth > 0
    ensures Unwind(InMembers(CommaIf(started) + ([String(key)] + ([Mark(':')] + ts)), started, outer, fits), depth)
         == Unwind(Reader(ts, InObject(AtValue, outer), fits), depth)
  {
    KeyIsRead(key, [Mark(':')] + ts, started, outer, fits);
    Separated(Mark(':'), ts, InObject(AtColon, outer), fits);
  }

  lemma {:induction false} MembersUnwind(members: seq<Member>, started: bool, rest: seq<Token>, outer: Nest,
                                         fits: string -> bool, depth: nat)
    requires depth > 0
    ensures Unwind(InMembers(TokensOfMembers(members, started) + rest, started, outer, fits), depth)
         == if MembersFit(members, fits) then Unwind(InMembers(rest, started || members != [], outer, fits), depth)
            else None
    decreases members, 1
  {
    hide Unwind;
    if members == [] {
      assert TokensOfMembers(members, started) + rest == rest;
    } else {
      var m, more := members[0], TokensOfMembers(members[1..], true) + rest;
      ConcatAssoc(TokensOfMember(m, started), TokensOfMembers(members[1..], true), rest);
      MemberParts(m, started, more);
      KeyUnwinds(m.key, Tokens(m.value) + more, started, outer, fits, depth);
      ValueUnwinds(m.value, more, InObject(AtValue, outer), fits, depth);
      MembersUnwind(members[1..], true, rest, outer, fits, depth);
    }
  }

  /** Skipping consumes exactly one value, whatever follows it. */
  lemma {:induction false} ValueIsSkipped(v: Value, rest: seq<Token>, nest: Nest, fits: string -> bool)
    requires TakesValue(nest)
    ensures Skip(Reader(Tokens(v) + rest, nest, fits))
         == if Fits(v, fits) then Some(Reader(rest, AfterValue(nest), fits)) else None
  {
    hide Read, AfterValue, AllFit, MembersFit, TokensOfItems, TokensOfMembers;
    match v
    case Array(_, items) =>
      ArrayUnwinds(items, rest, nest, fits, 0);
      ListParts('[', TokensOfItems(items, false), ']', rest);
      OpeningIsRead('[', TokensOfItems(items, false) + ([Mark(']')] + rest), nest, fits);
    case Object(_, members) =>
      ObjectUnwinds(members, rest, nest, fits, 0);
      ListParts('{', TokensOfMembers(members, false), '}', rest);
      OpeningIsRead('{', TokensOfMembers(members, false) + ([Mark('}')] + rest), nest, fits);
    case Spaced(_, value, _) =>
      ValueIsSkipped(value, rest, nest, fits);
    case _ =>
      ScalarIsRead(v, rest, nest, fits);
  }

  // ---- Nothing but whole values is read ----

  lemma {:induction false} ValueOpens(v: Value)
    ensures Tokens(v) != [] && !Closes(Tokens(v)[0])
  {
    match v
    case Spaced(_, value, _) => ValueOpens(value);
    case _ =>
  }

  /** What can be read at a place for a value. */
  lemma FirstRead(r: Reader)
    requires TakesValue(r.nest) && HasMore(r) && Read(r).Some?
    ensures var t, next := r.ts[0], r.ts[1..];
            && r.ts == [t] + next
            && (t.String? || t.Constant? || (t.Numeral? && r.fits(t.digits)) || Opens(t))
            && (t == Mark('[') ==> Read(r).value.1 == InItems(next, false, r.nest, r.fits))
            && (t == Mark('{') ==> Read(r).value.1 == InMembers(next, false, r.nest, r.fits))
  {}

  /** What was read at a place for a value is a whole value; depth counts the brackets open around it. */
  lemma {:induction false} ReadValue(r: Reader, depth: nat) returns (v: Value, rest: seq<Token>)
    requires TakesValue(r.nest) && HasMore(r) && Read(r).Some?
    requires Opens(r.ts[0]) ==> Unwind(Read(r).value.1, depth + 1).Some?
    ensures r.ts == Tokens(v) + rest && Fits(v, r.fits)
    decreases |r.ts|, 0
  {
    hide Read, Unwind, TokensOfItems, TokensOfMembers;
    FirstRead(r);
    var t, next := r.ts[0], r.ts[1..];
    rest := next;
    match t
    case String(body) => v := Str(body);
    case Numeral(s) => v := Number(s);
    case Constant(w) => v := Word(w);
    case Mark(c) =>
      if c == '[' {
        var items;
        items, rest := ReadItems(next, false, r.nest, r.fits, depth + 1);
        v := Array("", items);
        ListParts('[', TokensOfItems(items, false), ']', rest);
      } else {
        var members;
        members, rest := ReadMembers(next, false, r.nest, r.fits, depth + 1);
        v := Object("", members);
        ListParts('{', TokensOfMembers(members, false), '}', rest);
      }
  }

  /** Where a value is due and something can be read, a value begins. */
  lemma ValueBegins(r: Reader, depth: nat)
    requires depth > 0 && TakesValue(r.nest) && Unwind(r, depth).Some?
    requires r.nest.Top? || r.nest.at == AtStart ==> HasMore(r)
    ensures HasMore(r) && Read(r).Some? && (Opens(r.ts[0]) ==> Unwind(Read(r).value.1, depth + 1).Some?)
  {}

  /** Before the end of an array, a value follows, behind a comma if another came before. */
  lemma ItemBegins(ts: seq<Token>, started: bool, outer: Nest, fits: string -> bool, depth: nat)
    returns (s: seq<Token>)
    requires depth > 0 && Unwind(InItems(ts, started, outer, fits), depth).Some? && ts[0] != Mark(']')
    ensures ts == CommaIf(started) + s
    ensures var r := Reader(s, InArray(ItemAt(started), outer), fits);
            Unwind(r, depth) == Unwind(InItems(ts, started, outer, fits), depth) && HasMore(r)
  {
    s := if started then ts[1..] else ts;
    assert ts == CommaIf(started) + s;
    ItemStarts(s, started, outer, fits);
  }

  lemma {:induction false} ReadItems(ts: seq<Token>, started: bool, outer: Nest, fits: string -> bool, depth: nat)
    returns (items: seq<Value>, rest: seq<Token>)
    requires depth > 0 && Unwind(InItems(ts, started, outer, fits), depth).Some?
    ensures ts == TokensOfItems(items, started) + ([Mark(']')] + rest) && AllFit(items, fits)
    decreases |ts|, 1
  {
    assert ts != [];
    hide Unwind, Read, Tokens, Fits;
    if ts[0] == Mark(']') {
      items, rest := [], ts[1..];
    } else {
      var s := ItemBegins(ts, started, outer, fits, depth);
      var r := Reader(s, InArray(ItemAt(started), outer), fits);
      ValueBegins(r, depth);
      var v, more := ReadValue(r, depth);
      ValueUnwinds(v, more, r.nest, fits, depth);
      ValueOpens(v);
      var others;
      others, rest := ReadItems(more, true, outer, fits, depth);
      items := [v] + others;
      assert items[0] == v && items[1..] == others;
      ItemParts(items, started, [Mark(']')] + rest);
    }
  }

  /** Before the end of an object, a key is read, behind a comma if a member came before. */
  lemma KeyBegins(ts: seq<Token>, started: bool, outer: Nest, fits: string -> bool) returns (s: seq<Token>)
    requires ts != [] && ts[0] != Mark('}') && Read(InMembers(ts, started, outer, fits)).Some?
    ensures ts == CommaIf(started) + s && s != [] && s[0].String?
  {
    s := if started then ts[1..] else ts;
    assert ts == CommaIf(started) + s;
    if started {
      Separated(Mark(','), s, InObject(AtComma, outer), fits);
    }
  }

  lemma ColonBegins(ts: seq<Token>, outer: Nest, fits: string -> bool) returns (s: seq<Token>)
    requires Read(Reader(ts, InObject(AtColon, outer), fits)).Some?
    ensures ts == [Mark(':')] + s && Read(Reader(s, InObject(AtValue, outer), fits)).Some?
  {
    s := ts[1..];
    assert ts == [Mark(':')] + s;
  }

  /** What is read is a key, and what is read next a colon and the value behind it. */
  lemma ReadKey(ts: seq<Token>, started: bool, outer: Nest, fits: string -> bool)
    returns (key: seq<Chunk>, rest: seq<Token>)
    requires ts != [] && ts[0] != Mark('}') && Read(InMembers(ts, started, outer, fits)).Some?
    requires Read(Read(InMembers(ts, started, outer, fits)).value.1).Some?
    ensures ts == CommaIf(started) + ([String(key)] + ([Mark(':')] + rest))
    ensures Read(Reader(rest, InObject(AtValue, outer), fits)).Some?
  {
    hide Read;
    var s := KeyBegins(ts, started, outer, fits);
    key := s[0].body;
    assert s == [String(key)] + s[1..];
    KeyIsRead(key, s[1..], started, outer, fits);
    rest := ColonBegins(s[1..], outer, fits);
  }

  lemma MembersParts(ts: seq<Token>, started: bool, m: Member, others: seq<Member>, more: seq<Token>,
                     rest: seq<Token>)
    requires ts == CommaIf(started) + ([String(m.key)] + ([Mark(':')] + (Tokens(m.value) + more)))
    requires more == TokensOfMembers(others, true) + rest
    ensures ts == TokensOfMembers([m] + others, started) + rest
  {
    assert ([m] + others)[1..] == others;
    MemberParts(m, started, more);
    ConcatAssoc(TokensOfMember(m, started), TokensOfMembers(others, true), rest);
  }

  lemma {:induction false} ReadMembers(ts: seq<Token>, started: bool, outer: Nest, fits: string -> bool, depth: nat)
    returns (members: seq<Member>, rest: seq<Token>)
    requires depth > 0 && Unwind(InMembers(ts, started, outer, fits), depth).Some?
    ensures ts == TokensOfMembers(members, started) + ([Mark('}')] + rest) && MembersFit(members, fits)
    decreases |ts|, 1
  {
    assert ts != [];
    if ts[0] == Mark('}') {
      members, rest := [], ts[1..];
    } else {
      var key, s := ReadKey(ts, started, outer, fits);
      hide Unwind, Read, Tokens, Fits;
      KeyUnwinds(key, s, started, outer, fits, depth);
      var r := Reader(s, InObject(AtValue, outer), fits);
      ValueBegins(r, depth);
      var v, more := ReadValue(r, depth);
      ValueUnwinds(v, more, r.nest, fits, depth);
      var others;
      others, rest := ReadMembers(more, true, outer, fits, depth);
      members := [Member("", key, "", v)] + others;
      MembersParts(ts, started, members[0], others, more, [Mark('}')] + rest);
    }
  }

  lemma SkippedValue(r: Reader) returns (v: Value, rest: seq<Token>)
    requires TakesValue(r.nest) && Skip(r).Some?
    requires r.nest.Top? || r.nest.at == AtStart ==> HasMore(r)
    ensures r.ts == Tokens(v) + rest && Fits(v, r.fits)
  {
    hide Unwind, Tokens, Fits;
    v, rest := ReadValue(r, 0);
  }

  /** Where a value is due, skipping succeeds exactly when a whole value comes next and all its numbers fit, and then
      it consumes that value and nothing else. */
  lemma SkipIff(r: Reader)
    requires TakesValue(r.nest) && (r.nest.Top? || r.nest.at == AtStart ==> HasMore(r))
    ensures Skip(r).Some? <==> exists v :: Tokens(v) <= r.ts && Fits(v, r.fits)
    ensures forall v :: Tokens(v) <= r.ts && Fits(v, r.fits) ==>
              Skip(r) == Some(Reader(r.ts[|Tokens(v)|..], AfterValue(r.nest), r.fits))
  {
    hide Skip, Tokens, Fits;
    forall v | Tokens(v) <= r.ts && Fits(v, r.fits)
      ensures Skip(r) == Some(Reader(r.ts[|Tokens(v)|..], AfterValue(r.nest), r.fits))
    {
      ValueIsSkipped(v, r.ts[|Tokens(v)|..], r.nest, r.fits);
      assert Tokens(v) + r.ts[|Tokens(v)|..] == r.ts;
    }
    if Skip(r).Some? {
      var v, rest := SkippedValue(r);
      assert Tokens(v) <= r.ts;
    }
  }

  /** A stream that stops inside a value is an error, never a shorter value. */
  lemma TruncatedValueIsAnError(v: Value, part: seq<Token>, missing: seq<Token>, nest: Nest, fits: string -> bool)
    requires part + missing == Tokens(v) && missing != [] && TakesValue(nest)
    ensures Skip(Reader(part, nest, fits)) == None
  {
    hide Skip, Tokens, Fits;
    var r := Reader(part, nest, fits);
    ValueOpens(v);
    assert Tokens(v) + [] == Tokens(v);
    if Skip(r).Some? {
      NothingToSkip(nest, fits);
      var w, rest := SkippedValue(r);
      ValueIsSkipped(v, [], nest, fits);
      ValueIsSkipped(w, rest + missing, nest, fits);
      ConcatAssoc(Tokens(w), rest, missing);
      assert false;
    }
  }

  lemma NothingToSkip(nest: Nest, fits: string -> bool)
    ensures Skip(Reader([], nest, fits)) == None
  {}
}
