/** internal/duck/decode.go: rewriting DuckDB's bare NaN, Infinity and -Infinity into JSON strings. */
module SpecialFloats {
  import opened Json
  import opened Text

  datatype Mode = Outside | Inside | Escaped

  /** What the scanner knows after one more byte. */
  function Next(m: Mode, c: char): Mode {
    match m
    case Escaped => Inside
    case Inside => if c == '\\' then Escaped else if c == '"' then Outside else Inside
    case Outside => if c == '"' then Inside else Outside
  }

  /** The literals in the order they are tried: the minus sign goes with its Infinity. */
  const LITERALS := [NegInf, PosInf, NaN]

  function Replacement(f: Special): string { ['"'] + Name(f) + ['"'] }

  /** The literal that s begins with. */
  function LiteralAt(s: string): (r: Option<Special>)
    ensures r.Some? ==> Literal(r.value) <= s
  {
    if Literal(NegInf) <= s then Some(NegInf)
    else if Literal(PosInf) <= s then Some(PosInf)
    else if Literal(NaN) <= s then Some(NaN)
    else None
  }

  /** The rewriting as a transducer: the reference that the loop below refines. */
  function Rewrite(s: string, m: Mode): string {
    if s == [] then []
    else if m == Outside && s[0] != '"' && LiteralAt(s).Some? then
      var f := LiteralAt(s).value;
      Replacement(f) + Rewrite(s[|Literal(f)|..], Outside)
    else [s[0]] + Rewrite(s[1..], Next(m, s[0]))
  }

  // ---- Which inputs change ----

  ghost function ModeAfter(s: string, m: Mode): Mode {
    if s == [] then m else ModeAfter(s[1..], Next(m, s[0]))
  }

  /** A special literal begins at position i, outside every string. */
  ghost predicate BareAt(s: string, m: Mode, i: nat) {
    i <= |s| && ModeAfter(s[..i], m) == Outside && LiteralAt(s[i..]).Some?
  }

  ghost predicate HasBare(s: string, m: Mode) {
    exists i: nat :: BareAt(s, m, i)
  }

  lemma BareStep(s: string, m: Mode, i: nat)
    requires s != []
    ensures BareAt(s, m, i + 1) <==> BareAt(s[1..], Next(m, s[0]), i)
  {
    if i < |s| {
      assert s[..i + 1][1..] == s[1..][..i] && s[i + 1..] == s[1..][i..];
    }
  }

  /** A copied byte neither begins a bare literal nor hides one. */
  lemma HasBareStep(s: string, m: Mode)
    requires s != [] && !(m == Outside && s[0] != '"' && LiteralAt(s).Some?)
    ensures HasBare(s, m) <==> HasBare(s[1..], Next(m, s[0]))
  {
    assert s[..0] == [] && s[0..] == s && !BareAt(s, m, 0);
    if i: nat :| BareAt(s, m, i) {
      BareStep(s, m, i - 1);
    }
    if i: nat :| BareAt(s[1..], Next(m, s[0]), i) {
      BareStep(s, m, i);
    }
  }

  lemma BareAtFront(s: string)
    requires s != [] && LiteralAt(s).Some?
    ensures HasBare(s, Outside)
  {
    assert s[..0] == [] && s[0..] == s;
    assert BareAt(s, Outside, 0);
  }

  lemma NothingIsBare(m: Mode)
    ensures !HasBare([], m)
  {
    assert forall i: nat :: !BareAt([], m, i);
  }

  /** Exactly the texts with a bare literal are changed. */
  lemma {:induction false} UnchangedIffNoBare(s: string, m: Mode)
    ensures Rewrite(s, m) == s <==> !HasBare(s, m)
  {
    hide HasBare;
    if s == [] {
      NothingIsBare(m);
    } else if m == Outside && s[0] != '"' && LiteralAt(s).Some? {
      BareAtFront(s);
      assert Rewrite(s, m)[0] == '"';
    } else {
      UnchangedIffNoBare(s[1..], Next(m, s[0]));
      HasBareStep(s, m);
      HeadTail(s);
      assert Rewrite(s, m)[1..] == Rewrite(s[1..], Next(m, s[0]));
    }
  }

  // ---- The loop ----

  function ModeOf(inString: bool, escaped: bool): Mode {
    if !inString then Outside else if escaped then Escaped else Inside
  }

  /** The first table entry that s begins with is the literal found. */
  lemma TableOrder(s: string, k: nat)
    requires k <= |LITERALS|
    requires forall j :: 0 <= j < k ==> !(Literal(LITERALS[j]) <= s)
    requires k < |LITERALS| ==> Literal(LITERALS[k]) <= s
    ensures LiteralAt(s) == if k < |LITERALS| then Some(LITERALS[k]) else None
  {
    assert LITERALS[0] == NegInf && LITERALS[1] == PosInf && LITERALS[2] == NaN;
  }

  lemma RewriteNothing(m: Mode)
    ensures Rewrite([], m) == []
  {}

  lemma CopyStep(done: string, rest: string, m: Mode)
    requires rest != [] && !(m == Outside && rest[0] != '"' && LiteralAt(rest).Some?)
    ensures done + Rewrite(rest, m) == (done + [rest[0]]) + Rewrite(rest[1..], Next(m, rest[0]))
  {}

  lemma ReplaceStep(done: string, rest: string, f: Special)
    requires rest != [] && rest[0] != '"' && LiteralAt(rest) == Some(f)
    ensures done + Rewrite(rest, Outside) == (done + Replacement(f)) + Rewrite(rest[|Literal(f)|..], Outside)
    ensures done + Rewrite(rest, Outside) != done + rest
  {
    var r := Rewrite(rest, Outside);
    ConcatAssoc(done, Replacement(f), Rewrite(rest[|Literal(f)|..], Outside));
    assert r[0] == '"';
    assert (done + r)[|done|] == r[0] && (done + rest)[|done|] == rest[0];
  }

  /** slices.Concat: a fresh buffer. */
  method Concat(a: string, b: string, c: string) returns (r: array<char>)
    ensures fresh(r) && r.Length == |a| + |b| + |c|
    ensures r[..|a| + |b|] == a + b && r[|a| + |b|..] == c
  {
    var text := a + b + c;
    r := new char[|text|](j requires 0 <= j < |text| => text[j]);
    assert r[..] == text;
  }

  /** A new buffer with the literal at i replaced, and the position of the replacement's last byte in it. */
  method ReplaceAt(out: array<char>, i: nat, f: Special) returns (next: array<char>, last: nat)
    requires i < out.Length && Literal(f) <= out[i..]
    ensures fresh(next) && last < next.Length && next.Length - last <= out.Length - i
    ensures next[..last + 1] == out[..i] + Replacement(f) && next[last + 1..] == out[i..][|Literal(f)|..]
  {
    next := Concat(out[..i], Replacement(f), out[i..][|Literal(f)|..]);
    last := i + |Replacement(f)| - 1;
    assert last + 1 == |out[..i]| + |Replacement(f)|;
  }

  /** The loop over the replacement table: the first literal found at i. */
  method FindLiteral(out: array<char>, i: nat) returns (found: Option<Special>)
    requires i < out.Length
    ensures found == LiteralAt(out[i..])
  {
    for k := 0 to |LITERALS|
      invariant forall j :: 0 <= j < k ==> !(Literal(LITERALS[j]) <= out[i..])
    {
      var f := LITERALS[k];
      if i + |Literal(f)| <= out.Length && out[i..i + |Literal(f)|] == Literal(f) {
        assert out[i..][..|Literal(f)|] == Literal(f);
        TableOrder(out[i..], k);
        return Some(f);
      }
    }
    TableOrder(out[i..], |LITERALS|);
    return None;
  }

  /** Outside strings: a literal at i is replaced, any other byte is left as it is. */
  method ReplaceLiteral(out: array<char>, i: nat) returns (next: array<char>, last: nat)
    requires i < out.Length && out[i] != '"'
    ensures last < next.Length && next.Length - last <= out.Length - i
    ensures next[..last + 1] + Rewrite(next[last + 1..], Outside) == out[..i] + Rewrite(out[i..], Outside)
    ensures if next == out then last == i else fresh(next) && out[..i] + Rewrite(out[i..], Outside) != out[..]
  {
    hide Rewrite;
    var found := FindLiteral(out, i);
    if found.Some? {
      ReplaceStep(out[..i], out[i..], found.value);
      assert out[..i] + out[i..] == out[..];
      next, last := ReplaceAt(out, i, found.value);
    } else {
      assert out[..i] + [out[i]] == out[..i + 1] && out[i..][1..] == out[i + 1..];
      CopyStep(out[..i], out[i..], Outside);
      next, last := out, i;
    }
  }

  /** Inside a string: a byte after a backslash is skipped, a quote ends the string. */
  method StringByte(c: char, escaped: bool) returns (inString: bool, escaping: bool)
    ensures ModeOf(inString, escaping) == Next(ModeOf(true, escaped), c) && (escaping ==> inString)
  {
    inString, escaping := true, false;
    if escaped {
    } else if c == '\\' {
      escaping := true;
    } else if c == '"' {
      inString := false;
    }
  }

  /** Computes the transducer on a buffer that is replaced as it is scanned; the caller's buffer is
      never written (the method modifies nothing) and is itself the answer exactly when nothing changes. */
  method SanitizeSpecialFloats(raw: array<char>) returns (out: array<char>)
    ensures out[..] == Rewrite(raw[..], Outside)
    ensures out == raw <==> !HasBare(raw[..], Outside)
    ensures out != raw ==> fresh(out)
  {
    hide Rewrite;
    out := raw;
    var inString, escaped := false, false;
    var i := 0;
    ghost var result := Rewrite(raw[..], Outside);
    assert raw[..0] == [] && raw[0..] == raw[..];
    while i < out.Length
      invariant 0 <= i <= out.Length
      invariant escaped ==> inString
      invariant out[..i] + Rewrite(out[i..], ModeOf(inString, escaped)) == result
      invariant out == raw || (fresh(out) && result != raw[..])
      decreases out.Length - i
    {
      var c := out[i];
      assert out[..i] + [c] == out[..i + 1] && out[i..][1..] == out[i + 1..];
      if inString || c == '"' {
        CopyStep(out[..i], out[i..], ModeOf(inString, escaped));
      }
      if inString {
        inString, escaped := StringByte(c, escaped);
      } else if c == '"' {
        inString := true;
      } else {
        out, i := ReplaceLiteral(out, i);
      }
      i := i + 1;
    }
    assert out[..i] == out[..] && out[i..] == [];
    RewriteNothing(ModeOf(inString, escaped));
    UnchangedIffNoBare(raw[..], Outside);
  }

  // ---- Rewriting twice ----

  predicate QuoteFree(s: string) { forall i :: 0 <= i < |s| ==> s[i] != '"' }

  /** A quote-free prefix of the output was already a prefix of the input. */
  lemma {:induction false} PrefixReflects(w: string, s: string)
    requires QuoteFree(w) && w <= Rewrite(s, Outside)
    ensures w <= s
  {
    if w != [] {
      var r := Rewrite(s, Outside);
      assert w[0] == r[0];
      PrefixReflects(w[1..], s[1..]);
      assert w == [w[0]] + w[1..] && s == [s[0]] + s[1..];
    }
  }

  lemma {:induction false} QuotedIsCopied(w: string, rest: string)
    requires QuoteFree(w) && (forall i :: 0 <= i < |w| ==> w[i] != '\\')
    ensures Rewrite(w + (['"'] + rest), Inside) == w + (['"'] + Rewrite(rest, Outside))
  {
    var tail := ['"'] + rest;
    if w == [] {
      assert w + tail == tail && tail[1..] == rest;
    } else {
      QuotedIsCopied(w[1..], rest);
      ConcatTail(w, tail);
      HeadTail(w);
      ConcatAssoc([w[0]], w[1..], ['"'] + Rewrite(rest, Outside));
    }
  }

  lemma QuoteIsCopied(rest: string, m: Mode)
    requires m == Outside || m == Inside
    ensures Rewrite(['"'] + rest, m) == ['"'] + Rewrite(rest, if m == Outside then Inside else Outside)
  {
    assert (['"'] + rest)[1..] == rest;
  }

  lemma ReplacementIsCopied(f: Special, rest: string)
    ensures Rewrite(Replacement(f) + rest, Outside) == Replacement(f) + Rewrite(rest, Outside)
  {
    hide Rewrite;
    QuoteIsCopied(Name(f) + (['"'] + rest), Outside);
    QuotedIsCopied(Name(f), rest);
    Nested(['"'], Name(f), ['"'], rest);
    Nested(['"'], Name(f), ['"'], Rewrite(rest, Outside));
  }

  /** A literal in front of the rewritten text was there before. */
  lemma NoNewLiteral(s: string)
    requires s != [] && s[0] != '"' && LiteralAt(s).None?
    ensures LiteralAt([s[0]] + Rewrite(s[1..], Outside)).None?
  {
    var r := [s[0]] + Rewrite(s[1..], Outside);
    if LiteralAt(r).Some? { PrefixReflects(Literal(LiteralAt(r).value), s); }
  }

  lemma CopiedByteStays(s: string, m: Mode)
    requires s != [] && !(m == Outside && s[0] != '"' && LiteralAt(s).Some?)
    ensures var tail := Rewrite(s[1..], Next(m, s[0]));
            Rewrite([s[0]] + tail, m) == [s[0]] + Rewrite(tail, Next(m, s[0]))
  {
    hide LiteralAt;
    var tail := Rewrite(s[1..], Next(m, s[0]));
    assert ([s[0]] + tail)[1..] == tail;
    if m == Outside && s[0] != '"' { NoNewLiteral(s); }
  }

  /** Sanitizing sanitized text changes nothing, whatever the bytes and the state they start in. */
  lemma {:induction false} RewriteIsIdempotent(s: string, m: Mode)
    ensures Rewrite(Rewrite(s, m), m) == Rewrite(s, m)
  {
    if s == [] {
    } else if m == Outside && s[0] != '"' && LiteralAt(s).Some? {
      var f := LiteralAt(s).value;
      RewriteIsIdempotent(s[|Literal(f)|..], Outside);
      ReplacementIsCopied(f, Rewrite(s[|Literal(f)|..], Outside));
    } else {
      RewriteIsIdempotent(s[1..], Next(m, s[0]));
      CopiedByteStays(s, m);
    }
  }

  // ---- Printed documents ----

  /** What may follow a value: nothing a literal could continue with. */
  predicate Follows(rest: string) { rest == [] || rest[0] != 'I' }

  /** Text in which no literal can begin, unless its last byte is a minus sign. */
  predicate Inert(s: string) {
    forall i :: 0 <= i < |s| ==> s[i] != '"' && s[i] != 'I' && s[i] != 'N'
  }

  lemma NoLiteral(t: string)
    requires t == [] || (t[0] != 'N' && t[0] != 'I' && (t[0] == '-' && |t| > 1 ==> t[1] != 'I'))
    ensures LiteralAt(t) == None
  {
  }

  lemma InertHead(s: string, rest: string)
    requires s != [] && Inert(s) && ('-' in s ==> Follows(rest))
    ensures Rewrite(s + rest, Outside) == [s[0]] + Rewrite(s[1..] + rest, Outside)
  {
    var t := s + rest;
    assert |t| > 1 ==> t[1] == if |s| > 1 then s[1] else rest[0];
    NoLiteral(t);
    assert t[1..] == s[1..] + rest;
  }

  lemma {:induction false} InertIsCopied(s: string, rest: string)
    requires Inert(s) && ('-' in s ==> Follows(rest))
    ensures Rewrite(s + rest, Outside) == s + Rewrite(rest, Outside)
  {
    if s == [] {
      assert s + rest == rest;
    } else {
      InertIsCopied(s[1..], rest);
      InertHead(s, rest);
      HeadTail(s);
      ConcatAssoc([s[0]], s[1..], Rewrite(rest, Outside));
    }
  }

  lemma EscapedIsCopied(c: char, rest: string)
    ensures Rewrite([c] + rest, Escaped) == [c] + Rewrite(rest, Inside)
  {
    assert ([c] + rest)[1..] == rest;
  }

  lemma ChunkIsCopied(chunk: Chunk, rest: string)
    requires chunk.Char? ==> chunk.c != '"' && chunk.c != '\\'
    ensures Rewrite(PrintChunk(chunk) + rest, Inside) == PrintChunk(chunk) + Rewrite(rest, Inside)
  {
    var s := PrintChunk(chunk) + rest;
    if chunk.Char? {
      assert s[1..] == rest;
    } else {
      EscapedIsCopied(chunk.c, rest);
      ConcatTail(['\\', chunk.c], rest);
      assert ['\\', chunk.c][1..] == [chunk.c];
      ConcatAssoc(['\\'], [chunk.c], Rewrite(rest, Inside));
      assert ['\\'] + [chunk.c] == ['\\', chunk.c];
    }
  }

  lemma {:induction false} BodyIsCopied(body: seq<Chunk>, rest: string)
    requires IsBody(body)
    ensures Rewrite(PrintBody(body) + rest, Inside) == PrintBody(body) + Rewrite(rest, Inside)
  {
    if body == [] {
      assert PrintBody(body) + rest == rest;
    } else {
      BodyIsCopied(body[1..], rest);
      var head, tail := PrintChunk(body[0]), PrintBody(body[1..]);
      ConcatAssoc(head, tail, rest);
      ChunkIsCopied(body[0], tail + rest);
      ConcatAssoc(head, tail, Rewrite(rest, Inside));
    }
  }

  lemma QuotedBodyIsCopied(body: seq<Chunk>, rest: string)
    requires IsBody(body)
    ensures Rewrite(Quoted(body) + rest, Outside) == Quoted(body) + Rewrite(rest, Outside)
  {
    var quote, text := ['"'], PrintBody(body);
    QuoteIsCopied(text + (quote + rest), Outside);
    BodyIsCopied(body, quote + rest);
    QuoteIsCopied(rest, Inside);
    Nested(quote, text, quote, rest);
    Nested(quote, text, quote, Rewrite(rest, Outside));
  }

  lemma LiteralIsReplaced(f: Special, rest: string)
    ensures Rewrite(Literal(f) + rest, Outside) == Replacement(f) + Rewrite(rest, Outside)
  {
    var s := Literal(f) + rest;
    assert Literal(f) <= s && s[|Literal(f)|..] == rest;
    assert s[0] == Literal(f)[0];
    assert LiteralAt(s) == Some(f);
  }

  lemma NameIsQuoted(f: Special)
    ensures Quoted(Chars(Name(f))) == Replacement(f)
  {
    assert PrintBody(Chars(Name(f))) == Name(f) by { PrintChars(Name(f)); }
  }

  lemma {:induction false} PrintChars(s: string)
    ensures PrintBody(Chars(s)) == s
  {
    if s != [] {
      PrintChars(s[1..]);
      assert Chars(s)[1..] == Chars(s[1..]);
      assert s == [s[0]] + s[1..];
    }
  }

  /** In front of any text (any that does not start with an I, when tight), sanitizing turns text into clean
      and leaves the scanner outside strings. */
  ghost predicate Becomes(text: string, clean: string, tight: bool) {
    forall rest :: (tight ==> Follows(rest)) ==> Rewrite(text + rest, Outside) == clean + Rewrite(rest, Outside)
  }

  lemma BecomesConcat(a: string, a': string, tightA: bool, b: string, b': string, tightB: bool)
    requires Becomes(a, a', tightA) && Becomes(b, b', tightB)
    requires tightA ==> if b == [] then tightB else b[0] != 'I'
    ensures Becomes(a + b, a' + b', tightB)
  {
    forall rest | tightB ==> Follows(rest)
      ensures Rewrite((a + b) + rest, Outside) == (a' + b') + Rewrite(rest, Outside)
    {
      ConcatAssoc(a, b, rest);
      assert Rewrite(b + rest, Outside) == b' + Rewrite(rest, Outside);
      assert tightA ==> Follows(b + rest);
      assert Rewrite(a + (b + rest), Outside) == a' + Rewrite(b + rest, Outside);
      ConcatAssoc(a', b', Rewrite(rest, Outside));
    }
  }

  lemma BecomesTight(text: string, clean: string)
    requires Becomes(text, clean, false)
    ensures Becomes(text, clean, true)
  {}

  lemma BecomesThen(a: string, a': string, b: string, b': string, tight: bool)
    requires Becomes(a, a', false) && Becomes(b, b', tight)
    ensures Becomes(a + b, a' + b', tight)
  {
    BecomesConcat(a, a', false, b, b', tight);
  }

  lemma InertBecomes(s: string)
    requires Inert(s)
    ensures Becomes(s, s, true)
    ensures '-' !in s ==> Becomes(s, s, false)
  {
    forall rest | '-' in s ==> Follows(rest) ensures Rewrite(s + rest, Outside) == s + Rewrite(rest, Outside) {
      InertIsCopied(s, rest);
    }
  }

  /** White space and the structural characters of RFC 8259 section 2. */
  predicate Structural(s: string) {
    forall i :: 0 <= i < |s| ==>
      || s[i] == '[' || s[i] == ']' || s[i] == '{' || s[i] == '}' || s[i] == ':' || s[i] == ','
      || s[i] == ' ' || s[i] == '\t' || s[i] == '\n' || s[i] == '\r'
  }

  lemma StructuralBecomes(s: string)
    requires Structural(s)
    ensures Becomes(s, s, false)
  {
    InertBecomes(s);
  }

  lemma QuotedBecomes(body: seq<Chunk>)
    requires IsBody(body)
    ensures Becomes(Quoted(body), Quoted(body), false)
  {
    forall rest ensures Rewrite(Quoted(body) + rest, Outside) == Quoted(body) + Rewrite(rest, Outside) {
      QuotedBodyIsCopied(body, rest);
    }
  }

  lemma LiteralBecomes(f: Special)
    ensures Becomes(Literal(f), Quoted(Chars(Name(f))), false)
  {
    NameIsQuoted(f);
    forall rest ensures Rewrite(Literal(f) + rest, Outside) == Replacement(f) + Rewrite(rest, Outside) {
      LiteralIsReplaced(f, rest);
    }
  }

  lemma BracketedBecomes(open: string, text: string, clean: string, close: string)
    requires Structural(open) && Structural(close)
    requires Becomes(text, clean, true)
    ensures Becomes(open + text + close, open + clean + close, true)
  {
    StructuralBecomes(open);
    StructuralBecomes(close);
    BecomesThen(open, open, text, clean, true);
    BecomesConcat(open + text, open + clean, true, close, close, true);
  }

  lemma ListBecomes(text: string, clean: string, more: string, more': string)
    requires Becomes(text, clean, true) && Becomes(more, more', true)
    ensures Becomes(text + ([','] + more), clean + ([','] + more'), true)
  {
    StructuralBecomes([',']);
    BecomesThen([','], [','], more, more', true);
    BecomesConcat(text, clean, true, [','] + more, [','] + more', true);
  }

  lemma StrBecomes(body: seq<Chunk>)
    requires IsBody(body)
    ensures Becomes(Print(Str(body)), Print(NameFloats(Str(body))), true)
  {
    QuotedBecomes(body);
    BecomesTight(Quoted(body), Quoted(body));
  }

  lemma FloatBecomes(f: Special)
    ensures Becomes(Print(Float(f)), Print(NameFloats(Float(f))), true)
  {
    LiteralBecomes(f);
    BecomesTight(Literal(f), Quoted(Chars(Name(f))));
  }

  lemma ArrayBecomes(gap: string, items: seq<Value>)
    requires IsGap(gap) && Becomes(PrintItems(items), PrintItems(NameFloatsItems(items)), true)
    ensures Becomes(Print(Array(gap, items)), Print(NameFloats(Array(gap, items))), true)
  {
    hide Becomes;
    BracketedBecomes(['['] + gap, PrintItems(items), PrintItems(NameFloatsItems(items)), [']']);
  }

  lemma ObjectBecomes(gap: string, members: seq<Member>)
    requires IsGap(gap) && Becomes(PrintMembers(members), PrintMembers(NameFloatsMembers(members)), true)
    ensures Becomes(Print(Object(gap, members)), Print(NameFloats(Object(gap, members))), true)
  {
    hide Becomes;
    BracketedBecomes(['{'] + gap, PrintMembers(members), PrintMembers(NameFloatsMembers(members)), ['}']);
  }

  lemma SpacedBecomes(before: string, value: Value, after: string)
    requires IsGap(before) && IsGap(after) && Becomes(Print(value), Print(NameFloats(value)), true)
    ensures Becomes(Print(Spaced(before, value, after)), Print(NameFloats(Spaced(before, value, after))), true)
  {
    hide Becomes;
    BracketedBecomes(before, Print(value), Print(NameFloats(value)), after);
  }

  /** Words and numbers are left as they are. */
  lemma InertValueBecomes(v: Value)
    requires Wf(v) && (v.Word? || v.Number?)
    ensures Becomes(Print(v), Print(NameFloats(v)), true)
  {
    hide Becomes;
    if v.Word? {
      InertBecomes(v.word);
    } else {
      InertBecomes(v.digits);
    }
  }

  /** Every printed value becomes its printing with the floats named. */
  lemma {:induction false} ValueBecomes(v: Value)
    requires Wf(v)
    ensures Becomes(Print(v), Print(NameFloats(v)), true)
    decreases v, 0
  {
    hide Becomes, Print, NameFloats;
    match v
    case Word(_) => InertValueBecomes(v);
    case Number(_) => InertValueBecomes(v);
    case Str(body) => StrBecomes(body);
    case Float(f) => FloatBecomes(f);
    case Array(gap, items) =>
      ItemsBecome(items);
      ArrayBecomes(gap, items);
    case Object(gap, members) =>
      MembersBecome(members);
      ObjectBecomes(gap, members);
    case Spaced(before, value, after) =>
      ValueBecomes(value);
      SpacedBecomes(before, value, after);
  }

  lemma {:induction false} ItemsBecome(items: seq<Value>)
    requires WfItems(items)
    ensures Becomes(PrintItems(items), PrintItems(NameFloatsItems(items)), true)
    decreases items, 1
  {
    hide Becomes;
    if items == [] {
      InertBecomes("");
    } else {
      var named := NameFloatsItems(items);
      var text, clean := Print(items[0]), Print(named[0]);
      ValueBecomes(items[0]);
      if |items| == 1 {
        assert text + "" == text && clean + "" == clean;
      } else {
        ItemsBecome(items[1..]);
        assert named[1..] == NameFloatsItems(items[1..]);
        ListBecomes(text, clean, PrintItems(items[1..]), PrintItems(named[1..]));
      }
    }
  }

  lemma KeyBecomes(m: Member)
    requires IsGap(m.before) && IsBody(m.key) && IsGap(m.gap)
    ensures Becomes(PrintKey(m), PrintKey(m), false)
  {
    StructuralBecomes(m.before);
    QuotedBecomes(m.key);
    StructuralBecomes(m.gap + [':']);
    var tail := Quoted(m.key) + (m.gap + [':']);
    BecomesThen(Quoted(m.key), Quoted(m.key), m.gap + [':'], m.gap + [':'], false);
    BecomesThen(m.before, m.before, tail, tail, false);
  }

  lemma MemberBecomes(m: Member, text: string, clean: string)
    requires IsGap(m.before) && IsBody(m.key) && IsGap(m.gap)
    requires Becomes(text, clean, true)
    ensures Becomes(PrintKey(m) + text, PrintKey(m) + clean, true)
  {
    KeyBecomes(m);
    BecomesThen(PrintKey(m), PrintKey(m), text, clean, true);
  }

  lemma {:induction false} MembersBecome(members: seq<Member>)
    requires WfMembers(members)
    ensures Becomes(PrintMembers(members), PrintMembers(NameFloatsMembers(members)), true)
    decreases members, 1
  {
    hide Becomes;
    if members == [] {
      InertBecomes("");
    } else {
      var m, named := members[0], NameFloatsMembers(members);
      ValueBecomes(m.value);
      MemberBecomes(m, Print(m.value), Print(NameFloats(m.value)));
      var text, clean := PrintKey(m) + Print(m.value), PrintKey(m) + Print(NameFloats(m.value));
      assert PrintKey(named[0]) == PrintKey(m);
      if |members| == 1 {
        assert text + "" == text && clean + "" == clean;
      } else {
        MembersBecome(members[1..]);
        assert named[1..] == NameFloatsMembers(members[1..]);
        ListBecomes(text, clean, PrintMembers(members[1..]), PrintMembers(named[1..]));
      }
    }
  }

  /** Sanitizing DuckDB's printing of a document is the standard printing of the document with every
      special float replaced by the string that names it. */
  lemma PrintedDocumentIsSanitized(v: Value)
    requires Wf(v)
    ensures Rewrite(Print(v), Outside) == Print(NameFloats(v))
  {
    ValueBecomes(v);
    assert Print(v) + "" == Print(v);
    assert Rewrite(Print(v) + "", Outside) == Print(NameFloats(v)) + Rewrite("", Outside);
  }

  // ---- The replacements, letter for letter ----

  /** The table: each literal and the text that takes its place. */
  lemma Replacements(rest: string)
    ensures Rewrite("-Infinity" + rest, Outside) == "\"-Inf\"" + Rewrite(rest, Outside)
    ensures Rewrite("Infinity" + rest, Outside) == "\"Inf\"" + Rewrite(rest, Outside)
    ensures Rewrite("NaN" + rest, Outside) == "\"NaN\"" + Rewrite(rest, Outside)
  {
    hide Rewrite;
    LiteralIsReplaced(NegInf, rest);
    LiteralIsReplaced(PosInf, rest);
    LiteralIsReplaced(NaN, rest);
    assert Replacement(NegInf) == "\"-Inf\"" && Replacement(PosInf) == "\"Inf\"" && Replacement(NaN) == "\"NaN\"";
  }

  /** A character, a key and a colon are copied, whatever the key spells. */
  lemma KeyIsCopied(c: char, key: string, rest: string)
    requires c == '{' || c == ','
    requires QuoteFree(key) && forall i :: 0 <= i < |key| ==> key[i] != '\\'
    ensures Rewrite([c, '"'] + key + "\":" + rest, Outside) == [c, '"'] + key + "\":" + Rewrite(rest, Outside)
  {
    hide Rewrite;
    InertIsCopied([c], ['"'] + (key + (['"'] + (":" + rest))));
    QuoteIsCopied(key + (['"'] + (":" + rest)), Outside);
    QuotedIsCopied(key, ":" + rest);
    InertIsCopied(":", rest);
    KeyParts(c, key, rest);
    KeyParts(c, key, Rewrite(rest, Outside));
  }

  lemma KeyParts(c: char, key: string, rest: string)
    ensures [c, '"'] + key + "\":" + rest == [c] + (['"'] + (key + (['"'] + (":" + rest))))
  {
    assert [c, '"'] == [c] + ['"'] && "\":" == ['"'] + ":";
  }

  lemma Grouped(a: string, b: string, c: string, d: string, e: string, f: string, g: string)
    ensures a + b + c + d + e + f + g == a + (b + (c + (d + (e + (f + g)))))
  {}

  lemma EndIsCopied()
    ensures Rewrite("}", Outside) == "}"
  {
    InertIsCopied("}", "");
    RewriteNothing(Outside);
    assert "}" + "" == "}";
  }

  /** One row of DuckDB's text with every literal, and one of them in a string. */
  lemma RowIsSanitized()
    ensures Rewrite("{\"x\":" + "NaN" + ",\"y\":" + "-Infinity" + ",\"NaN\":" + "Infinity" + "}", Outside)
         == "{\"x\":" + "\"NaN\"" + ",\"y\":" + "\"-Inf\"" + ",\"NaN\":" + "\"Inf\"" + "}"
  {
    hide Rewrite;
    var x, y, z := "{\"x\":", ",\"y\":", ",\"NaN\":";
    assert x == ['{', '"'] + "x" + "\":" && y == [',', '"'] + "y" + "\":" && z == [',', '"'] + "NaN" + "\":";
    var last := "Infinity" + "}";
    var more := "-Infinity" + (z + last);
    Replacements("}");
    KeyIsCopied(',', "NaN", last);
    Replacements(z + last);
    KeyIsCopied(',', "y", more);
    Replacements(y + more);
    KeyIsCopied('{', "x", "NaN" + (y + more));
    EndIsCopied();
    Grouped(x, "NaN", y, "-Infinity", z, "Infinity", "}");
    Grouped(x, "\"NaN\"", y, "\"-Inf\"", z, "\"Inf\"", "}");
  }
}
