/** JSON texts as DuckDB writes them: the grammar of RFC 8259 plus bare NaN, Infinity and -Infinity literals. */
module Json {

  datatype Special = NegInf | PosInf | NaN

  /** One step of a string body (RFC 8259 section 7): a plain character, or a backslash and the character it escapes. */
  datatype Chunk = Char(c: char) | Escape(c: char)

  /** A value with its written layout: wherever RFC 8259 section 2 allows white space, the value carries it. */
  datatype Value =
    | Word(word: string)                              // null, true, false
    | Number(digits: string)
    | Str(body: seq<Chunk>)
    | Float(special: Special)
    | Array(gap: string, items: seq<Value>)
    | Object(gap: string, members: seq<Member>)
    | Spaced(before: string, value: Value, after: string)

  datatype Member = Member(before: string, key: seq<Chunk>, gap: string, value: Value)

  /** The bare literal DuckDB prints. */
  function Literal(f: Special): string {
    match f case NegInf => "-Infinity" case PosInf => "Infinity" case NaN => "NaN"
  }

  /** The text that takes the literal's place, without its quotes. */
  function Name(f: Special): string {
    match f case NegInf => "-Inf" case PosInf => "Inf" case NaN => "NaN"
  }

  // ---- Well-formed layouts ----

  predicate IsGap(s: string) {
    forall i :: 0 <= i < |s| ==> s[i] == ' ' || s[i] == '\t' || s[i] == '\n' || s[i] == '\r'
  }

  predicate IsBody(body: seq<Chunk>) {
    forall i :: 0 <= i < |body| && body[i].Char? ==> body[i].c != '"' && body[i].c != '\\'
  }

  /** The characters of numbers (RFC 8259 section 6). */
  predicate IsNumberChar(c: char) { ('0' <= c <= '9') || c == '+' || c == '-' || c == '.' || c == 'e' || c == 'E' }

  predicate IsNumber(s: string) { s != "" && forall i :: 0 <= i < |s| ==> IsNumberChar(s[i]) }

  predicate Wf(v: Value)
    decreases v, 0
  {
    match v
    case Word(w) => w in ["null", "true", "false"]
    case Number(s) => IsNumber(s)
    case Str(body) => IsBody(body)
    case Float(_) => true
    case Array(gap, items) => IsGap(gap) && WfItems(items)
    case Object(gap, members) => IsGap(gap) && WfMembers(members)
    case Spaced(before, value, after) => IsGap(before) && Wf(value) && IsGap(after)
  }

  predicate WfItems(items: seq<Value>)
    decreases items, 1
  {
    items == [] || (Wf(items[0]) && WfItems(items[1..]))
  }

  predicate WfMembers(members: seq<Member>)
    decreases members, 1
  {
    members == [] ||
    (var m := members[0];
     IsGap(m.before) && IsBody(m.key) && IsGap(m.gap) && Wf(m.value) && WfMembers(members[1..]))
  }

  // ---- Printing ----

  function PrintChunk(chunk: Chunk): string { if chunk.Char? then [chunk.c] else ['\\', chunk.c] }

  function PrintBody(body: seq<Chunk>): string {
    if body == [] then "" else PrintChunk(body[0]) + PrintBody(body[1..])
  }

  function Quoted(body: seq<Chunk>): string { ['"'] + PrintBody(body) + ['"'] }

  function PrintKey(m: Member): string { m.before + (Quoted(m.key) + (m.gap + [':'])) }

  function Print(v: Value): string
    decreases v, 0
  {
    match v
    case Word(w) => w
    case Number(s) => s
    case Str(body) => Quoted(body)
    case Float(f) => Literal(f)
    case Array(gap, items) => ['['] + gap + PrintItems(items) + [']']
    case Object(gap, members) => ['{'] + gap + PrintMembers(members) + ['}']
    case Spaced(before, value, after) => before + Print(value) + after
  }

  function PrintItems(items: seq<Value>): string
    decreases items, 1
  {
    if items == [] then ""
    else Print(items[0]) + (if |items| == 1 then "" else [','] + PrintItems(items[1..]))
  }

  function PrintMembers(members: seq<Member>): string
    decreases members, 1
  {
    if members == [] then ""
    else
      PrintKey(members[0]) + Print(members[0].value)
      + (if |members| == 1 then "" else [','] + PrintMembers(members[1..]))
  }

  // ---- Replacing the special floats ----

  function Chars(s: string): seq<Chunk> {
    seq(|s|, i requires 0 <= i < |s| => Char(s[i]))
  }

  /** The same document with every special float turned into the string that names it. */
  function NameFloats(v: Value): Value
    decreases v, 0
  {
    match v
    case Float(f) => Str(Chars(Name(f)))
    case Array(gap, items) => Array(gap, NameFloatsItems(items))
    case Object(gap, members) => Object(gap, NameFloatsMembers(members))
    case Spaced(before, value, after) => Spaced(before, NameFloats(value), after)
    case _ => v
  }

  function NameFloatsItems(items: seq<Value>): (r: seq<Value>)
    ensures |r| == |items|
    decreases items, 1
  {
    if items == [] then [] else [NameFloats(items[0])] + NameFloatsItems(items[1..])
  }

  function NameFloatsMembers(members: seq<Member>): (r: seq<Member>)
    ensures |r| == |members|
    decreases members, 1
  {
    if members == [] then []
    else [members[0].(value := NameFloats(members[0].value))] + NameFloatsMembers(members[1..])
  }

  predicate FloatFree(v: Value)
    decreases v, 0
  {
    match v
    case Float(_) => false
    case Array(_, items) => FloatFreeItems(items)
    case Object(_, members) => FloatFreeMembers(members)
    case Spaced(_, value, _) => FloatFree(value)
    case _ => true
  }

  predicate FloatFreeItems(items: seq<Value>)
    decreases items, 1
  {
    items == [] || (FloatFree(items[0]) && FloatFreeItems(items[1..]))
  }

  predicate FloatFreeMembers(members: seq<Member>)
    decreases members, 1
  {
    members == [] || (FloatFree(members[0].value) && FloatFreeMembers(members[1..]))
  }

  /** Naming the floats leaves a well-formed document without special floats, and is the identity on those alone. */
  lemma {:induction false} NamedIsFloatFree(v: Value)
    ensures FloatFree(NameFloats(v))
    ensures NameFloats(v) == v <==> FloatFree(v)
    ensures Wf(v) ==> Wf(NameFloats(v))
    decreases v, 0
  {
    match v
    case Array(_, items) => NamedItemsAreFloatFree(items);
    case Object(_, members) => NamedMembersAreFloatFree(members);
    case Spaced(_, value, _) => NamedIsFloatFree(value);
    case _ =>
  }

  lemma {:induction false} NamedItemsAreFloatFree(items: seq<Value>)
    ensures FloatFreeItems(NameFloatsItems(items))
    ensures NameFloatsItems(items) == items <==> FloatFreeItems(items)
    ensures WfItems(items) ==> WfItems(NameFloatsItems(items))
    decreases items, 1
  {
    if items != [] {
      NamedIsFloatFree(items[0]);
      NamedItemsAreFloatFree(items[1..]);
      assert items == [items[0]] + items[1..];
      assert NameFloatsItems(items)[1..] == NameFloatsItems(items[1..]);
    }
  }

  lemma {:induction false} NamedMembersAreFloatFree(members: seq<Member>)
    ensures FloatFreeMembers(NameFloatsMembers(members))
    ensures NameFloatsMembers(members) == members <==> FloatFreeMembers(members)
    ensures WfMembers(members) ==> WfMembers(NameFloatsMembers(members))
    decreases members, 1
  {
    if members != [] {
      NamedIsFloatFree(members[0].value);
      NamedMembersAreFloatFree(members[1..]);
      assert members == [members[0]] + members[1..];
      assert NameFloatsMembers(members)[1..] == NameFloatsMembers(members[1..]);
    }
  }
}
