/** The token layer of encoding/json: which token may come where, and the decoder that delivers them one by one. */
module JsonDecoder {
  import opened Lexer
  import opened Text

  /** What comes next in the innermost list: a first element, a key, a colon, a value, or a comma. */
  datatype At = AtStart | AtKey | AtColon | AtValue | AtComma

  /** The open arrays and objects, innermost first. */
  datatype Nest = Top | InArray(at: At, outer: Nest) | InObject(at: At, outer: Nest)

  /** A stream of tokens at some point of its reading; fits tells which numbers a float64 holds. */
  datatype Reader = Reader(ts: seq<Token>, nest: Nest, fits: string -> bool)

  predicate Opens(t: Token) { t == Mark('{') || t == Mark('[') }

  predicate Closes(t: Token) { t == Mark('}') || t == Mark(']') }

  predicate IsSeparator(t: Token) { t == Mark(':') || t == Mark(',') }

  predicate TakesValue(nest: Nest) {
    nest.Top? || nest.at == AtValue || (nest.InArray? && nest.at == AtStart)
  }

  function AfterValue(nest: Nest): Nest {
    match nest
    case Top => Top
    case InArray(_, outer) => InArray(AtComma, outer)
    case InObject(_, outer) => InObject(AtComma, outer)
  }

  /** Where a colon or comma leads; None where it is out of place. */
  function Swallow(t: Token, nest: Nest): Option<Nest> {
    if t == Mark(':') && nest.InObject? && nest.at == AtColon then Some(InObject(AtValue, nest.outer))
    else if t == Mark(',') && nest.InArray? && nest.at == AtComma then Some(InArray(AtValue, nest.outer))
    else if t == Mark(',') && nest.InObject? && nest.at == AtComma then Some(InObject(AtKey, nest.outer))
    else None
  }

  /** Where any other token leads; None where it is out of place, malformed, or a number that does not fit. */
  function Accept(t: Token, nest: Nest, fits: string -> bool): Option<Nest> {
    if t == Mark('[') then if TakesValue(nest) then Some(InArray(AtStart, nest)) else None
    else if t == Mark('{') then if TakesValue(nest) then Some(InObject(AtStart, nest)) else None
    else if t == Mark(']') then
      if nest.InArray? && (nest.at == AtStart || nest.at == AtComma) then Some(AfterValue(nest.outer)) else None
    else if t == Mark('}') then
      if nest.InObject? && (nest.at == AtStart || nest.at == AtComma) then Some(AfterValue(nest.outer)) else None
    else if t.String? && nest.InObject? && (nest.at == AtStart || nest.at == AtKey) then
      Some(InObject(AtColon, nest.outer))
    else if TakesValue(nest) && (t.String? || t.Constant? || (t.Numeral? && fits(t.digits))) then
      Some(AfterValue(nest))
    else None
  }

  /** The next token to deliver, and the stream after it; None for an error or the end. */
  function Read(r: Reader): (read: Option<(Token, Reader)>)
    ensures read.Some? ==> |read.value.1.ts| < |r.ts| && !IsSeparator(read.value.0)
    decreases |r.ts|
  {
    if r.ts == [] then None
    else if IsSeparator(r.ts[0]) then
      match Swallow(r.ts[0], r.nest)
      case None => None
      case Some(nest) => Read(r.(ts := r.ts[1..], nest := nest))
    else
      match Accept(r.ts[0], r.nest, r.fits)
      case None => None
      case Some(nest) => Some((r.ts[0], r.(ts := r.ts[1..], nest := nest)))
  }

  /** Something other than a closing bracket comes next. */
  predicate HasMore(r: Reader) { r.ts != [] && !Closes(r.ts[0]) }

  class Decoder {
    const fits: string -> bool
    const stream: seq<Token>
    var pos: nat
    var nest: Nest

    predicate Valid()
      reads this
    {
      pos <= |stream|
    }

    function Rest(): Reader
      requires Valid()
      reads this
    {
      Reader(stream[pos..], nest, fits)
    }

    constructor (text: string, fits: string -> bool)
      ensures Valid() && Rest() == Reader(Lex(text), Top, fits)
    {
      this.fits := fits;
      stream := Lex(text);
      pos := 0;
      nest := Top;
    }

    method Token() returns (t: Option<Token>)
      requires Valid()
      modifies this
      ensures Valid()
      ensures match Read(old(Rest()))
              case None => t == None
              case Some(read) => t == Some(read.0) && Rest() == read.1
    {
      while pos < |stream|
        invariant Valid() && Read(Rest()) == Read(old(Rest()))
        decreases |stream| - pos
      {
        var c := stream[pos];
        assert Rest().ts[0] == c && Rest().ts[1..] == stream[pos + 1..];
        var next := if IsSeparator(c) then Swallow(c, nest) else Accept(c, nest, fits);
        if next == None {
          return None;
        }
        pos, nest := pos + 1, next.value;
        if !IsSeparator(c) {
          return Some(c);
        }
      }
      return None;
    }

    method More() returns (more: bool)
      requires Valid()
      ensures more == HasMore(Rest())
    {
      more := pos < |stream| && !Closes(stream[pos]);
    }
  }
}
