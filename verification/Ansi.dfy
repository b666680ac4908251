/** internal/uikit/render_md.go: ANSI escape sequences inside styled text. */
module Ansi {

  const ESC: char := '\U{1B}'
  const BEL: char := '\U{07}'

  // ---- Escape sequences ----

  predicate IsCsiFinal(c: char) { '@' <= c <= '~' }

  function CsiEnd(s: string, i: nat): (e: nat)
    requires i <= |s|
    ensures i <= e <= |s|
    decreases |s| - i
  {
    if i == |s| then i else if IsCsiFinal(s[i]) then i + 1 else CsiEnd(s, i + 1)
  }

  function OscEnd(s: string, i: nat): (e: nat)
    requires i <= |s|
    ensures i <= e <= |s|
    decreases |s| - i
  {
    if i == |s| then i
    else if s[i] == BEL then i + 1
    else if s[i] == ESC && i + 1 < |s| && s[i + 1] == '\\' then i + 2
    else OscEnd(s, i + 1)
  }

  /** The length of the escape sequence s begins with, 0 when it begins with none. */
  function SeqLen(s: string): (n: nat)
    ensures n <= |s|
    ensures n > 0 <==> |s| >= 2 && s[0] == ESC
    ensures n > 0 ==> n >= 2
  {
    if |s| < 2 || s[0] != ESC then 0
    else if s[1] == '[' then CsiEnd(s, 2)
    else if s[1] == ']' then OscEnd(s, 2)
    else 2
  }

  method AnsiSeqLen(s: string) returns (n: nat)
    ensures n == SeqLen(s)
  {
    if |s| < 2 || s[0] != ESC {
      return 0;
    }
    if s[1] == '[' {
      for i := 2 to |s|
        invariant CsiEnd(s, 2) == CsiEnd(s, i)
      {
        if IsCsiFinal(s[i]) {
          return i + 1;
        }
      }
      return |s|;
    } else if s[1] == ']' {
      for i := 2 to |s|
        invariant OscEnd(s, 2) == OscEnd(s, i)
      {
        if s[i] == BEL {
          return i + 1;
        }
        if s[i] == ESC && i + 1 < |s| && s[i + 1] == '\\' {
          return i + 2;
        }
      }
      return |s|;
    } else {
      return 2;
    }
  }

  // ---- The sequences themselves (ECMA-48 sections 5.4 and 8.3.89) ----

  /** ESC [, any parameters, and the first character from @ to ~. */
  lemma CsiSequence(params: string, final: char, rest: string)
    requires '@' <= final <= '~' && forall i :: 0 <= i < |params| ==> !('@' <= params[i] <= '~')
    ensures SeqLen("\U{1B}[" + params + [final] + rest) == |params| + 3
    ensures SeqLen("\U{1B}[" + params) == |params| + 2
  {
    var s := "\U{1B}[" + params + [final] + rest;
    CsiScan(s, 2, |params| + 2);
    var cut := "\U{1B}[" + params;
    CsiScan(cut, 2, |cut|);
  }

  lemma {:induction false} CsiScan(s: string, i: nat, e: nat)
    requires i <= e <= |s| && forall k :: i <= k < e ==> !('@' <= s[k] <= '~')
    requires e < |s| ==> '@' <= s[e] <= '~'
    ensures CsiEnd(s, i) == if e < |s| then e + 1 else e
    decreases e - i
  {
    if i < e { CsiScan(s, i + 1, e); }
  }

  /** ESC ], any text, and the bell character or ESC and a backslash. */
  lemma OscSequence(title: string, rest: string)
    requires forall i :: 0 <= i < |title| ==> title[i] != '\U{07}' && title[i] != '\U{1B}'
    ensures SeqLen("\U{1B}]" + title + "\U{07}" + rest) == |title| + 3
    ensures SeqLen("\U{1B}]" + title + "\U{1B}\\" + rest) == |title| + 4
    ensures SeqLen("\U{1B}]" + title) == |title| + 2
  {
    var bell, back := "\U{1B}]" + title + "\U{07}" + rest, "\U{1B}]" + title + "\U{1B}\\" + rest;
    var cut := "\U{1B}]" + title;
    OscScan(bell, 2, |title| + 2);
    OscScan(back, 2, |title| + 2);
    OscScan(cut, 2, |title| + 2);
    assert OscEnd(bell, |title| + 2) == |title| + 3;
    assert OscEnd(back, |title| + 2) == |title| + 4;
  }

  lemma {:induction false} OscScan(s: string, i: nat, e: nat)
    requires i <= e <= |s| && forall k :: i <= k < e ==> s[k] != '\U{07}' && s[k] != '\U{1B}'
    ensures OscEnd(s, i) == OscEnd(s, e)
    decreases e - i
  {
    if i < e { OscScan(s, i + 1, e); }
  }

  /** ESC and any other character. */
  lemma TwoByteSequence(c: char, rest: string)
    requires c != '[' && c != ']'
    ensures SeqLen("\U{1B}" + [c] + rest) == 2
    ensures SeqLen("\U{1B}") == 0 && (c != '\U{1B}' ==> SeqLen([c] + rest) == 0)
  {}

  // ---- Styled text as pieces ----

  datatype Piece = Byte(c: char) | Seq(text: string)

  function Pieces(s: string): seq<Piece> {
    if s == [] then []
    else if SeqLen(s) > 0 then [Seq(s[..SeqLen(s)])] + Pieces(s[SeqLen(s)..])
    else [Byte(s[0])] + Pieces(s[1..])
  }

  function Written(p: Piece): string { if p.Byte? then [p.c] else p.text }

  function Visible(p: Piece): string { if p.Byte? then [p.c] else [] }

  function Unparse(ps: seq<Piece>): string {
    if ps == [] then [] else Written(ps[0]) + Unparse(ps[1..])
  }

  function Bytes(ps: seq<Piece>): string {
    if ps == [] then [] else Visible(ps[0]) + Bytes(ps[1..])
  }

  function WithoutEscape(bytes: string): string {
    if bytes != "" && bytes[|bytes| - 1] == ESC then bytes[..|bytes| - 1] else bytes
  }

  /** ansi.Strip, a library function: the text without its escape sequences. Whether it keeps a lone escape character
      at the end, which starts no sequence, is left open. */
  function Plain(styled: string, keepsEscape: bool): string {
    var bytes := Bytes(Pieces(styled));
    if keepsEscape then bytes else WithoutEscape(bytes)
  }

  lemma {:induction false} UnparsePieces(s: string)
    ensures Unparse(Pieces(s)) == s
  {
    if s == [] {
    } else if SeqLen(s) > 0 {
      UnparsePieces(s[SeqLen(s)..]);
      assert s == s[..SeqLen(s)] + s[SeqLen(s)..];
    } else {
      UnparsePieces(s[1..]);
      assert s == [s[0]] + s[1..];
    }
  }

  /** The text ends in a lone escape character, which starts no sequence. */
  predicate EndsInEscape(ps: seq<Piece>) { ps != [] && ps[|ps| - 1] == Byte(ESC) }

  /** A piece that reads the same whatever follows it. */
  ghost predicate Stable(p: Piece) {
    match p
    case Byte(c) => c != ESC
    case Seq(t) => |t| >= 2 && forall rest :: SeqLen(t + rest) == |t|
  }

  /** A last piece: possibly a sequence cut off by the end of the text, or a lone escape character. */
  predicate Final(p: Piece) {
    p.Seq? ==> |p.text| >= 2 && SeqLen(p.text) == |p.text|
  }

  ghost predicate WellCut(ps: seq<Piece>) {
    ps == [] || (if |ps| == 1 then Final(ps[0]) else Stable(ps[0]) && WellCut(ps[1..]))
  }

  /** Only the last byte can be an escape character. */
  lemma {:induction false} EscapeComesLast(ps: seq<Piece>)
    requires WellCut(ps)
    ensures EndsInEscape(ps) <==> Bytes(ps) != "" && Bytes(ps)[|Bytes(ps)| - 1] == ESC
  {
    if |ps| > 1 {
      EscapeComesLast(ps[1..]);
    } else if |ps| == 1 {
      assert ps[1..] == [];
    }
  }

  lemma {:induction false} CsiEndLocal(s: string, i: nat, rest: string)
    requires i <= |s| && CsiEnd(s, i) < |s|
    ensures var e := CsiEnd(s, i); i <= e && CsiEnd(s[..e] + rest, i) == e
    decreases |s| - i
  {
    if !IsCsiFinal(s[i]) {
      CsiEndLocal(s, i + 1, rest);
    }
  }

  lemma {:induction false} OscEndLocal(s: string, i: nat, rest: string)
    requires i <= |s| && OscEnd(s, i) < |s|
    ensures var e := OscEnd(s, i); i <= e && OscEnd(s[..e] + rest, i) == e
    decreases |s| - i
  {
    if !(s[i] == BEL || (s[i] == ESC && i + 1 < |s| && s[i + 1] == '\\')) {
      OscEndLocal(s, i + 1, rest);
      var e := OscEnd(s, i);
      if i + 1 == e { assert s[i + 1] == s[e]; }
    }
  }

  lemma SequenceIsStable(s: string)
    requires 0 < SeqLen(s) < |s|
    ensures Stable(Seq(s[..SeqLen(s)]))
  {
    var n := SeqLen(s);
    forall rest ensures SeqLen(s[..n] + rest) == n {
      if s[1] == '[' { CsiEndLocal(s, 2, rest); }
      else if s[1] == ']' { OscEndLocal(s, 2, rest); }
    }
  }

  lemma {:induction false} PiecesAreWellCut(s: string)
    ensures WellCut(Pieces(s))
  {
    if s == [] {
    } else if SeqLen(s) > 0 {
      var rest := s[SeqLen(s)..];
      PiecesAreWellCut(rest);
      assert Pieces(s)[1..] == Pieces(rest);
      if rest != [] {
        SequenceIsStable(s);
      } else {
        assert s[..SeqLen(s)] == s;
      }
    } else {
      PiecesAreWellCut(s[1..]);
      assert Pieces(s)[1..] == Pieces(s[1..]);
    }
  }
}
