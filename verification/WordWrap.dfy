/** internal/uikit/layout_compose.go: paragraph-aware word wrapping. The width of a word is a parameter. */
module WordWrap {
  import opened Text

  type Line = seq<string>

  // ---- Widths ----

  function Total(line: Line, width: string -> nat): nat {
    if line == [] then 0 else width(line[0]) + Total(line[1..], width)
  }

  /** The words and one space between each two. */
  function LineWidth(line: Line, width: string -> nat): int {
    Total(line, width) + |line| - 1
  }

  lemma {:induction false} TotalConcat(a: Line, b: Line, width: string -> nat)
    ensures Total(a + b, width) == Total(a, width) + Total(b, width)
  {
    if a == [] {
      assert a + b == b;
    } else {
      TotalConcat(a[1..], b, width);
      assert (a + b)[1..] == a[1..] + b;
    }
  }

  lemma PushWidth(line: Line, word: string, width: string -> nat)
    ensures LineWidth(line + [word], width) == LineWidth(line, width) + 1 + width(word)
  {
    TotalConcat(line, [word], width);
    assert [word][1..] == [];
  }

  // ---- Breaking a paragraph ----

  function Flatten(lines: seq<Line>): seq<string> {
    if lines == [] then [] else Flatten(lines[..|lines| - 1]) + lines[|lines| - 1]
  }

  /** A line is within the limit, unless it is a single word. */
  predicate Fits(line: Line, maxW: int, width: string -> nat) {
    |line| == 1 || (|line| > 1 && LineWidth(line, width) <= maxW)
  }

  predicate AllFit(lines: seq<Line>, maxW: int, width: string -> nat) {
    forall i :: 0 <= i < |lines| ==> Fits(lines[i], maxW, width)
  }

  /** A way to break words into lines that fit. */
  predicate IsBreaking(lines: seq<Line>, words: seq<string>, maxW: int, width: string -> nat) {
    Flatten(lines) == words && AllFit(lines, maxW, width)
  }

  /** The next word goes on the last line if it fits there. */
  function Place(lines: seq<Line>, word: string, maxW: int, width: string -> nat): seq<Line> {
    var last := |lines| - 1;
    if lines == [] || LineWidth(lines[last], width) + 1 + width(word) > maxW then lines + [[word]]
    else lines[..last] + [lines[last] + [word]]
  }

  function Greedy(words: seq<string>, maxW: int, width: string -> nat): seq<Line> {
    if words == [] then []
    else Place(Greedy(words[..|words| - 1], maxW, width), words[|words| - 1], maxW, width)
  }

  lemma FlattenLast(lines: seq<Line>, line: Line)
    ensures Flatten(lines + [line]) == Flatten(lines) + line
  {
    assert (lines + [line])[..|lines|] == lines;
  }

  /** No line could have taken the first word of the next one. */
  predicate IsTight(lines: seq<Line>, maxW: int, width: string -> nat) {
    forall i :: 0 < i < |lines| && lines[i] != [] ==> LineWidth(lines[i - 1], width) + 1 + width(lines[i][0]) > maxW
  }

  lemma PlaceFlattens(lines: seq<Line>, word: string, maxW: int, width: string -> nat)
    ensures Flatten(Place(lines, word, maxW, width)) == Flatten(lines) + [word]
  {
    FlattenLast(lines, [word]);
    if lines != [] {
      var front, line := lines[..|lines| - 1], lines[|lines| - 1];
      FlattenLast(front, line + [word]);
      ConcatAssoc(Flatten(front), line, [word]);
    }
  }

  lemma PlaceFits(lines: seq<Line>, word: string, maxW: int, width: string -> nat)
    requires AllFit(lines, maxW, width)
    ensures AllFit(Place(lines, word, maxW, width), maxW, width)
  {
    if lines != [] {
      var line := lines[|lines| - 1];
      assert Fits(line, maxW, width);
      PushWidth(line, word, width);
    }
  }

  lemma PlaceIsTight(lines: seq<Line>, word: string, maxW: int, width: string -> nat)
    requires AllFit(lines, maxW, width) && IsTight(lines, maxW, width)
    ensures IsTight(Place(lines, word, maxW, width), maxW, width)
  {
    if lines != [] {
      assert Fits(lines[|lines| - 1], maxW, width);
    }
  }

  /** Greedy wrapping keeps the words in order, keeps to the limit, and breaks only where it must. */
  lemma {:induction false} GreedyIsBreaking(words: seq<string>, maxW: int, width: string -> nat)
    ensures IsBreaking(Greedy(words, maxW, width), words, maxW, width)
    ensures IsTight(Greedy(words, maxW, width), maxW, width)
    ensures words != [] ==> Greedy(words, maxW, width) != []
  {
    if words != [] {
      var before, word := words[..|words| - 1], words[|words| - 1];
      var lines := Greedy(before, maxW, width);
      GreedyIsBreaking(before, maxW, width);
      PlaceFlattens(lines, word, maxW, width);
      PlaceFits(lines, word, maxW, width);
      PlaceIsTight(lines, word, maxW, width);
      InitLast(words);
    }
  }

  // ---- Greedy stays ahead ----

  /** Fewer lines, or as many with no more words on the last. */
  predicate Ahead(a: seq<Line>, b: seq<Line>) {
    |a| < |b| || (|a| == |b| && (a == [] || |a[|a| - 1]| <= |b[|b| - 1]|))
  }

  lemma LastLineIsSuffix(lines: seq<Line>)
    requires lines != []
    ensures var words, last := Flatten(lines), lines[|lines| - 1];
            |last| <= |words| && last == words[|words| - |last|..]
  {}

  /** A breaking without its last word. */
  function Unplace(lines: seq<Line>): seq<Line>
    requires lines != [] && lines[|lines| - 1] != []
  {
    var k := |lines| - 1;
    var line := lines[k];
    if |line| == 1 then lines[..k] else lines[..k] + [line[..|line| - 1]]
  }

  lemma UnplaceIsBreaking(lines: seq<Line>, words: seq<string>, maxW: int, width: string -> nat)
    requires IsBreaking(lines, words, maxW, width) && lines != []
    ensures words != [] && IsBreaking(Unplace(lines), words[..|words| - 1], maxW, width)
  {
    var k := |lines| - 1;
    var front, line := lines[..k], lines[k];
    assert lines == front + [line];
    FlattenLast(front, line);
    assert Fits(line, maxW, width);
    if |line| > 1 {
      var short, word := line[..|line| - 1], line[|line| - 1];
      assert line == short + [word];
      PushWidth(short, word, width);
      FlattenLast(front, short);
    }
  }

  /** A word that fits after a line fits after every ending of the line. */
  lemma ShorterLineHasRoom(long: Line, short: Line, word: string, maxW: int, width: string -> nat)
    requires 0 < |short| <= |long| && short == long[|long| - |short|..]
    requires LineWidth(long + [word], width) <= maxW
    ensures LineWidth(short, width) + 1 + width(word) <= maxW
  {
    var rest := long[..|long| - |short|];
    assert long == rest + short;
    TotalConcat(rest, short, width);
    PushWidth(long, word, width);
  }

  lemma SuffixOfSuffix<T>(s: seq<T>, j: nat, k: nat)
    requires j <= k <= |s|
    ensures s[k..] == s[j..][k - j..]
  {}

  /** When greedy's last line is the shorter one, the next word still fits on it. */
  lemma ShorterLastHasRoom(greedy: seq<Line>, lines: seq<Line>, word: string, maxW: int, width: string -> nat)
    requires AllFit(greedy, maxW, width) && AllFit(lines, maxW, width) && greedy != [] && lines != []
    requires Flatten(lines) == Flatten(greedy) + [word]
    requires |greedy[|greedy| - 1]| < |lines[|lines| - 1]|
    ensures LineWidth(greedy[|greedy| - 1], width) + 1 + width(word) <= maxW
  {
    var before, short, line := Flatten(greedy), greedy[|greedy| - 1], lines[|lines| - 1];
    assert Fits(short, maxW, width) && Fits(line, maxW, width);
    LastLineIsSuffix(greedy);
    LastLineIsSuffix(lines);
    var long := line[..|line| - 1];
    assert (before + [word])[|before| + 1 - |line|..] == before[|before| - |long|..] + [word];
    assert line == long + [word] && long == before[|before| - |long|..];
    SuffixOfSuffix(before, |before| - |long|, |before| - |short|);
    ShorterLineHasRoom(long, short, word, maxW, width);
  }

  lemma AheadStep(greedy: seq<Line>, lines: seq<Line>, word: string, maxW: int, width: string -> nat)
    requires AllFit(greedy, maxW, width) && AllFit(lines, maxW, width) && lines != []
    requires Flatten(lines) == Flatten(greedy) + [word]
    requires lines[|lines| - 1] != [] && Ahead(greedy, Unplace(lines))
    ensures Ahead(Place(greedy, word, maxW, width), lines)
  {
    var line, shorter := lines[|lines| - 1], Unplace(lines);
    if |line| > 1 && |greedy| == |shorter| {
      assert shorter[|shorter| - 1] == line[..|line| - 1];
      ShorterLastHasRoom(greedy, lines, word, maxW, width);
    }
  }

  lemma {:induction false} GreedyIsAhead(words: seq<string>, lines: seq<Line>, maxW: int, width: string -> nat)
    requires IsBreaking(lines, words, maxW, width)
    ensures Ahead(Greedy(words, maxW, width), lines)
    decreases |words|
  {
    if words != [] {
      var before := words[..|words| - 1];
      assert Fits(lines[|lines| - 1], maxW, width);
      UnplaceIsBreaking(lines, words, maxW, width);
      GreedyIsAhead(before, Unplace(lines), maxW, width);
      GreedyIsBreaking(before, maxW, width);
      InitLast(words);
      AheadStep(Greedy(before, maxW, width), lines, words[|words| - 1], maxW, width);
    }
  }

  /** No breaking that keeps to the limit has fewer lines. */
  lemma GreedyUsesFewestLines(words: seq<string>, lines: seq<Line>, maxW: int, width: string -> nat)
    requires IsBreaking(lines, words, maxW, width)
    ensures |Greedy(words, maxW, width)| <= |lines|
  {
    GreedyIsAhead(words, lines, maxW, width);
  }

  // ---- The code ----

  function RenderLine(line: Line): string { Join(line, ' ') }

  function RenderLines(lines: seq<Line>): (r: seq<string>)
    ensures |r| == |lines| && forall i :: 0 <= i < |lines| ==> r[i] == RenderLine(lines[i])
  {
    seq(|lines|, i requires 0 <= i < |lines| => RenderLine(lines[i]))
  }

  function Render(lines: seq<Line>): string { Join(RenderLines(lines), '\n') }

  lemma RenderNewLine(lines: seq<Line>, word: string)
    requires lines != []
    ensures Render(lines + [[word]]) == Render(lines) + "\n" + word
  {
    assert RenderLines(lines + [[word]]) == RenderLines(lines) + [word];
    JoinConcat(RenderLines(lines), [word], '\n');
  }

  lemma RenderSameLine(front: seq<Line>, line: Line, word: string)
    requires line != []
    ensures Render(front + [line + [word]]) == Render(front + [line]) + " " + word
  {
    JoinConcat(line, [word], ' ');
    var a, b := RenderLine(line), RenderLine(line + [word]);
    assert RenderLines(front + [line]) == RenderLines(front) + [a];
    assert RenderLines(front + [line + [word]]) == RenderLines(front) + [b];
    if front != [] {
      JoinConcat(RenderLines(front), [a], '\n');
      JoinConcat(RenderLines(front), [b], '\n');
    }
  }

  /** The width of the line being filled. */
  function LastWidth(lines: seq<Line>, width: string -> nat): int {
    if lines == [] then 0 else LineWidth(lines[|lines| - 1], width)
  }

  /** What a placed word adds to the text and to the line being filled. */
  lemma PlaceRenders(lines: seq<Line>, word: string, maxW: int, width: string -> nat)
    requires lines != [] ==> lines[|lines| - 1] != []
    ensures var next := Place(lines, word, maxW, width);
            if lines == [] then Render(next) == word && LastWidth(next, width) == width(word)
            else if LastWidth(lines, width) + 1 + width(word) > maxW then
              Render(next) == Render(lines) + "\n" + word && LastWidth(next, width) == width(word)
            else
              Render(next) == Render(lines) + " " + word
              && LastWidth(next, width) == LastWidth(lines, width) + 1 + width(word)
  {
    PushWidth([], word, width);
    assert [] + [word] == [word];
    if lines == [] {
      assert Place(lines, word, maxW, width) == [[word]] && RenderLines([[word]]) == [word];
    } else {
      var front, line := lines[..|lines| - 1], lines[|lines| - 1];
      InitLast(lines);
      RenderNewLine(lines, word);
      RenderSameLine(front, line, word);
      PushWidth(line, word, width);
    }
  }

  lemma NothingWritten(result: string, width: string -> nat)
    ensures result + Render([]) == result && LastWidth([], width) == 0
  {}

  lemma GreedyStep(words: seq<string>, i: nat, maxW: int, width: string -> nat)
    requires i < |words|
    ensures var next := Greedy(words[..i + 1], maxW, width);
            && next == Place(Greedy(words[..i], maxW, width), words[i], maxW, width)
            && next != [] && next[|next| - 1] != []
  {
    assert words[..i + 1][..i] == words[..i] && words[..i + 1][i] == words[i];
  }

  /** The loop over the words of one paragraph, writing onto the result. */
  method WrapParagraph(result: string, words: seq<string>, maxW: int, width: string -> nat) returns (r: string)
    ensures r == result + Render(Greedy(words, maxW, width))
  {
    hide Place, Render, LineWidth, LastWidth;
    r := result;
    var lineW := 0;
    ghost var lines: seq<Line> := [];
    NothingWritten(result, width);
    for i := 0 to |words|
      invariant lines == Greedy(words[..i], maxW, width)
      invariant lines == [] <==> i == 0
      invariant lines != [] ==> lines[|lines| - 1] != []
      invariant lineW == LastWidth(lines, width)
      invariant r == result + Render(lines)
    {
      var word := words[i];
      var ww := width(word);
      PlaceRenders(lines, word, maxW, width);
      GreedyStep(words, i, maxW, width);
      lines := Place(lines, word, maxW, width);
      if i == 0 {
        r := r + word;
        lineW := ww;
      } else if lineW + 1 + ww > maxW {
        r := r + "\n" + word;
        lineW := ww;
      } else {
        r := r + " " + word;
        lineW := lineW + (1 + ww);
      }
    }
    assert words[..|words|] == words;
  }

  /** One more paragraph: it starts on a new line once anything has been written. */
  function AddParagraph(result: string, paragraph: string, maxW: int, width: string -> nat): string {
    (if result == "" then "" else result + "\n") + Render(Greedy(Fields(paragraph), maxW, width))
  }

  function WrapAll(paragraphs: seq<string>, maxW: int, width: string -> nat): string {
    if paragraphs == [] then ""
    else AddParagraph(WrapAll(paragraphs[..|paragraphs| - 1], maxW, width), paragraphs[|paragraphs| - 1], maxW, width)
  }

  function Wrapped(text: string, maxW: int, width: string -> nat): string {
    if maxW <= 0 || text == "" then text else WrapAll(Split(text, IsNewline), maxW, width)
  }

  lemma WrapAllStep(paragraphs: seq<string>, p: nat, maxW: int, width: string -> nat)
    requires p < |paragraphs|
    ensures WrapAll(paragraphs[..p + 1], maxW, width) ==
            AddParagraph(WrapAll(paragraphs[..p], maxW, width), paragraphs[p], maxW, width)
  {
    assert paragraphs[..p + 1][..p] == paragraphs[..p];
  }

  method WordWrap(text: string, maxW: int, width: string -> nat) returns (result: string)
    ensures result == Wrapped(text, maxW, width)
  {
    if maxW <= 0 || text == "" {
      return text;
    }
    result := "";
    var paragraphs := Split(text, IsNewline);
    for p := 0 to |paragraphs|
      invariant result == WrapAll(paragraphs[..p], maxW, width)
    {
      WrapAllStep(paragraphs, p, maxW, width);
      if |result| > 0 {
        result := result + "\n";
      }
      var words := Fields(paragraphs[p]);
      if |words| == 0 {
        assert Render([]) == "" && result + "" == result;
        continue;
      }
      result := WrapParagraph(result, words, maxW, width);
    }
    assert paragraphs[..|paragraphs|] == paragraphs;
  }

  /** Without any width to keep to, the text stays as it is. */
  lemma NoWidth(text: string, maxW: int, width: string -> nat)
    requires maxW <= 0
    ensures Wrapped(text, maxW, width) == text
  {}

  // ---- Whole texts ----

  lemma {:induction false} FieldsOfRender(lines: seq<Line>)
    requires forall i :: 0 <= i < |lines| ==> lines[i] != [] && forall w :: w in lines[i] ==> IsWord(w)
    ensures Fields(Render(lines)) == Flatten(lines)
  {
    if lines == [] {
      FieldsOfWord("");
    } else {
      var k := |lines| - 1;
      var front, line := lines[..k], lines[k];
      assert lines == front + [line];
      FieldsOfJoin(line, ' ');
      FlattenLast(front, line);
      if front == [] {
        assert RenderLines(lines) == [RenderLine(line)];
      } else {
        FieldsOfRender(front);
        assert RenderLines(lines) == RenderLines(front) + [RenderLine(line)];
        JoinConcat(RenderLines(front), [RenderLine(line)], '\n');
        FieldsConcat(Render(front), '\n', RenderLine(line));
      }
    }
  }

  lemma {:induction false} FlattenedMembers(lines: seq<Line>)
    ensures forall i :: 0 <= i < |lines| ==> forall w :: w in lines[i] ==> w in Flatten(lines)
  {
    if lines != [] {
      FlattenedMembers(lines[..|lines| - 1]);
    }
  }

  lemma FieldsOfParagraph(paragraph: string, maxW: int, width: string -> nat)
    ensures Fields(Render(Greedy(Fields(paragraph), maxW, width))) == Fields(paragraph)
  {
    var words := Fields(paragraph);
    var lines := Greedy(words, maxW, width);
    FieldsAreWords(paragraph);
    GreedyIsBreaking(words, maxW, width);
    FlattenedMembers(lines);
    forall i | 0 <= i < |lines| ensures lines[i] != [] && forall w :: w in lines[i] ==> IsWord(w) {
      assert Fits(lines[i], maxW, width);
    }
    FieldsOfRender(lines);
  }

  lemma FieldsOfAdded(result: string, paragraph: string, maxW: int, width: string -> nat)
    ensures Fields(AddParagraph(result, paragraph, maxW, width)) == Fields(result) + Fields(paragraph)
  {
    var added := Render(Greedy(Fields(paragraph), maxW, width));
    FieldsOfParagraph(paragraph, maxW, width);
    if result == "" {
      FieldsOfWord("");
      assert "" + added == added;
    } else {
      FieldsConcat(result, '\n', added);
    }
  }

  lemma {:induction false} FieldsOfAll(paragraphs: seq<string>, maxW: int, width: string -> nat)
    requires paragraphs != []
    ensures Fields(WrapAll(paragraphs, maxW, width)) == Fields(Join(paragraphs, '\n'))
  {
    var k := |paragraphs| - 1;
    var front, last := paragraphs[..k], paragraphs[k];
    FieldsOfAdded(WrapAll(front, maxW, width), last, maxW, width);
    if front != [] {
      FieldsOfAll(front, maxW, width);
      InitLast(paragraphs);
      JoinConcat(front, [last], '\n');
      FieldsConcat(Join(front, '\n'), '\n', last);
    } else {
      FieldsOfWord("");
      assert paragraphs == [last];
    }
  }

  /** Wrapping never drops, adds, splits or reorders words, over the whole text. */
  lemma WrappingKeepsWords(text: string, maxW: int, width: string -> nat)
    ensures Fields(Wrapped(text, maxW, width)) == Fields(text)
  {
    JoinSplit(text, '\n', IsNewline);
    FieldsOfAll(Split(text, IsNewline), maxW, width);
  }

  // ---- Lines of the output ----

  predicate IsBlank(paragraph: string) { Fields(paragraph) == [] }

  /** The output lines of one paragraph: a blank one keeps an empty line. */
  function LinesOf(paragraph: string, maxW: int, width: string -> nat): (r: seq<string>)
    ensures r != []
  {
    GreedyIsBreaking(Fields(paragraph), maxW, width);
    if IsBlank(paragraph) then [""] else RenderLines(Greedy(Fields(paragraph), maxW, width))
  }

  function AllLines(paragraphs: seq<string>, maxW: int, width: string -> nat): seq<string> {
    if paragraphs == [] then []
    else AllLines(paragraphs[..|paragraphs| - 1], maxW, width) + LinesOf(paragraphs[|paragraphs| - 1], maxW, width)
  }

  /** The blank paragraphs at the front are lost. */
  function DropBlank(paragraphs: seq<string>): seq<string> {
    if paragraphs != [] && IsBlank(paragraphs[0]) then DropBlank(paragraphs[1..]) else paragraphs
  }

  lemma {:induction false} DropBlankLast(front: seq<string>, last: string)
    ensures DropBlank(front + [last]) ==
            if DropBlank(front) == [] then if IsBlank(last) then [] else [last] else DropBlank(front) + [last]
  {
    if front == [] {
      assert [last][1..] == [] && front + [last] == [last];
    } else {
      assert (front + [last])[1..] == front[1..] + [last];
      if IsBlank(front[0]) {
        DropBlankLast(front[1..], last);
      }
    }
  }

  lemma RenderOfParagraph(paragraph: string, maxW: int, width: string -> nat)
    ensures Render(Greedy(Fields(paragraph), maxW, width)) == Join(LinesOf(paragraph, maxW, width), '\n')
    ensures Render(Greedy(Fields(paragraph), maxW, width)) == "" <==> IsBlank(paragraph)
  {
    FieldsOfParagraph(paragraph, maxW, width);
    FieldsOfWord("");
  }

  lemma AllLinesPush(kept: seq<string>, last: string, maxW: int, width: string -> nat)
    ensures AllLines(kept + [last], maxW, width) == AllLines(kept, maxW, width) + LinesOf(last, maxW, width)
  {
    assert (kept + [last])[..|kept|] == kept;
  }

  lemma SomeLines(paragraphs: seq<string>, maxW: int, width: string -> nat)
    ensures AllLines(paragraphs, maxW, width) != [] <==> paragraphs != []
  {}

  lemma JoinIfSome(lines: seq<string>, added: seq<string>)
    requires added != []
    ensures Join(lines + added, '\n') ==
            if lines == [] then Join(added, '\n') else Join(lines, '\n') + "\n" + Join(added, '\n')
  {
    if lines == [] {
      assert lines + added == added;
    } else {
      JoinConcat(lines, added, '\n');
    }
  }

  /** The output is the greedy lines of the paragraphs in turn, blank paragraphs staying as empty lines,
      except that the blank paragraphs before the first word disappear. */
  lemma {:induction false} WrapAllLines(paragraphs: seq<string>, maxW: int, width: string -> nat)
    ensures WrapAll(paragraphs, maxW, width) == Join(AllLines(DropBlank(paragraphs), maxW, width), '\n')
    ensures WrapAll(paragraphs, maxW, width) == "" <==> DropBlank(paragraphs) == []
  {
    if paragraphs != [] {
      var k := |paragraphs| - 1;
      var front, last := paragraphs[..k], paragraphs[k];
      assert paragraphs == front + [last];
      WrapAllLines(front, maxW, width);
      DropBlankLast(front, last);
      RenderOfParagraph(last, maxW, width);
      AllLinesPush(DropBlank(front), last, maxW, width);
      SomeLines(DropBlank(front), maxW, width);
      JoinIfSome(AllLines(DropBlank(front), maxW, width), LinesOf(last, maxW, width));
    }
  }

  lemma LinesConcat(paragraph: string, rest: seq<string>, maxW: int, width: string -> nat)
    ensures AllLines([paragraph] + rest, maxW, width) == LinesOf(paragraph, maxW, width) + AllLines(rest, maxW, width)
  {
    if rest == [] {
      assert [paragraph] + rest == [paragraph] && [paragraph][..0] == [];
      assert [] + LinesOf(paragraph, maxW, width) == LinesOf(paragraph, maxW, width) + [];
    } else {
      var front, last := rest[..|rest| - 1], rest[|rest| - 1];
      LinesConcat(paragraph, front, maxW, width);
      ConcatInit([paragraph], rest);
      ConcatAssoc(LinesOf(paragraph, maxW, width), AllLines(front, maxW, width), LinesOf(last, maxW, width));
    }
  }

  /** The length of a text of paragraphs that keeps every break. */
  lemma {:induction false} DroppedIsShorter(paragraphs: seq<string>, maxW: int, width: string -> nat)
    requires paragraphs != []
    ensures var kept := DropBlank(paragraphs);
            var all, left := Join(AllLines(paragraphs, maxW, width), '\n'), Join(AllLines(kept, maxW, width), '\n');
            |all| - |left| == |paragraphs| - |kept| - if kept == [] then 1 else 0
  {
    var rest := paragraphs[1..];
    HeadTail(paragraphs);
    if IsBlank(paragraphs[0]) {
      LinesConcat(paragraphs[0], rest, maxW, width);
      if rest == [] {
        assert AllLines(paragraphs, maxW, width) == [""] + [] == [""];
      } else {
        DroppedIsShorter(rest, maxW, width);
        SomeLines(rest, maxW, width);
        JoinConcat([""], AllLines(rest, maxW, width), '\n');
      }
    }
  }

  lemma DropBlankKeeps(paragraphs: seq<string>)
    ensures |DropBlank(paragraphs)| <= |paragraphs|
    ensures |DropBlank(paragraphs)| == |paragraphs| ==> DropBlank(paragraphs) == paragraphs
  {}

  /** All paragraph breaks are kept exactly when the first of several paragraphs is not blank. */
  lemma BreaksAreKeptIff(paragraphs: seq<string>, maxW: int, width: string -> nat)
    requires paragraphs != []
    ensures WrapAll(paragraphs, maxW, width) == Join(AllLines(paragraphs, maxW, width), '\n')
        <==> |paragraphs| == 1 || !IsBlank(paragraphs[0])
  {
    WrapAllLines(paragraphs, maxW, width);
    DroppedIsShorter(paragraphs, maxW, width);
    DropBlankKeeps(paragraphs[1..]);
  }

  lemma LinesOfLetter(maxW: int, width: string -> nat)
    ensures LinesOf("a", maxW, width) == ["a"] && !IsBlank("a")
  {
    FieldsOfWord("a");
    PlaceRenders([], "a", maxW, width);
    assert ["a"][..0] == [];
    assert Greedy(["a"], maxW, width) == Place([], "a", maxW, width);
  }

  lemma SplitLeadingBreak()
    ensures Split("\na", IsNewline) == ["", "a"]
  {
    assert "\na"[1..] == "a";
    SplitWhole("a", IsNewline);
  }

  /** A text that starts with a newline loses it. */
  lemma LeadingBreakIsLost(maxW: int, width: string -> nat)
    requires maxW > 0
    ensures Wrapped("\na", maxW, width) == "a"
  {
    hide Split, Greedy, LinesOf, IsBlank, Fields;
    SplitLeadingBreak();
    LinesOfLetter(maxW, width);
    BlankIsBlank();
    assert ["", "a"][1..] == ["a"] && DropBlank(["", "a"]) == ["a"];
    WrapAllLines(["", "a"], maxW, width);
    LinesConcat("a", [], maxW, width);
    assert ["a"] + [] == ["a"];
  }

  lemma BlankIsBlank()
    ensures IsBlank("")
  {
    FieldsOfWord("");
  }

  // ---- What is written ----

  /** The width of a word where every character is one cell wide. */
  function Length(w: string): nat { |w| }

  lemma {:induction false} JoinedLength(line: Line)
    requires line != []
    ensures |RenderLine(line)| == LineWidth(line, Length)
  {
    if |line| == 1 {
      assert line[1..] == [] && Total(line, Length) == Length(line[0]) + Total([], Length) == |line[0]|;
    } else {
      JoinedLength(line[1..]);
      assert Total(line, Length) == |line[0]| + Total(line[1..], Length);
    }
  }

  /** The width that is kept to the limit is the width of the written line: where every character is one cell wide, its
      length. */
  lemma WidthIsLength(words: seq<string>, maxW: int, i: nat)
    requires i < |Greedy(words, maxW, Length)|
    ensures var line := Greedy(words, maxW, Length)[i];
            |line| == 1 || |Join(line, ' ')| <= maxW
  {
    var lines := Greedy(words, maxW, Length);
    GreedyIsBreaking(words, maxW, Length);
    assert Fits(lines[i], maxW, Length);
    JoinedLength(lines[i]);
  }

  lemma GreedyThree(a: string, b: string, c: string, width: string -> nat)
    requires width(a) + 1 + width(b) == 6 && width(c) == 2
    ensures Greedy([a, b, c], 6, width) == [[a, b], [c]]
  {
    assert [a, b, c][..2] == [a, b] && [a, b][..1] == [a] && [a][..0] == [];
    PushWidth([], a, width);
    assert [] + [a] == [a];
    PushWidth([a], b, width);
    assert [a] + [b] == [a, b];
    assert Greedy([], 6, width) == [];
    assert Greedy([a], 6, width) == Place([], a, 6, width) == [[a]];
    assert [[a]][..0] == [] && [] + [[a, b]] == [[a, b]];
    assert Greedy([a, b], 6, width) == Place([[a]], b, 6, width) == [[a, b]];
    assert Greedy([a, b, c], 6, width) == Place([[a, b]], c, 6, width);
    assert [[a, b]] + [[c]] == [[a, b], [c]];
  }

  lemma WrapOne(text: string, maxW: int, width: string -> nat)
    requires Without(text, IsNewline) && text != "" && maxW > 0
    ensures Wrapped(text, maxW, width) == Render(Greedy(Fields(text), maxW, width))
  {
    hide Render, Greedy, Fields;
    SplitWhole(text, IsNewline);
    var paragraphs := [text];
    assert paragraphs[..0] == [] && paragraphs[0] == text;
    assert WrapAll(paragraphs, maxW, width) == AddParagraph(WrapAll([], maxW, width), text, maxW, width);
  }

  lemma JoinTwo(a: string, b: string, sep: char)
    ensures Join([a], sep) == a && Join([a, b], sep) == a + [sep] + b
  {
    JoinConcat([a], [b], sep);
    assert [a] + [b] == [a, b];
  }

  lemma RenderThree(a: string, b: string, c: string)
    ensures Render([[a, b], [c]]) == a + " " + b + "\n" + c
  {
    hide Join;
    JoinTwo(a, b, ' ');
    JoinTwo(c, c, ' ');
    var first := a + [' '] + b;
    assert RenderLines([[a, b], [c]]) == [first, c];
    JoinTwo(first, c, '\n');
  }

  lemma FieldsOfThree(a: string, b: string, c: string)
    requires IsWord(a) && IsWord(b) && IsWord(c)
    ensures Fields(a + " " + b + " " + c) == [a, b, c]
  {
    FieldsOfWord(a);
    FieldsOfWord(b);
    FieldsOfWord(c);
    FieldsConcat(a, ' ', b);
    FieldsConcat(a + " " + b, ' ', c);
  }

  /** Three words in six cells: the second still fits behind the first, the third starts a line. */
  lemma ThreeWords(a: string, b: string, c: string)
    requires IsWord(a) && IsWord(b) && IsWord(c) && |a| == 3 && |b| == 2 && |c| == 2
    ensures Wrapped(a + " " + b + " " + c, 6, Length) == a + " " + b + "\n" + c
  {
    hide Wrapped, Greedy, Fields, Render;
    var text := a + " " + b + " " + c;
    forall i | 0 <= i < |text| ensures !IsNewline(text[i]) {
      assert text[i] == if i < 3 then a[i] else if i == 3 || i == 6 then ' ' else if i < 6 then b[i - 4] else c[i - 7];
    }
    WrapOne(text, 6, Length);
    FieldsOfThree(a, b, c);
    GreedyThree(a, b, c, Length);
    RenderThree(a, b, c);
  }
}
