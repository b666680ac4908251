/** internal/uikit/table.go: shrinking the columns of a table until it fits. */
module TableWidths {

  const CELL_PADDING := 1
  const MIN_COL_WIDTH := 3

  function Min(a: int, b: int): int { if a < b then a else b }

  function Sum(s: seq<int>): int {
    if s == [] then 0 else s[0] + Sum(s[1..])
  }

  /** The rendered width: every column with its padding, the separators between them and the two outer borders. */
  function Frame(widths: seq<int>, nCols: int): int {
    Sum(widths) + |widths| * (2 * CELL_PADDING) + nCols + 1
  }

  lemma {:induction false} SumConcat(a: seq<int>, b: seq<int>)
    ensures Sum(a + b) == Sum(a) + Sum(b)
  {
    if a == [] {
      assert a + b == b;
    } else {
      SumConcat(a[1..], b);
      assert (a + b)[1..] == a[1..] + b;
    }
  }

  method FrameWidth(widths: array<int>, nCols: int) returns (total: int)
    ensures total == Frame(widths[..], nCols)
  {
    total := nCols + 1;
    for c := 0 to widths.Length
      invariant total == Frame(widths[..c], nCols)
    {
      assert widths[..c + 1] == widths[..c] + [widths[c]];
      SumConcat(widths[..c], [widths[c]]);
      total := total + widths[c] + 2 * CELL_PADDING;
    }
    assert widths[..widths.Length] == widths[..];
  }

  // ---- What shrinking promises ----

  /** No column grows, and none is taken below the floor. */
  predicate Bounded(before: seq<int>, after: seq<int>) {
    && |after| == |before|
    && forall i :: 0 <= i < |after| ==> Min(before[i], MIN_COL_WIDTH) <= after[i] <= before[i]
  }

  /** Width was taken from the widest column each time, from the leftmost of several. */
  predicate Level(before: seq<int>, after: seq<int>)
    requires |after| == |before|
  {
    forall i, j :: 0 <= i < |after| && 0 <= j < |after| && after[j] < before[j] ==>
      after[i] <= after[j] + if i > j then 1 else 0
  }

  predicate AtFloor(widths: seq<int>) {
    forall i :: 0 <= i < |widths| ==> widths[i] <= MIN_COL_WIDTH
  }

  /** It stops when the table fits, filling the width exactly if anything was taken, or when nothing can be taken. */
  predicate Shrunk(before: seq<int>, after: seq<int>, maxWidth: int, nCols: int) {
    && Bounded(before, after) && Level(before, after)
    && (Frame(after, nCols) <= maxWidth || AtFloor(after))
    && (after != before ==> Frame(after, nCols) >= maxWidth)
  }

  /** The cells above the floor: they run out. */
  function Excess(widths: seq<int>): nat {
    if widths == [] then 0
    else (if widths[0] > MIN_COL_WIDTH then widths[0] - MIN_COL_WIDTH else 0) + Excess(widths[1..])
  }

  lemma {:induction false} TakeOne(widths: seq<int>, k: nat)
    requires k < |widths| && widths[k] > MIN_COL_WIDTH
    ensures Sum(widths[k := widths[k] - 1]) == Sum(widths) - 1
    ensures Excess(widths[k := widths[k] - 1]) == Excess(widths) - 1
  {
    var less := widths[k := widths[k] - 1];
    if k > 0 {
      TakeOne(widths[1..], k - 1);
      assert less[1..] == widths[1..][k - 1 := widths[k] - 1];
    } else {
      assert less[1..] == widths[1..];
    }
  }

  method FindWidest(widths: array<int>) returns (idx: int)
    ensures idx == -1 ==> AtFloor(widths[..])
    ensures idx != -1 ==> 0 <= idx < widths.Length && widths[idx] > MIN_COL_WIDTH
    ensures idx != -1 ==> forall j :: 0 <= j < widths.Length ==>
              if j < idx then widths[j] < widths[idx] else widths[j] <= widths[idx]
  {
    var widest := MIN_COL_WIDTH;
    idx := -1;
    for c := 0 to widths.Length
      invariant -1 <= idx < c
      invariant widest == if idx == -1 then MIN_COL_WIDTH else widths[idx]
      invariant widest >= MIN_COL_WIDTH && (idx != -1 ==> widest > MIN_COL_WIDTH)
      invariant forall j :: 0 <= j < c ==> if j < idx then widths[j] < widest else widths[j] <= widest
    {
      if widths[c] > widest {
        widest, idx := widths[c], c;
      }
    }
  }

  method ShrinkToFit(widths: array<int>, maxWidth: int, nCols: int)
    modifies widths
    ensures Shrunk(old(widths[..]), widths[..], maxWidth, nCols)
  {
    ghost var before := widths[..];
    while true
      invariant Bounded(before, widths[..]) && Level(before, widths[..])
      invariant widths[..] != before ==> Frame(widths[..], nCols) >= maxWidth
      decreases Excess(widths[..])
    {
      var frame := FrameWidth(widths, nCols);
      if frame <= maxWidth {
        return;
      }
      var idx := FindWidest(widths);
      if idx == -1 {
        return;
      }
      TakeOne(widths[..], idx);
      ghost var now := widths[..];
      widths[idx] := widths[idx] - 1;
      assert widths[..] == now[idx := now[idx] - 1];
    }
  }

  // ---- Consequences ----

  lemma {:induction false} SumMonotone(a: seq<int>, b: seq<int>)
    requires |a| == |b| && forall i :: 0 <= i < |a| ==> a[i] <= b[i]
    ensures Sum(a) <= Sum(b)
    ensures Sum(a) == Sum(b) ==> a == b
  {
    if a != [] {
      SumMonotone(a[1..], b[1..]);
      assert a == [a[0]] + a[1..] && b == [b[0]] + b[1..];
    }
  }

  function Floored(widths: seq<int>): seq<int> {
    seq(|widths|, i requires 0 <= i < |widths| => Min(widths[i], MIN_COL_WIDTH))
  }

  /** The shrunk table fits exactly when the table with every column at its floor would. */
  lemma FitsIffFloorFits(before: seq<int>, after: seq<int>, maxWidth: int, nCols: int)
    requires Shrunk(before, after, maxWidth, nCols)
    ensures Frame(after, nCols) <= maxWidth <==> Frame(Floored(before), nCols) <= maxWidth
  {
    SumMonotone(Floored(before), after);
    if AtFloor(after) {
      assert after == Floored(before);
    }
  }

  /** At the same total width, and no wider anywhere than the natural widths, no layout has a smaller widest column. */
  lemma WidestColumnIsMinimal(before: seq<int>, after: seq<int>, maxWidth: int, nCols: int, other: seq<int>, bound: int)
    requires Shrunk(before, after, maxWidth, nCols)
    requires |other| == |before| && Sum(other) == Sum(after)
    requires forall i :: 0 <= i < |other| ==> other[i] <= before[i] && other[i] <= bound
    ensures forall i :: 0 <= i < |after| ==> after[i] <= bound
  {
    if k :| 0 <= k < |after| && after[k] > bound {
      forall i | 0 <= i < |after| ensures other[i] <= after[i] {
        if after[i] < before[i] {
          assert after[k] <= after[i] + 1;
        }
      }
      SumMonotone(other, after);
      assert false;
    }
  }

  /** The promise leaves nothing open: it fixes the widths. */
  lemma ShrinkingIsDetermined(before: seq<int>, a: seq<int>, b: seq<int>, maxWidth: int, nCols: int)
    requires Shrunk(before, a, maxWidth, nCols) && Shrunk(before, b, maxWidth, nCols)
    ensures a == b
  {
    SameTotal(before, a, b, maxWidth, nCols);
    if forall i :: 0 <= i < |a| ==> a[i] <= b[i] {
      SumMonotone(a, b);
    } else {
      SumMonotone(b, a);
    }
  }

  lemma SameTotal(before: seq<int>, a: seq<int>, b: seq<int>, maxWidth: int, nCols: int)
    requires Shrunk(before, a, maxWidth, nCols) && Shrunk(before, b, maxWidth, nCols)
    ensures Sum(a) == Sum(b)
  {
    FitsIffFloorFits(before, a, maxWidth, nCols);
    FitsIffFloorFits(before, b, maxWidth, nCols);
    SumMonotone(a, before);
    SumMonotone(b, before);
    if AtFloor(a) && AtFloor(b) {
      assert a == Floored(before) == b;
    }
  }

  // ---- In numbers ----

  /** The width of a table: its contents, one cell of padding on both sides of each column, and a border before, between
      and after the columns. */
  lemma FrameAdds(widths: seq<int>, w: int, nCols: int)
    ensures Frame([], nCols) == nCols + 1
    ensures Frame([w] + widths, nCols) == 1 + w + 1 + Frame(widths, nCols)
  {
    assert ([w] + widths)[1..] == widths && Sum([w] + widths) == w + Sum(widths);
  }

  lemma FrameOfTwo(a: int, b: int)
    ensures Frame([a, b], 2) == a + b + 7
  {
    assert [b][1..] == [] && Sum([]) == 0 && Sum([b]) == b;
    assert [a, b][1..] == [b] && Sum([a, b]) == a + Sum([b]);
  }

  /** Two columns of 10 and 4 in 15 cells: 7 of them are frame, so both end at 4; in no room at all both end at 3. */
  lemma TwoColumns(after: seq<int>)
    ensures Frame([10, 4], 2) == 21
    ensures Shrunk([10, 4], after, 15, 2) <==> after == [4, 4]
    ensures Shrunk([10, 4], after, 0, 2) <==> after == [3, 3]
    ensures Shrunk([10, 4], after, 21, 2) <==> after == [10, 4]
  {
    FrameOfTwo(10, 4);
    FrameOfTwo(4, 4);
    FrameOfTwo(3, 3);
    if Shrunk([10, 4], after, 15, 2) { ShrinkingIsDetermined([10, 4], after, [4, 4], 15, 2); }
    if Shrunk([10, 4], after, 0, 2) { ShrinkingIsDetermined([10, 4], after, [3, 3], 0, 2); }
    if Shrunk([10, 4], after, 21, 2) { ShrinkingIsDetermined([10, 4], after, [10, 4], 21, 2); }
  }
}
