/** internal/duck/promote.go: honouring the declared types of a SQLite table where its cells comply. */
module Promote {
  import opened Text

  datatype Column = Column(name: string, declared: string)

  datatype ColumnInfo = ColumnInfo(name: string, typ: string, declared: string, failingCells: int)

  /** A cell as sqlite_all_varchar delivers it: NULL or a string. */
  type Cell = Option<string>

  type Row = seq<Cell>

  /** A SELECT-list expression: the column itself, or TRY_CAST(NULLIF(TRIM(column), '') AS type). */
  datatype Projection = Bare(name: string) | TryCast(name: string, typ: string)

  datatype Output<V> = Raw(cell: Cell) | Typed(value: Option<V>)

  /** What casting does with a text, per type name; None when the cast fails. */
  type Caster<V> = (string, string) -> Option<V>

  // ---- Cells ----

  predicate IsBlankChar(c: char) { c == ' ' }

  /** NULLIF(TRIM(cell), ''). */
  function NonBlank(cell: Cell): Option<string> {
    if cell == None || Trim(cell.value, IsBlankChar) == "" then None else Some(Trim(cell.value, IsBlankChar))
  }

  function TryCastCell<V>(cell: Cell, typ: string, cast: Caster<V>): Option<V> {
    var text := NonBlank(cell);
    if text == None then None else cast(typ, text.value)
  }

  /** A cell with content that the type rejects. */
  predicate Fails<V>(cell: Cell, typ: string, cast: Caster<V>) {
    NonBlank(cell).Some? && TryCastCell(cell, typ, cast).None?
  }

  // ---- Types ----

  function UpperChar(c: char): char { if 'a' <= c <= 'z' then (c as int - 32) as char else c }

  function ToUpper(s: string): string { seq(|s|, i requires 0 <= i < |s| => UpperChar(s[i])) }

  predicate NeedsPromotion(t: string) { ToUpper(t) != "VARCHAR" && ToUpper(t) != "BLOB" }

  predicate IsTypeChar(c: char) { ('A' <= c <= 'Z') || ('0' <= c <= '9') || c == '_' }

  predicate IsParameterChar(c: char) { ('0' <= c <= '9') || c == ' ' || c == ',' }

  /** validDuckType: an upper-case name and optional parenthesized digits, spaces and commas. */
  predicate IsValidDuckType(t: string) {
    && t != "" && 'A' <= t[0] <= 'Z'
    && match IndexChar(t, '(', 0)
       case None => Only(t, IsTypeChar)
       case Some(i) =>
         Only(t[..i], IsTypeChar) && i + 1 < |t| && t[|t| - 1] == ')' && Only(t[i + 1..|t| - 1], IsParameterChar)
  }

  predicate IsProbed(c: Column) { NeedsPromotion(c.declared) && IsValidDuckType(c.declared) }

  // ---- The probe ----

  predicate Shaped(columns: seq<Column>, rows: seq<Row>) {
    && (forall r :: 0 <= r < |rows| ==> |rows[r]| == |columns|)
    && (forall i, j :: 0 <= i < j < |columns| ==> columns[i].name != columns[j].name)
  }

  /** COUNT(NULLIF(TRIM(column), '')). */
  function CountNonEmpty(rows: seq<Row>, i: nat): nat
    requires forall r :: 0 <= r < |rows| ==> i < |rows[r]|
  {
    if rows == [] then 0 else (if NonBlank(rows[0][i]).Some? then 1 else 0) + CountNonEmpty(rows[1..], i)
  }

  /** COUNT(TRY_CAST(NULLIF(TRIM(column), '') AS type)). */
  function CountCastOK<V>(rows: seq<Row>, i: nat, typ: string, cast: Caster<V>): nat
    requires forall r :: 0 <= r < |rows| ==> i < |rows[r]|
  {
    if rows == [] then 0
    else (if TryCastCell(rows[0][i], typ, cast).Some? then 1 else 0) + CountCastOK(rows[1..], i, typ, cast)
  }

  function CountFailing<V>(rows: seq<Row>, i: nat, typ: string, cast: Caster<V>): nat
    requires forall r :: 0 <= r < |rows| ==> i < |rows[r]|
  {
    if rows == [] then 0
    else (if Fails(rows[0][i], typ, cast) then 1 else 0) + CountFailing(rows[1..], i, typ, cast)
  }

  /** The difference of the two counts is the number of failing cells, and it is 0 only when there is none. */
  lemma {:induction false} CountsTellFailures<V>(rows: seq<Row>, i: nat, typ: string, cast: Caster<V>)
    requires forall r :: 0 <= r < |rows| ==> i < |rows[r]|
    ensures CountNonEmpty(rows, i) - CountCastOK(rows, i, typ, cast) == CountFailing(rows, i, typ, cast)
    ensures CountFailing(rows, i, typ, cast) > 0 <==> exists r :: 0 <= r < |rows| && Fails(rows[r][i], typ, cast)
  {
    if rows != [] {
      CountsTellFailures(rows[1..], i, typ, cast);
      if r :| 0 <= r < |rows| && Fails(rows[r][i], typ, cast) {
        if r > 0 { assert rows[1..][r - 1] == rows[r]; }
      }
      if r :| 0 <= r < |rows[1..]| && Fails(rows[1..][r][i], typ, cast) {
        assert rows[r + 1] == rows[1..][r];
      }
    }
  }

  // ---- Promotion ----

  function Failures<V>(columns: seq<Column>, rows: seq<Row>, i: nat, cast: Caster<V>): int
    requires i < |columns| && Shaped(columns, rows)
  {
    if IsProbed(columns[i])
    then CountNonEmpty(rows, i) - CountCastOK(rows, i, columns[i].declared, cast)
    else 0
  }

  function Resolved(c: Column, failures: int): string {
    if NeedsPromotion(c.declared) && (!IsValidDuckType(c.declared) || failures > 0) then "VARCHAR" else c.declared
  }

  function ProjectionExpr(name: string, declared: string, resolved: string): Projection {
    if resolved == "VARCHAR" then Bare(name) else TryCast(name, declared)
  }

  function InfoOf<V>(columns: seq<Column>, rows: seq<Row>, i: nat, cast: Caster<V>): ColumnInfo
    requires i < |columns| && Shaped(columns, rows)
  {
    var c, f := columns[i], Failures(columns, rows, i, cast);
    ColumnInfo(c.name, Resolved(c, f), c.declared, f)
  }

  function ProjectionOf<V>(columns: seq<Column>, rows: seq<Row>, i: nat, cast: Caster<V>): Projection
    requires i < |columns| && Shaped(columns, rows)
  {
    var info := InfoOf(columns, rows, i, cast);
    ProjectionExpr(info.name, info.declared, info.typ)
  }

  method PromoteSQLite<V>(declared: seq<Column>, rows: seq<Row>, cast: Caster<V>)
    returns (typed: seq<ColumnInfo>, projParts: seq<Projection>)
    requires Shaped(declared, rows)
    ensures |typed| == |projParts| == |declared|
    ensures forall i :: 0 <= i < |declared| ==>
              typed[i] == InfoOf(declared, rows, i, cast) && projParts[i] == ProjectionOf(declared, rows, i, cast)
  {
    var failures: map<string, int> := map[];
    for i := 0 to |declared|
      invariant forall n :: n in failures ==> exists j :: 0 <= j < i && declared[j].name == n
      invariant forall j :: 0 <= j < i ==>
                  Failures(declared, rows, j, cast) ==
                  if declared[j].name in failures then failures[declared[j].name] else 0
    {
      var c := declared[i];
      if IsProbed(c) {
        var ne: int := CountNonEmpty(rows, i);
        var ok: int := CountCastOK(rows, i, c.declared, cast);
        failures := failures[c.name := ne - ok];
      }
    }
    typed, projParts := [], [];
    for i := 0 to |declared|
      invariant |typed| == |projParts| == i
      invariant forall j :: 0 <= j < i ==>
                  typed[j] == InfoOf(declared, rows, j, cast) && projParts[j] == ProjectionOf(declared, rows, j, cast)
    {
      var c := declared[i];
      var failing := if c.name in failures then failures[c.name] else 0;
      var resolved := c.declared;
      if NeedsPromotion(c.declared) && (!IsValidDuckType(c.declared) || failing > 0) {
        resolved := "VARCHAR";
      }
      typed := typed + [ColumnInfo(c.name, resolved, c.declared, failing)];
      projParts := projParts + [ProjectionExpr(c.name, c.declared, resolved)];
    }
  }

  // ---- What the projection selects ----

  function IndexOf(columns: seq<Column>, name: string): nat {
    if columns == [] || columns[0].name == name then 0 else 1 + IndexOf(columns[1..], name)
  }

  lemma {:induction false} IndexOfColumn(columns: seq<Column>, i: nat)
    requires i < |columns| && forall j, k :: 0 <= j < k < |columns| ==> columns[j].name != columns[k].name
    ensures IndexOf(columns, columns[i].name) == i
  {
    if i > 0 {
      assert columns[1..][i - 1] == columns[i];
      IndexOfColumn(columns[1..], i - 1);
    }
  }

  /** The value of one SELECT-list expression in a row; None when the column does not exist. */
  function Eval<V>(p: Projection, columns: seq<Column>, row: Row, cast: Caster<V>): Option<Output<V>> {
    var k := IndexOf(columns, p.name);
    if k >= |row| then None
    else if p.Bare? then Some(Raw(row[k]))
    else Some(Typed(TryCastCell(row[k], p.typ, cast)))
  }

  function Select<V>(projParts: seq<Projection>, columns: seq<Column>, rows: seq<Row>, cast: Caster<V>)
    : (out: seq<seq<Option<Output<V>>>>)
    ensures |out| == |rows| && forall r :: 0 <= r < |rows| ==> |out[r]| == |projParts|
    ensures forall r, i :: 0 <= r < |rows| && 0 <= i < |projParts| ==>
              out[r][i] == Eval(projParts[i], columns, rows[r], cast)
  {
    seq(|rows|, r requires 0 <= r < |rows| =>
      seq(|projParts|, i requires 0 <= i < |projParts| => Eval(projParts[i], columns, rows[r], cast)))
  }

  /** A cell of the promoted table: the cell it came from, unchanged in a VARCHAR column and cast elsewhere. */
  ghost predicate IsPromoted<V>(out: Option<Output<V>>, cell: Cell, info: ColumnInfo, cast: Caster<V>) {
    if info.typ == "VARCHAR" then out == Some(Raw(cell))
    else out == Some(Typed(TryCastCell(cell, info.declared, cast)))
  }

  /** Content that the promoted cell no longer shows. */
  ghost predicate IsLost<V>(out: Option<Output<V>>, cell: Cell) {
    NonBlank(cell).Some? && (out.None? || (out.value.Typed? && out.value.value.None?))
  }

  lemma PromotedCell<V>(columns: seq<Column>, rows: seq<Row>, r: nat, i: nat, cast: Caster<V>)
    requires Shaped(columns, rows) && r < |rows| && i < |columns|
    ensures IsPromoted(Eval(ProjectionOf(columns, rows, i, cast), columns, rows[r], cast), rows[r][i],
                       InfoOf(columns, rows, i, cast), cast)
  {
    IndexOfColumn(columns, i);
  }

  /** A probed column keeps its declared type exactly when no cell fails to cast; FailingCells counts those that do. */
  lemma ProbedColumnIsTypedIff<V>(columns: seq<Column>, rows: seq<Row>, i: nat, cast: Caster<V>)
    requires Shaped(columns, rows) && i < |columns| && IsProbed(columns[i])
    ensures var info := InfoOf(columns, rows, i, cast);
            && info.failingCells == CountFailing(rows, i, info.declared, cast)
            && (info.typ == info.declared <==> forall r :: 0 <= r < |rows| ==> !Fails(rows[r][i], info.declared, cast))
            && (info.typ == "VARCHAR" <==> exists r :: 0 <= r < |rows| && Fails(rows[r][i], info.declared, cast))
  {
    CountsTellFailures(rows, i, columns[i].declared, cast);
    VarcharIsNotPromoted(columns[i].declared);
  }

  lemma VarcharIsNotPromoted(t: string)
    ensures NeedsPromotion(t) ==> t != "VARCHAR"
  {
    assert ToUpper("VARCHAR") == "VARCHAR";
  }

  /** The rows keep their number and width, the columns their order and names, and a column loses content exactly when
      its declared type is not VARCHAR, is not one to promote (a BLOB, or VARCHAR in other letter case), and some cell
      of it fails to cast. */
  lemma PromotionLosesNothingIff<V>(columns: seq<Column>, rows: seq<Row>, i: nat, cast: Caster<V>,
                                    typed: seq<ColumnInfo>, projParts: seq<Projection>)
    requires Shaped(columns, rows) && i < |columns|
    requires |typed| == |projParts| == |columns|
    requires forall j :: 0 <= j < |columns| ==>
               typed[j] == InfoOf(columns, rows, j, cast) && projParts[j] == ProjectionOf(columns, rows, j, cast)
    ensures typed[i].name == projParts[i].name == columns[i].name
    ensures var out := Select(projParts, columns, rows, cast);
            && |out| == |rows|
            && (forall r :: 0 <= r < |rows| ==>
                  |out[r]| == |rows[r]| && IsPromoted(out[r][i], rows[r][i], typed[i], cast))
            && ((forall r :: 0 <= r < |rows| ==> !IsLost(out[r][i], rows[r][i])) <==>
                columns[i].declared == "VARCHAR" || NeedsPromotion(columns[i].declared) ||
                forall r :: 0 <= r < |rows| ==> !Fails(rows[r][i], columns[i].declared, cast))
  {
    var out := Select(projParts, columns, rows, cast);
    forall r | 0 <= r < |rows| ensures IsPromoted(out[r][i], rows[r][i], typed[i], cast) {
      PromotedCell(columns, rows, r, i, cast);
    }
    forall r | 0 <= r < |rows|
      ensures IsLost(out[r][i], rows[r][i]) <==>
              typed[i].typ != "VARCHAR" && Fails(rows[r][i], columns[i].declared, cast)
    {
      assert IsPromoted(out[r][i], rows[r][i], typed[i], cast);
    }
    assert typed[i].typ == "VARCHAR" || IsProbed(columns[i]) <==>
           columns[i].declared == "VARCHAR" || NeedsPromotion(columns[i].declared);
    if IsProbed(columns[i]) {
      ProbedColumnIsTypedIff(columns, rows, i, cast);
    }
  }

  /** What becomes of the only cell of a table with one BLOB column. */
  function BlobCell<V>(text: string, cast: Caster<V>): Option<Output<V>> {
    var columns, rows := [Column("data", "BLOB")], [[Some(text)]];
    Eval(ProjectionOf(columns, rows, 0, cast), columns, rows[0], cast)
  }

  /** A BLOB column is not passed through as it is, whatever the cast does: it is not probed, yet its cells are trimmed,
      so that two different cells come out the same, blank cells become NULL, and a cell the cast rejects does too. */
  lemma BlobCellsAreCast<V>(cast: Caster<V>)
    ensures !IsProbed(Column("data", "BLOB"))
    ensures BlobCell(" x", cast) == BlobCell("x", cast)
    ensures BlobCell(" ", cast) == Some(Typed(None))
    ensures cast("BLOB", "x") == None ==> IsLost(BlobCell("x", cast), Some("x"))
  {
    assert ToUpper("BLOB") == "BLOB";
    assert Trim("x", IsBlankChar) == "x" && " x"[1..] == "x" && Trim(" x", IsBlankChar) == "x";
    assert " "[1..] == "" && Trim(" ", IsBlankChar) == "";
  }

  /** What counts of a cell is what stands between its outer spaces: nothing makes it blank, anything else is cast. */
  lemma CellsAreCast<V>(a: string, text: string, b: string, typ: string, cast: Caster<V>)
    requires (forall i :: 0 <= i < |a| ==> a[i] == ' ') && (forall i :: 0 <= i < |b| ==> b[i] == ' ')
    requires text == "" || (text[0] != ' ' && text[|text| - 1] != ' ')
    ensures var cell := Some(a + text + b);
            && TryCastCell(cell, typ, cast) == (if text == "" then None else cast(typ, text))
            && (Fails(cell, typ, cast) <==> text != "" && cast(typ, text) == None)
    ensures TryCastCell(None, typ, cast) == None && !Fails(None, typ, cast)
  {
    TrimAround(a, text, b, IsBlankChar);
  }

  // ---- Which columns are probed ----

  lemma UpperAndLower(c: char)
    ensures LowerChar(UpperChar(c)) == LowerChar(c) && UpperChar(LowerChar(c)) == UpperChar(c)
  {}

  lemma UpperIsSameLetter(a: char, b: char)
    ensures UpperChar(a) == UpperChar(b) <==> SameLetter(a, b)
  {
    hide SameLetter, UpperChar, LowerChar;
    LowerIsSameLetter(a, b);
    UpperAndLower(a);
    UpperAndLower(b);
  }

  lemma UpperIgnoresCase(a: string, b: string)
    ensures ToUpper(a) == ToUpper(b) <==> SameText(a, b)
  {
    hide SameLetter, UpperChar;
    forall x, y ensures UpperChar(x) == UpperChar(y) <==> SameLetter(x, y) { UpperIsSameLetter(x, y); }
    assert |ToUpper(a)| == |a| && |ToUpper(b)| == |b|;
    assert forall i :: 0 <= i < |a| ==> ToUpper(a)[i] == UpperChar(a[i]);
    assert forall i :: 0 <= i < |b| ==> ToUpper(b)[i] == UpperChar(b[i]);
    if ToUpper(a) == ToUpper(b) {
      assert forall i :: 0 <= i < |a| ==> ToUpper(a)[i] == ToUpper(b)[i];
    }
  }

  /** Every type is to be promoted but VARCHAR and BLOB, in whatever case they are written. */
  lemma ToPromoteIff(t: string)
    ensures NeedsPromotion(t) <==> !SameText(t, "VARCHAR") && !SameText(t, "BLOB")
  {
    UpperIgnoresCase(t, "VARCHAR");
    UpperIgnoresCase(t, "BLOB");
    assert ToUpper("VARCHAR") == "VARCHAR" && ToUpper("BLOB") == "BLOB";
  }

  /** A capital letter, then capitals, digits and underscores. */
  predicate IsTypeName(s: string) {
    s != "" && s[0] in UPPER && forall i :: 0 <= i < |s| ==> s[i] in UPPER || s[i] in DIGITS || s[i] == '_'
  }

  predicate IsParameters(s: string) {
    forall i :: 0 <= i < |s| ==> s[i] in DIGITS || s[i] == ' ' || s[i] == ','
  }

  lemma TypeNameIff(s: string)
    ensures s != "" && 'A' <= s[0] <= 'Z' && Only(s, IsTypeChar) <==> IsTypeName(s)
    ensures Only(s, IsParameterChar) <==> IsParameters(s)
  {
    forall c: char ensures (c in UPPER <==> 'A' <= c <= 'Z') && (c in DIGITS <==> '0' <= c <= '9') {
      CapitalsAndDigits(c);
    }
  }

  /** The types that may be probed: a name, alone or with parameters in parentheses. */
  lemma ValidTypeIff(t: string)
    ensures IsValidDuckType(t) <==>
            IsTypeName(t) || exists name, ps :: IsTypeName(name) && IsParameters(ps) && t == name + "(" + ps + ")"
  {
    hide IsTypeName, IsParameters;
    var paren := IndexChar(t, '(', 0);
    if IsTypeName(t) {
      NoParen(t);
      TypeNameIff(t);
    }
    forall name, ps | IsTypeName(name) && IsParameters(ps) && t == name + "(" + ps + ")"
      ensures IsValidDuckType(t)
    {
      NoParen(name);
      TypeNameIff(name);
      TypeNameIff(ps);
      assert t[|name|] == '(' && forall i :: 0 <= i < |name| ==> t[i] == name[i];
      assert paren == Some(|name|);
      assert t[..|name|] == name && t[|name| + 1..|t| - 1] == ps && t[|t| - 1] == ')';
    }
    if IsValidDuckType(t) {
      match paren
      case None => TypeNameIff(t);
      case Some(i) =>
        var name, ps := t[..i], t[i + 1..|t| - 1];
        assert t == name + "(" + ps + ")";
        assert i > 0 && name[0] == t[0];
        TypeNameIff(name);
        TypeNameIff(ps);
    }
  }

  lemma NoParen(s: string)
    requires IsTypeName(s)
    ensures forall i :: 0 <= i < |s| ==> s[i] != '('
  {
    forall i | 0 <= i < |s| ensures s[i] != '(' { CapitalsAndDigits(s[i]); }
  }

  lemma CapitalsAreProbed(t: string)
    requires t != "" && |t| != 4 && t[0] != 'V'
    requires forall i :: 0 <= i < |t| ==> 'A' <= t[i] <= 'Z'
    ensures IsProbed(Column("x", t))
  {
    hide ArePair, NeedsPromotion;
    ToPromoteIff(t);
    PairsByCode(t[0], 'V');
    PairsByCode('V', t[0]);
    assert "VARCHAR"[0] == 'V';
  }

  lemma DecimalIsName()
    ensures IsTypeName("DECIMAL")
  {
    hide IsTypeName, IsParameters;
    assert forall i :: 0 <= i < 7 ==> 'A' <= "DECIMAL"[i] <= 'Z';
    TypeNameIff("DECIMAL");
  }

  lemma WidthAndScale()
    ensures IsParameters("18, 3")
  {
    hide IsTypeName, IsParameters;
    assert forall i :: 0 <= i < 5 ==> IsParameterChar("18, 3"[i]);
    TypeNameIff("18, 3");
  }

  lemma ParametersAreProbed()
    ensures IsProbed(Column("x", "DECIMAL(18, 3)"))
  {
    hide NeedsPromotion, IsValidDuckType, IsTypeName, IsParameters, SameLetter;
    DecimalIsName();
    WidthAndScale();
    ToPromoteIff("DECIMAL(18, 3)");
    assert "DECIMAL(18, 3)" == "DECIMAL" + "(" + "18, 3" + ")";
    ValidTypeIff("DECIMAL(18, 3)");
  }

  lemma NestedIsNotValid()
    ensures !IsValidDuckType("LIST(BIGINT)")
  {
    var t := "LIST(BIGINT)";
    assert t[4] == '(' && forall i :: 0 <= i < 4 ==> t[i] != '(';
    assert IndexChar(t, '(', 0) == Some(4);
    assert t[5..|t| - 1][0] == 'B';
  }

  lemma SmallBlob()
    ensures SameText("Blob", "BLOB")
  {
    hide ArePair;
    PairsByCode('L', 'l');
    PairsByCode('O', 'o');
    PairsByCode('B', 'b');
  }

  /** Columns of the common types are probed; VARCHAR and BLOB columns, small letters and nested types are not. */
  lemma ProbedTypes()
    ensures IsProbed(Column("x", "INTEGER")) && IsProbed(Column("x", "DOUBLE"))
    ensures IsProbed(Column("x", "DECIMAL(18, 3)"))
    ensures !IsProbed(Column("x", "VARCHAR")) && !IsProbed(Column("x", "Blob"))
    ensures !IsProbed(Column("x", "integer")) && !IsProbed(Column("x", "LIST(BIGINT)"))
  {
    CapitalsAreProbed("INTEGER");
    CapitalsAreProbed("DOUBLE");
    ParametersAreProbed();
    NestedIsNotValid();
    hide NeedsPromotion;
    SmallBlob();
    ToPromoteIff("VARCHAR");
    ToPromoteIff("Blob");
    assert "integer"[0] == 'i';
  }
}
