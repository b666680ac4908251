/** internal/store/helpers.go: turning an imported header row into safe, distinct column names. */
module Headers {
  import opened Text

  /** A code point of a raw header, or a byte that is not valid UTF-8. */
  datatype Unit = Rune(c: char) | BadByte

  type Raw = seq<Unit>

  // ---- Safe names ----

  predicate IsUnsafe(c: char) {
    c == '"' || c == '\\' || IsControl(c) || IsFormat(c)
  }

  predicate IsSafeColumnName(s: string) { s != "" && Without(s, IsUnsafe) }

  predicate IsUnitSpace(u: Unit) { u.Rune? && IsSpace(u.c) }

  /** strings.ToValidUTF8(s, "_"): every run of invalid bytes becomes one underscore. */
  function ToValidUTF8(s: Raw): string {
    if s == [] then []
    else if s[0].Rune? then [s[0].c] + ToValidUTF8(s[1..])
    else (if |s| > 1 && s[1].BadByte? then [] else ['_']) + ToValidUTF8(s[1..])
  }

  function Masked(c: char): char { if IsUnsafe(c) then '_' else c }

  method ReplaceUnsafe(s: Raw) returns (r: string)
    ensures |r| == |ToValidUTF8(s)| && forall i :: 0 <= i < |r| ==> r[i] == Masked(ToValidUTF8(s)[i])
  {
    var valid := ToValidUTF8(s);
    r := "";
    for i := 0 to |valid|
      invariant |r| == i && forall j :: 0 <= j < i ==> r[j] == Masked(valid[j])
    {
      if IsUnsafe(valid[i]) {
        r := r + "_";
      } else {
        r := r + [valid[i]];
      }
    }
  }

  function Mask(s: string): string { seq(|s|, i requires 0 <= i < |s| => Masked(s[i])) }

  // ---- Numbers ----

  function Decimal(n: nat): (s: string)
    ensures s != "" && forall i :: 0 <= i < |s| ==> '0' <= s[i] <= '9'
    ensures |s| == 1 <==> n < 10
  {
    var digit := ['0' + (n % 10) as char];
    if n < 10 then digit else Decimal(n / 10) + digit
  }

  lemma {:induction false} DecimalIsInjective(a: nat, b: nat)
    requires Decimal(a) == Decimal(b)
    ensures a == b
  {
    var s := Decimal(a);
    assert s[|s| - 1] == '0' + (a % 10) as char == '0' + (b % 10) as char;
    if a >= 10 && b >= 10 {
      assert Decimal(a / 10) == s[..|s| - 1] == Decimal(b / 10);
      DecimalIsInjective(a / 10, b / 10);
    }
  }

  /** fmt.Sprintf("%s_%d", h, k). */
  function Suffixed(h: string, k: nat): string { h + "_" + Decimal(k) }

  lemma SuffixedIsInjective(h: string, j: nat, k: nat)
    requires Suffixed(h, j) == Suffixed(h, k)
    ensures j == k
  {
    assert Suffixed(h, j)[|h| + 1..] == Decimal(j) && Suffixed(h, k)[|h| + 1..] == Decimal(k);
    DecimalIsInjective(j, k);
  }

  // ---- Specification ----

  /** The header before duplicates are told apart: trimmed, made safe, and filled in when empty. */
  function Clean(h: Raw, position: nat): string {
    var t := Mask(ToValidUTF8(Trim(h, IsUnitSpace)));
    if t == "" then "column_" + Decimal(position) else t
  }

  function CleanAll(raw: seq<Raw>): (r: seq<string>)
    ensures |r| == |raw| && forall i :: 0 <= i < |raw| ==> r[i] == Clean(raw[i], i + 1)
  {
    seq(|raw|, i requires 0 <= i < |raw| => Clean(raw[i], i + 1))
  }

  /** The taken names among h_k, h_{k+1}, ...: what can still stand in the way of the search. */
  ghost function Blocking(taken: set<string>, h: string, k: nat): set<string> {
    set s | s in taken && exists j: nat :: k <= j && s == Suffixed(h, j)
  }

  lemma BlockingShrinks(taken: set<string>, h: string, k: nat)
    requires Suffixed(h, k) in taken
    ensures |Blocking(taken, h, k + 1)| < |Blocking(taken, h, k)|
  {
    var now, later := Blocking(taken, h, k), Blocking(taken, h, k + 1);
    if Suffixed(h, k) in later {
      var j: nat :| k + 1 <= j && Suffixed(h, k) == Suffixed(h, j);
      SuffixedIsInjective(h, j, k);
      assert false;
    }
    assert Suffixed(h, k) in now && later <= now - {Suffixed(h, k)};
    SubsetSize(later, now - {Suffixed(h, k)});
  }

  /** The least k with h_k free. */
  ghost function LeastFree(taken: set<string>, h: string, k: nat): (r: nat)
    ensures r >= k && Suffixed(h, r) !in taken
    ensures forall j: nat :: k <= j < r ==> Suffixed(h, j) in taken
    decreases |Blocking(taken, h, k)|
  {
    if Suffixed(h, k) !in taken then k
    else
      BlockingShrinks(taken, h, k);
      LeastFree(taken, h, k + 1)
  }

  /** A name that is free stays; a taken one gets the least free numbered suffix. */
  ghost function Pick(taken: set<string>, h: string): (r: string)
    ensures r !in taken
  {
    if h !in taken then h else Suffixed(h, LeastFree(taken, h, 1))
  }

  function Names(s: seq<string>): set<string> { set i | 0 <= i < |s| :: s[i] }

  /** The names given so far, then the rest one by one. */
  ghost function Distinguish(clean: seq<string>): (r: seq<string>)
    ensures |r| == |clean|
  {
    if clean == [] then []
    else
      var before := Distinguish(clean[..|clean| - 1]);
      before + [Pick(Names(before), clean[|clean| - 1])]
  }

  ghost function Sanitized(raw: seq<Raw>): seq<string> { Distinguish(CleanAll(raw)) }

  // ---- The code ----

  /** The inner search; it ends because only finitely many names are taken and the candidates differ. */
  method NextFree(h: string, seen: map<string, nat>) returns (n: nat)
    requires h in seen
    requires forall j: nat :: 1 <= j <= seen[h] ==> Suffixed(h, j) in seen
    ensures n == LeastFree(seen.Keys, h, 1) && n > seen[h]
  {
    n := seen[h] + 1;
    while Suffixed(h, n) in seen
      invariant n > seen[h] && forall j: nat :: 1 <= j < n ==> Suffixed(h, j) in seen
      decreases |Blocking(seen.Keys, h, n)|
    {
      BlockingShrinks(seen.Keys, h, n);
      n := n + 1;
    }
  }

  ghost predicate CountersAreRight(seen: map<string, nat>) {
    forall h, j: nat :: h in seen && 1 <= j <= seen[h] ==> Suffixed(h, j) in seen
  }

  lemma CountersGrow(seen: map<string, nat>, h: string, n: nat)
    requires CountersAreRight(seen)
    requires forall j: nat :: 1 <= j < n ==> Suffixed(h, j) in seen
    ensures CountersAreRight(seen[h := n][Suffixed(h, n) := 0])
  {
    var next := seen[h := n][Suffixed(h, n) := 0];
    forall g, j: nat | g in next && 1 <= j <= next[g] ensures Suffixed(g, j) in next {
      if g != h { assert g in seen && next[g] == seen[g]; }
    }
  }

  /** One header cleaned on its own. */
  method CleanHeader(h: Raw, position: nat) returns (r: string)
    ensures r == Clean(h, position)
  {
    r := ReplaceUnsafe(Trim(h, IsUnitSpace));
    assert r == Mask(ToValidUTF8(Trim(h, IsUnitSpace)));
    if r == "" {
      r := "column_" + Decimal(position);
    }
  }

  /** The first step: every header cleaned on its own. */
  method CleanHeaders(raw: seq<Raw>) returns (cleaned: array<string>)
    ensures fresh(cleaned) && cleaned[..] == CleanAll(raw)
  {
    hide Clean;
    cleaned := new string[|raw|](i => "");
    ghost var goal := CleanAll(raw);
    for i := 0 to |raw|
      invariant forall j :: 0 <= j < i ==> cleaned[j] == goal[j]
    {
      var h := CleanHeader(raw[i], i + 1);
      cleaned[i] := h;
    }
  }

  lemma NamesPush(s: seq<string>, name: string)
    ensures Names(s + [name]) == Names(s) + {name}
  {
    assert forall i :: 0 <= i < |s| ==> (s + [name])[i] == s[i];
    assert (s + [name])[|s|] == name;
  }

  /** The loop body: the name for one header and the updated counters. */
  method Assign(h: string, seen: map<string, nat>) returns (name: string, next: map<string, nat>)
    requires CountersAreRight(seen)
    ensures name == Pick(seen.Keys, h)
    ensures next.Keys == seen.Keys + {name} && CountersAreRight(next)
  {
    if h !in seen {
      return h, seen[h := 0];
    }
    var n := NextFree(h, seen);
    name := Suffixed(h, n);
    CountersGrow(seen, h, n);
    next := seen[h := n][name := 0];
  }

  method SanitizeImportHeaders(raw: seq<Raw>) returns (cleaned: array<string>)
    ensures fresh(cleaned) && cleaned[..] == Sanitized(raw)
  {
    cleaned := CleanHeaders(raw);
    ghost var clean := cleaned[..];
    var seen: map<string, nat> := map[];
    for i := 0 to cleaned.Length
      invariant cleaned[i..] == clean[i..]
      invariant cleaned[..i] == Distinguish(clean[..i])
      invariant seen.Keys == Names(cleaned[..i]) && CountersAreRight(seen)
    {
      ghost var before := cleaned[..i];
      assert clean[..i + 1][..i] == clean[..i] && cleaned[i..][0] == clean[i];
      cleaned[i], seen := Assign(cleaned[i], seen);
      assert cleaned[..i + 1] == before + [cleaned[i]];
      NamesPush(before, cleaned[i]);
      assert cleaned[i + 1..] == clean[i..][1..];
    }
    assert clean[..|raw|] == clean && cleaned[..|raw|] == cleaned[..];
  }

  // ---- Theorems ----

  predicate AllSafe(names: seq<string>) {
    forall i :: 0 <= i < |names| ==> IsSafeColumnName(names[i])
  }

  lemma DecimalIsSafe(h: string, n: nat)
    requires Without(h, IsUnsafe)
    ensures IsSafeColumnName(h + Decimal(n)) && IsSafeColumnName(Suffixed(h, n))
  {
    assert forall c :: '0' <= c <= '9' ==> !IsUnsafe(c);
  }

  lemma CleanIsSafe(h: Raw, position: nat)
    ensures IsSafeColumnName(Clean(h, position))
  {
    var t := Mask(ToValidUTF8(Trim(h, IsUnitSpace)));
    assert forall i :: 0 <= i < |t| ==> !IsUnsafe(t[i]);
    DecimalIsSafe("column_", position);
  }

  lemma NamesMembers(s: seq<string>, x: string)
    ensures x in Names(s) <==> x in s
  {}

  lemma {:induction false} DistinguishedNames(clean: seq<string>)
    requires AllSafe(clean)
    ensures AllSafe(Distinguish(clean)) && Distinct(Distinguish(clean))
  {
    if clean != [] {
      var n := |clean| - 1;
      var before := Distinguish(clean[..n]);
      DistinguishedNames(clean[..n]);
      DecimalIsSafe(clean[n], LeastFree(Names(before), clean[n], 1));
      NamesMembers(before, Pick(Names(before), clean[n]));
    }
  }

  /** Whatever the raw row holds, the result has one name per header, every name safe and no two the same. */
  lemma SanitizedNamesAreSafeAndDistinct(raw: seq<Raw>)
    ensures |Sanitized(raw)| == |raw|
    ensures AllSafe(Sanitized(raw)) && Distinct(Sanitized(raw))
  {
    var clean := CleanAll(raw);
    forall i | 0 <= i < |clean| ensures IsSafeColumnName(clean[i]) {
      CleanIsSafe(raw[i], i + 1);
    }
    DistinguishedNames(clean);
  }

  // ---- Rows that need no change ----

  function AsRaw(name: string): Raw { seq(|name|, i requires 0 <= i < |name| => Rune(name[i])) }

  function RowOf(names: seq<string>): seq<Raw> { seq(|names|, i requires 0 <= i < |names| => AsRaw(names[i])) }

  predicate Trimmed(name: string) {
    name != "" ==> !IsSpace(name[0]) && !IsSpace(name[|name| - 1])
  }

  lemma {:induction false} ValidOfRunes(name: string)
    ensures ToValidUTF8(AsRaw(name)) == name
  {
    if name != "" {
      ValidOfRunes(name[1..]);
      assert AsRaw(name)[1..] == AsRaw(name[1..]);
      assert name == [name[0]] + name[1..];
    }
  }

  lemma MaskOfSafe(name: string)
    requires Without(name, IsUnsafe)
    ensures Mask(name) == name
  {}

  lemma CleanKeeps(name: string, position: nat)
    requires IsSafeColumnName(name) && Trimmed(name)
    ensures Clean(AsRaw(name), position) == name
  {
    TrimFixed(AsRaw(name), IsUnitSpace);
    ValidOfRunes(name);
    MaskOfSafe(name);
  }

  lemma {:induction false} DistinguishKeeps(names: seq<string>)
    ensures Distinguish(names) == names <==> Distinct(names)
  {
    if names != [] {
      var n := |names| - 1;
      DistinguishKeeps(names[..n]);
      assert names == names[..n] + [names[n]];
      NamesMembers(names[..n], names[n]);
      assert Distinguish(names)[..n] == Distinguish(names[..n]);
      if Distinct(names[..n]) && names[n] !in names[..n] {
        assert Distinct(names);
      }
    }
  }

  function Shown(u: Unit): char { if u.Rune? then u.c else '_' }

  lemma {:induction false} ValidEnds(s: Raw)
    requires s != []
    ensures ToValidUTF8(s) != "" && ToValidUTF8(s)[0] == Shown(s[0])
    ensures var r := ToValidUTF8(s); r[|r| - 1] == Shown(s[|s| - 1])
  {
    if |s| > 1 {
      ValidEnds(s[1..]);
    } else {
      assert s[1..] == [];
    }
  }

  lemma CleanIsTrimmed(h: Raw, position: nat)
    ensures Clean(h, position) != "" && Trimmed(Clean(h, position))
  {
    var a, b := TrimParts(h, IsUnitSpace);
    var t := Trim(h, IsUnitSpace);
    assert forall c :: '0' <= c <= '9' ==> !IsSpace(c);
    if t != [] {
      ValidEnds(t);
      assert !IsSpace(Shown(t[0])) && !IsSpace(Shown(t[|t| - 1]));
    } else {
      assert Clean(h, position) == "column_" + Decimal(position);
    }
  }

  predicate AllTrimmed(names: seq<string>) {
    forall i :: 0 <= i < |names| ==> names[i] != "" && Trimmed(names[i])
  }

  lemma {:induction false} DistinguishedAreTrimmed(clean: seq<string>)
    requires AllTrimmed(clean)
    ensures AllTrimmed(Distinguish(clean))
  {
    if clean != [] {
      DistinguishedAreTrimmed(clean[..|clean| - 1]);
      assert forall c :: '0' <= c <= '9' ==> !IsSpace(c);
    }
  }

  /** Sanitizing changes nothing exactly when every name is safe and trimmed and no two are the same. */
  lemma UnchangedIffClean(names: seq<string>)
    ensures Sanitized(RowOf(names)) == names <==> AllSafe(names) && Distinct(names) && AllTrimmed(names)
  {
    var raw := RowOf(names);
    var clean := CleanAll(raw);
    SanitizedNamesAreSafeAndDistinct(raw);
    forall i | 0 <= i < |clean| ensures clean[i] != "" && Trimmed(clean[i]) {
      CleanIsTrimmed(raw[i], i + 1);
    }
    DistinguishedAreTrimmed(clean);
    if AllSafe(names) && Distinct(names) && AllTrimmed(names) {
      forall i | 0 <= i < |names| ensures clean[i] == names[i] {
        CleanKeeps(names[i], i + 1);
      }
      assert clean == names;
      DistinguishKeeps(names);
    }
  }

  /** Hence sanitizing twice is sanitizing once. */
  lemma SanitizingIsIdempotent(raw: seq<Raw>)
    ensures Sanitized(RowOf(Sanitized(raw))) == Sanitized(raw)
  {
    var clean := CleanAll(raw);
    SanitizedNamesAreSafeAndDistinct(raw);
    forall i | 0 <= i < |clean| ensures clean[i] != "" && Trimmed(clean[i]) {
      CleanIsTrimmed(raw[i], i + 1);
    }
    DistinguishedAreTrimmed(clean);
    UnchangedIffClean(Sanitized(raw));
  }

  // ---- Characters, numbers and rows as they are written ----

  /** Of the printable ASCII characters only quote and backslash are replaced; control characters, the byte order
      mark and other invisible format characters always are. */
  lemma UnsafeCharacters(c: char)
    ensures ' ' <= c <= '~' ==> (IsUnsafe(c) <==> c == '"' || c == '\\')
    ensures c < ' ' || '\U{7F}' <= c <= '\U{9F}' ==> IsUnsafe(c)
    ensures c in "\U{AD}\U{200B}\U{200D}\U{202E}\U{2066}\U{FEFF}" ==> IsUnsafe(c)
    ensures '\U{A1}' <= c < '\U{600}' && c != '\U{AD}' ==> !IsUnsafe(c)
  {}

  /** The number that digits stand for. */
  ghost function ValueOf(s: string): nat {
    if s == "" then 0 else 10 * ValueOf(s[..|s| - 1]) + DigitOf(s[|s| - 1])
  }

  ghost function DigitOf(c: char): nat {
    if k: nat :| k < |DIGITS| && DIGITS[k] == c then k else 0
  }

  lemma DigitIs(k: nat)
    requires k < 10
    ensures |DIGITS| == 10 && DIGITS[k] as int == '0' as int + k && DigitOf(DIGITS[k]) == k
  {
    forall j: nat | j < 10 ensures |DIGITS| == 10 && DIGITS[j] as int == '0' as int + j { DigitAt(j); }
  }

  /** A number is written in decimal, without leading zeros. */
  lemma {:induction false} DecimalMeans(n: nat)
    ensures ValueOf(Decimal(n)) == n && (n > 0 ==> Decimal(n)[0] != '0') && (n < 10 ==> |Decimal(n)| == 1)
  {
    DigitIs(n % 10);
    var digit := ['0' + (n % 10) as char];
    assert digit == [DIGITS[n % 10]];
    if n < 10 {
      assert digit[..0] == "";
    } else {
      DecimalMeans(n / 10);
      var s := Decimal(n);
      assert s[..|s| - 1] == Decimal(n / 10) && s[|s| - 1] == digit[0];
    }
  }

  lemma PickFrom(taken: set<string>, h: string, k: nat)
    requires h in taken && k >= 1 && Suffixed(h, k) !in taken && forall j: nat :: 1 <= j < k ==> Suffixed(h, j) in taken
    ensures Pick(taken, h) == h + "_" + Decimal(k)
  {
    var r := LeastFree(taken, h, 1);
    assert r == k;
  }

  /** Three equal headers, and a header that is already called like a numbered one. */
  lemma Duplicates()
    ensures Distinguish(["name", "name", "name"]) == ["name", "name_1", "name_2"]
    ensures Distinguish(["x", "x_1", "x"]) == ["x", "x_1", "x_2"]
  {
    SmallNumbers();
    TwoThenThird("name", "name", "name_1");
    TwoThenThird("x", "x_1", "x_1");
  }

  lemma SmallNumbers()
    ensures Decimal(1) == "1" && Decimal(2) == "2"
    ensures "name" + "_" + "1" == "name_1" && "name" + "_" + "2" == "name_2"
    ensures "x" + "_" + "1" == "x_1" && "x" + "_" + "2" == "x_2"
  {}

  /** A name, then either the name again or the name with a 1, then the name again. */
  lemma TwoThenThird(h: string, second: string, one: string)
    requires one == h + "_" + Decimal(1) && (second == h || second == one)
    ensures Distinguish([h, second, h]) == [h, one, h + "_" + Decimal(2)]
  {
    hide Decimal;
    assert [h, second, h][..2] == [h, second] && [h, second][..1] == [h] && [h][..0] == [];
    assert Distinguish([]) == [] && Names([]) == {};
    assert Distinguish([h]) == [h];
    NamesPush([], h);
    assert [] + [h] == [h] && Names([h]) == {h};
    assert Suffixed(h, 1) == one && |one| > |h|;
    PickFrom({h}, h, 1);
    assert Distinguish([h, second]) == [h, one];
    NamesPush([h], one);
    assert [h] + [one] == [h, one] && Names([h, one]) == {h, one};
    SuffixesDiffer(h);
    PickFrom({h, one}, h, 2);
  }

  lemma SuffixesDiffer(h: string)
    ensures Suffixed(h, 2) != Suffixed(h, 1) && Suffixed(h, 2) != h
  {
    if Suffixed(h, 2) == Suffixed(h, 1) { SuffixedIsInjective(h, 2, 1); }
    assert |Suffixed(h, 2)| > |h|;
  }

  lemma BlankIsNumbered(h: Raw, position: nat)
    requires Only(h, IsUnitSpace)
    ensures Clean(h, position) == "column_" + Decimal(position)
  {
    TrimOfBlank(h, IsUnitSpace);
  }

  lemma BlankHeader(position: nat)
    ensures Clean(AsRaw(" \t"), position) == "column_" + Decimal(position)
  {
    assert Only(AsRaw(" \t"), IsUnitSpace);
    BlankIsNumbered(AsRaw(" \t"), position);
  }

  lemma TrimmedHeader(position: nat)
    ensures Clean(AsRaw("\tAge "), position) == "Age"
  {
    var a, t, b := AsRaw("\t"), AsRaw("Age"), AsRaw(" ");
    assert AsRaw("\tAge ") == a + t + b && t[0] == Rune('A') && t[2] == Rune('e');
    TrimAround(a, t, b, IsUnitSpace);
    ValidOfRunes("Age");
    assert Mask("Age") == "Age";
  }

  lemma MarkedHeader(position: nat)
    ensures Clean(AsRaw("\U{FEFF}Bad"), position) == "_Bad"
  {
    var h := AsRaw("\U{FEFF}Bad");
    TrimFixed(h, IsUnitSpace);
    ValidOfRunes("\U{FEFF}Bad");
    assert Mask("\U{FEFF}Bad") == "_Bad";
  }

  lemma BrokenHeader(position: nat)
    ensures Clean([BadByte, BadByte, Rune('a'), BadByte], position) == "_a_"
  {
    var h := [BadByte, BadByte, Rune('a'), BadByte];
    TrimFixed(h, IsUnitSpace);
    assert h[1..] == [BadByte, Rune('a'), BadByte] && h[1..][1..] == [Rune('a'), BadByte];
    assert [Rune('a'), BadByte][1..] == [BadByte] && [BadByte][1..] == [];
    assert ToValidUTF8([BadByte]) == "_" && ToValidUTF8([Rune('a'), BadByte]) == "a_";
    assert ToValidUTF8(h) == "_a_";
    assert Mask("_a_") == "_a_";
  }

  /** An empty header is named by its place, counted from 1; outer white space goes, and what is unsafe becomes an
      underscore. */
  lemma CleanedHeaders(position: nat)
    ensures Clean(AsRaw(" \t"), position) == "column_" + Decimal(position)
    ensures Clean(AsRaw("\tAge "), position) == "Age"
    ensures Clean(AsRaw("\U{FEFF}Bad"), position) == "_Bad"
    ensures Clean([BadByte, BadByte, Rune('a'), BadByte], position) == "_a_"
  {
    BlankHeader(position);
    TrimmedHeader(position);
    MarkedHeader(position);
    BrokenHeader(position);
  }

  /** In a row of blank headers every name tells its place, the first one being 1. */
  lemma BlankRow(raw: seq<Raw>)
    requires forall i :: 0 <= i < |raw| ==> Only(raw[i], IsUnitSpace)
    ensures |Sanitized(raw)| == |raw| && forall i :: 0 <= i < |raw| ==> Sanitized(raw)[i] == "column_" + Decimal(i + 1)
  {
    hide Clean, Decimal;
    var clean := CleanAll(raw);
    forall i | 0 <= i < |raw| ensures clean[i] == "column_" + Decimal(i + 1) { BlankIsNumbered(raw[i], i + 1); }
    forall i, j | 0 <= i < j < |raw| ensures clean[i] != clean[j] {
      assert clean[i][7..] == Decimal(i + 1) && clean[j][7..] == Decimal(j + 1);
      if clean[i] == clean[j] { DecimalIsInjective(i + 1, j + 1); }
    }
    DistinguishKeeps(clean);
  }
}
