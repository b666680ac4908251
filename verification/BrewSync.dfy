/** internal/brew/brewfile.go, internal/brew/brew.go: making the Brewfile agree with the system. */
module BrewSync {
  import opened Brewfile
  import opened Order
  import opened Text

  /** The installed state, as the package managers report it; onDisk are the casks whose app is found on disk. */
  datatype System = System(leaves: seq<string>, formulae: seq<string>, casks: seq<string>, taps: seq<string>,
                           uvTools: seq<string>, onDisk: set<string>)

  // ---- Names and keys ----

  /** The name without its tap. */
  function ShortFormula(name: string): string { name[LastIndexChar(name, '/') + 1..] }

  /** Formulae are compared by bare name, everything else exactly. */
  function SetKey(typ: string, name: string): Key {
    Key(typ, if typ == "brew" then ShortFormula(name) else name)
  }

  function KeyIn(e: Entry): Key { SetKey(e.typ, e.name) }

  predicate IsScannable(typ: string) { typ in ["brew", "cask", "tap", "uv"] }

  /** fmt %q of a printable name. */
  function Quote(name: string): string { ['"'] + Escaped(name) + ['"'] }

  function Escaped(s: string): string {
    if s == [] then []
    else (if s[0] == '"' || s[0] == '\\' then ['\\', s[0]] else [s[0]]) + Escaped(s[1..])
  }

  function NewEntry(typ: string, name: string): Entry { Entry(typ, name, "", typ + " " + Quote(name)) }

  // ---- The snapshot ----

  /** The declared casks that brew does not track but whose app is on disk. */
  function ExternalCasks(sys: System, entries: seq<Entry>): set<string> {
    set e | e in entries && e.typ == "cask" && e.name !in sys.casks && e.name in sys.onDisk :: e.name
  }

  function KeysFor(typ: string, names: seq<string>): set<Key> { set n | n in names :: SetKey(typ, n) }

  /** Everything installed: nothing with one of these keys is removed. */
  function InstalledKeys(sys: System, entries: seq<Entry>): set<Key> {
    KeysFor("brew", sys.formulae) + KeysFor("cask", sys.casks)
    + (set n | n in ExternalCasks(sys, entries) :: SetKey("cask", n))
    + KeysFor("tap", sys.taps) + KeysFor("uv", sys.uvTools)
  }

  /** lo.SliceToMap over the new entries of one type: of several names with one key the last stays. */
  function AddMap(typ: string, names: seq<string>): map<Key, Entry> {
    if names == [] then map[]
    else
      var n := names[|names| - 1];
      AddMap(typ, names[..|names| - 1])[SetKey(typ, n) := NewEntry(typ, n)]
  }

  function AddSet(sys: System): map<Key, Entry> {
    AddMap("brew", sys.leaves) + AddMap("cask", sys.casks) + AddMap("tap", sys.taps) + AddMap("uv", sys.uvTools)
  }

  function FileKeys(entries: seq<Entry>): set<Key> { set e | e in entries :: KeyIn(e) }

  // ---- Additions ----

  predicate EntryLeq(a: Entry, b: Entry) {
    if a.typ == b.typ then StrLeq(a.name, b.name) else StrLeq(a.typ, b.typ)
  }

  lemma EntryLeqIsTotalPreorder()
    ensures TotalPreorder(EntryLeq)
  {
    forall x, y ensures EntryLeq(x, y) || EntryLeq(y, x) {
      StrLeqTotal(x.name, y.name);
      StrLeqTotal(x.typ, y.typ);
    }
    forall x, y, z | EntryLeq(x, y) && EntryLeq(y, z) ensures EntryLeq(x, z) {
      if x.typ == y.typ == z.typ {
        StrLeqTransitive(x.name, y.name, z.name);
      } else if x.typ != y.typ && y.typ != z.typ {
        StrLeqTransitive(x.typ, y.typ, z.typ);
        if x.typ == z.typ { StrLeqAntisymmetric(x.typ, y.typ); }
      }
    }
  }

  /** The new entries whose key the file lacks. */
  function Additions(sys: System, entries: seq<Entry>): set<Entry> {
    set k | k in AddSet(sys) && k !in FileKeys(entries) :: AddSet(sys)[k]
  }

  ghost function ToAdd(sys: System, entries: seq<Entry>): seq<Entry> {
    SortBy(Listed(Additions(sys, entries)), EntryLeq)
  }

  /** Every addition is a fresh entry for its own key. */
  lemma {:induction false} AddMapEntries(typ: string, names: seq<string>)
    ensures AddMap(typ, names).Keys == KeysFor(typ, names)
    ensures forall k :: k in AddMap(typ, names) ==>
              exists n :: n in names && AddMap(typ, names)[k] == NewEntry(typ, n) && SetKey(typ, n) == k
  {
    if names != [] {
      var front, last := names[..|names| - 1], names[|names| - 1];
      AddMapEntries(typ, front);
      assert forall n :: n in names <==> n in front || n == last;
    }
  }

  /** The installed names of one type that a Sync may add. */
  function Eligible(sys: System, typ: string): seq<string> {
    match typ
    case "brew" => sys.leaves
    case "cask" => sys.casks
    case "tap" => sys.taps
    case "uv" => sys.uvTools
    case _ => []
  }

  predicate IsFresh(e: Entry, sys: System) { e == NewEntry(e.typ, e.name) && e.name in Eligible(sys, e.typ) }

  function AddKeys(sys: System): set<Key> {
    KeysFor("brew", sys.leaves) + KeysFor("cask", sys.casks) + KeysFor("tap", sys.taps) + KeysFor("uv", sys.uvTools)
  }

  lemma AddMapKeys(typ: string, names: seq<string>)
    ensures AddMap(typ, names).Keys == KeysFor(typ, names)
  {
    AddMapEntries(typ, names);
  }

  predicate FreshMap(m: map<Key, Entry>, sys: System) {
    forall k :: k in m ==> IsFresh(m[k], sys) && KeyIn(m[k]) == k
  }

  lemma AddMapIsFresh(typ: string, sys: System)
    ensures FreshMap(AddMap(typ, Eligible(sys, typ)), sys)
  {
    AddMapEntries(typ, Eligible(sys, typ));
  }

  lemma UnionIsFresh(a: map<Key, Entry>, b: map<Key, Entry>, c: map<Key, Entry>, d: map<Key, Entry>, sys: System)
    requires FreshMap(a, sys) && FreshMap(b, sys) && FreshMap(c, sys) && FreshMap(d, sys)
    ensures FreshMap(a + b + c + d, sys)
  {
    var all := a + b + c + d;
    forall k | k in all ensures IsFresh(all[k], sys) && KeyIn(all[k]) == k {
      assert all[k] == if k in d then d[k] else if k in c then c[k] else if k in b then b[k] else a[k];
    }
  }

  lemma UnionKeys<K, V>(a: map<K, V>, b: map<K, V>, c: map<K, V>, d: map<K, V>)
    ensures (a + b + c + d).Keys == a.Keys + b.Keys + c.Keys + d.Keys
  {}

  lemma AddSetKeys(sys: System)
    ensures AddSet(sys).Keys == AddKeys(sys)
  {
    AddMapKeys("brew", sys.leaves);
    AddMapKeys("cask", sys.casks);
    AddMapKeys("tap", sys.taps);
    AddMapKeys("uv", sys.uvTools);
    UnionKeys(AddMap("brew", sys.leaves), AddMap("cask", sys.casks), AddMap("tap", sys.taps),
              AddMap("uv", sys.uvTools));
  }

  lemma BrewAndCaskAreFresh(sys: System)
    ensures FreshMap(AddMap("brew", sys.leaves), sys) && FreshMap(AddMap("cask", sys.casks), sys)
  {
    AddMapIsFresh("brew", sys);
    AddMapIsFresh("cask", sys);
  }

  lemma TapAndUVAreFresh(sys: System)
    ensures FreshMap(AddMap("tap", sys.taps), sys) && FreshMap(AddMap("uv", sys.uvTools), sys)
  {
    AddMapIsFresh("tap", sys);
    AddMapIsFresh("uv", sys);
  }

  lemma AddSetIsFresh(sys: System)
    ensures FreshMap(AddSet(sys), sys)
  {
    BrewAndCaskAreFresh(sys);
    TapAndUVAreFresh(sys);
    UnionIsFresh(AddMap("brew", sys.leaves), AddMap("cask", sys.casks), AddMap("tap", sys.taps),
                 AddMap("uv", sys.uvTools), sys);
  }

  lemma AddSetEntries(sys: System)
    ensures AddSet(sys).Keys == AddKeys(sys)
    ensures forall k :: k in AddSet(sys) ==> IsFresh(AddSet(sys)[k], sys) && KeyIn(AddSet(sys)[k]) == k
  {
    AddSetKeys(sys);
    AddSetIsFresh(sys);
  }

  /** However the additions come out of the map, sorting puts them in the same order. */
  lemma AdditionOrderIsDetermined(sys: System, entries: seq<Entry>, list: seq<Entry>)
    requires multiset(list) == multiset(Additions(sys, entries))
    ensures SortBy(list, EntryLeq) == ToAdd(sys, entries)
    ensures forall e :: e in ToAdd(sys, entries) <==> e in Additions(sys, entries)
  {
    var all := Additions(sys, entries);
    EntryLeqIsTotalPreorder();
    AddSetEntries(sys);
    ListedIsSet(all);
    SortByIsStableSort(list, EntryLeq);
    SortByIsStableSort(Listed(all), EntryLeq);
    SortedMembers(all, list, EntryLeq);
    SortedMembers(all, Listed(all), EntryLeq);
    var a, b := SortBy(list, EntryLeq), ToAdd(sys, entries);
    forall x, y | x in a && y in a && EntryLeq(x, y) && EntryLeq(y, x) ensures x == y {
      if x.typ != y.typ { StrLeqAntisymmetric(x.typ, y.typ); }
      StrLeqAntisymmetric(x.name, y.name);
    }
    SortIsUnique(a, b, EntryLeq);
  }

  // ---- Removals ----

  predicate IsObsolete(sys: System, entries: seq<Entry>, e: Entry) {
    IsScannable(e.typ) && KeyIn(e) !in InstalledKeys(sys, entries)
  }

  function ToRemove(sys: System, entries: seq<Entry>, from: seq<Entry>): seq<Entry> {
    if from == [] then []
    else (if IsObsolete(sys, entries, from[0]) then [from[0]] else []) + ToRemove(sys, entries, from[1..])
  }

  lemma ToRemoveMembers(sys: System, entries: seq<Entry>, from: seq<Entry>)
    ensures forall e :: e in ToRemove(sys, entries, from) <==> e in from && IsObsolete(sys, entries, e)
  {}

  // ---- Sync ----

  ghost function SyncText(sys: System, content: string): string {
    var entries := Entries(content);
    var add, remove := ToAdd(sys, entries), ToRemove(sys, entries, entries);
    var appended := if add == [] then content else Appended(content, add);
    if remove == [] then appended else Removed(appended, KeysOf(remove))
  }

  /** The names of the lines a Sync takes out. */
  ghost function SyncRemovedNames(sys: System, content: string): seq<string> {
    var entries := Entries(content);
    var add, remove := ToAdd(sys, entries), ToRemove(sys, entries, entries);
    var appended := if add == [] then content else Appended(content, add);
    if remove == [] then [] else RemovedNames(Split(appended, IsNewline), KeysOf(remove))
  }

  datatype SyncResult = SyncResult(addedNames: seq<string>, removedNames: seq<string>)

  ghost predicate IsInjective(m: map<Key, Entry>) {
    forall j, k :: j in m && k in m && m[j] == m[k] ==> j == k
  }

  function ValuesAt(m: map<Key, Entry>, keys: set<Key>): set<Entry> { set k | k in keys && k in m :: m[k] }

  lemma ValuesPush(m: map<Key, Entry>, keys: set<Key>, k: Key)
    requires IsInjective(m) && k in m && k !in keys
    ensures multiset(ValuesAt(m, keys + {k})) == multiset(ValuesAt(m, keys)) + multiset{m[k]}
  {
    assert ValuesAt(m, keys + {k}) == ValuesAt(m, keys) + {m[k]};
    assert m[k] !in ValuesAt(m, keys);
  }

  /** lo.OmitByKeys and lo.MapToSlice: the other values, in no particular order. */
  method ValuesOutside(m: map<Key, Entry>, omit: set<Key>) returns (list: seq<Entry>)
    requires IsInjective(m)
    ensures multiset(list) == multiset(ValuesAt(m, m.Keys - omit))
  {
    list := [];
    var todo := m.Keys - omit;
    ghost var all := todo;
    assert all - todo == {};
    while todo != {}
      invariant todo <= all
      invariant multiset(list) == multiset(ValuesAt(m, all - todo))
      decreases |todo|
    {
      var k :| k in todo;
      ValuesPush(m, all - todo, k);
      assert (all - todo) + {k} == all - (todo - {k});
      list := list + [m[k]];
      todo := todo - {k};
    }
    assert all - todo == all;
  }

  lemma KeyedIsInjective(m: map<Key, Entry>)
    requires forall k :: k in m ==> KeyIn(m[k]) == k
    ensures IsInjective(m)
  {}

  method Sync(file: File, sys: System) returns (result: SyncResult)
    modifies file
    ensures file.content == SyncText(sys, old(file.content))
    ensures result.addedNames == NamesOf(ToAdd(sys, Entries(old(file.content))))
    ensures result.removedNames == SyncRemovedNames(sys, old(file.content))
  {
    var entries := ParseBrewfileEntries(file.content);
    AddSetEntries(sys);
    KeyedIsInjective(AddSet(sys));
    var list := ValuesOutside(AddSet(sys), FileKeys(entries));
    assert ValuesAt(AddSet(sys), AddSet(sys).Keys - FileKeys(entries)) == Additions(sys, entries);
    AdditionOrderIsDetermined(sys, entries, list);
    var toAdd := SortBy(list, EntryLeq);
    var toRemove := ToRemove(sys, entries, entries);
    result := SyncResult([], []);
    if |toAdd| > 0 {
      var added := file.AppendEntries(toAdd);
      result := result.(addedNames := added);
    }
    if |toRemove| > 0 {
      var removed := file.RemoveEntries(toRemove);
      result := result.(removedNames := removed);
    }
  }

  // ---- Well-formed names ----

  predicate IsPrivateUse(c: char) {
    ('\U{E000}' <= c <= '\U{F8FF}') || '\U{F0000}' <= c
  }

  /** `strconv.IsPrint` without the space: what %q writes as it is. */
  predicate IsPrintable(c: char) { !IsSpace(c) && !IsControl(c) && !IsFormat(c) && !IsPrivateUse(c) }

  /** A name that %q writes without escapes and that reads back whole. */
  predicate IsWellNamed(n: string) {
    && n != "" && (forall i :: 0 <= i < |n| ==> IsPrintable(n[i]) && n[i] != '"' && n[i] != '\\' && n[i] != '[')
    && n[0] != ',' && n[|n| - 1] != ','
  }

  predicate AllWellNamed(names: seq<string>) { forall i :: 0 <= i < |names| ==> IsWellNamed(names[i]) }

  predicate WellNamed(sys: System) {
    AllWellNamed(sys.leaves) && AllWellNamed(sys.casks) && AllWellNamed(sys.taps) && AllWellNamed(sys.uvTools)
  }

  lemma {:induction false} EscapedIsPlain(s: string)
    requires forall i :: 0 <= i < |s| ==> s[i] != '"' && s[i] != '\\'
    ensures Escaped(s) == s
  {
    if s != "" {
      EscapedIsPlain(s[1..]);
      assert s == [s[0]] + s[1..];
    }
  }

  lemma {:induction false} EscapedAround(a: string, s: string)
    requires forall i :: 0 <= i < |a| ==> a[i] != '"' && a[i] != '\\'
    ensures Escaped(a + s) == a + Escaped(s)
  {
    if a == [] {
      assert a + s == s;
    } else {
      EscapedAround(a[1..], s);
      assert (a + s)[1..] == a[1..] + s;
    }
  }

  /** A quote or backslash in a name gets a backslash in front. */
  lemma QuoteEscapes(a: string, c: char, b: string)
    requires forall i :: 0 <= i < |a| ==> a[i] != '"' && a[i] != '\\'
    requires forall i :: 0 <= i < |b| ==> b[i] != '"' && b[i] != '\\'
    requires c == '"' || c == '\\'
    ensures Quote(a + ([c] + b)) == "\"" + (a + (['\\', c] + b)) + "\""
  {
    EscapedIsPlain(b);
    EscapedAround(a, [c] + b);
    assert ([c] + b)[1..] == b;
  }

  lemma TrimQuoted(n: string)
    requires n != "" && !IsQuoteOrComma(n[0]) && !IsQuoteOrComma(n[|n| - 1])
    ensures Trim(['"'] + n + ['"'], IsQuoteOrComma) == n
  {
    var s, tail := ['"'] + n + ['"'], n + ['"'];
    assert s[1..] == tail && tail[0] == n[0];
    assert TrimLeft(s, IsQuoteOrComma) == TrimLeft(tail, IsQuoteOrComma) == tail;
    assert tail[..|n|] == n && tail[|n|] == '"';
    assert TrimRight(tail, IsQuoteOrComma) == TrimRight(n, IsQuoteOrComma) == n;
  }

  /** A word followed by a quoted name. */
  lemma LineFields(typ: string, name: string)
    requires IsWord(typ) && typ[0] != '#' && IsWellNamed(name)
    ensures var line := typ + " " + Quote(name);
            && TrimSpace(line) == line && !IsIgnored(line) && Fields(line) == [typ, ['"'] + name + ['"']]
  {
    var quoted := ['"'] + name + ['"'];
    EscapedIsPlain(name);
    var line := typ + [' '] + quoted;
    assert line[0] == typ[0] && line[|line| - 1] == '"';
    TrimFixed(line, IsSpace);
    assert forall i :: 0 <= i < |quoted| ==> !IsSpace(quoted[i]);
    FieldsOfWord(typ);
    FieldsOfWord(quoted);
    FieldsConcat(typ, ' ', quoted);
  }

  lemma LineIsOneLine(typ: string, name: string)
    requires IsWord(typ) && IsWellNamed(name)
    ensures Without(typ + " " + Quote(name), IsNewline)
  {
    EscapedIsPlain(name);
    assert forall i :: 0 <= i < |typ| ==> !IsSpace(typ[i]);
  }

  lemma ScannableIsWord(typ: string)
    requires IsScannable(typ)
    ensures IsWord(typ) && typ[0] != '#'
  {}

  /** A new entry's line reads back as its type and name. */
  lemma NewEntryReadsBack(typ: string, name: string)
    requires IsScannable(typ) && IsWellNamed(name)
    ensures IsWritable(NewEntry(typ, name))
    ensures ParseLine(NewEntry(typ, name).line) == Some(Entry(typ, name, name, NewEntry(typ, name).line))
  {
    ScannableIsWord(typ);
    LineFields(typ, name);
    LineIsOneLine(typ, name);
    TrimQuoted(name);
    assert IndexChar(name, '[', 0) == None;
  }

  // ---- Lines as people write them ----

  lemma TrimQuotedComma(spec: string)
    requires spec != "" && !IsQuoteOrComma(spec[0]) && !IsQuoteOrComma(spec[|spec| - 1])
    ensures Trim(['"'] + spec + ['"', ','], IsQuoteOrComma) == spec
  {
    var s, tail := ['"'] + spec + ['"', ','], spec + ['"', ','];
    assert s[1..] == tail && tail[0] == spec[0];
    assert TrimLeft(s, IsQuoteOrComma) == TrimLeft(tail, IsQuoteOrComma) == tail;
    assert tail[..|tail| - 1] == spec + ['"'] && (spec + ['"'])[..|spec|] == spec;
    assert TrimRight(tail, IsQuoteOrComma) == TrimRight(spec + ['"'], IsQuoteOrComma)
        == TrimRight(spec, IsQuoteOrComma) == spec;
  }

  lemma CutAtBracket(name: string, extras: string)
    requires '[' !in name
    ensures CutBracket(name + ['['] + extras) == name
  {
    var s := name + ['['] + extras;
    assert s[|name|] == '[' && forall i :: 0 <= i < |name| ==> s[i] == name[i] && name[i] in name;
    assert s[..|name|] == name;
  }

  lemma FirstTwoFields(typ: string, word: string, rest: string)
    requires IsWord(typ) && IsWord(word)
    ensures Fields(typ + [' '] + word + [' '] + rest) == [typ, word] + Fields(rest)
  {
    FieldsOfWord(typ);
    FieldsOfWord(word);
    FieldsConcat(typ, ' ', word);
    FieldsConcat(typ + [' '] + word, ' ', rest);
  }

  /** A declaration with extras and options: the name ends at the bracket, the extras go into the spec, and the comma
      and what follows it only stay in the line. */
  lemma OptionsAreRead(typ: string, name: string, extras: string, options: string)
    requires IsWord(typ) && typ[0] != '#' && IsWellNamed(name) && Without(extras, IsSpace)
    requires options != "" && !IsSpace(options[|options| - 1])
    ensures var spec := name + ['['] + extras + [']'];
            var line := typ + [' '] + (['"'] + spec + ['"', ',']) + [' '] + options;
            ParseLine(line) == Some(Entry(typ, name, spec, line))
  {
    var spec := name + ['['] + extras + [']'];
    var word := ['"'] + spec + ['"', ','];
    var line := typ + [' '] + word + [' '] + options;
    FirstTwoFields(typ, word, options);
    TrimQuotedComma(spec);
    CutAtBracket(name, extras + [']']);
    assert name + ['['] + (extras + [']']) == spec;
    assert line[0] == typ[0] && line[|line| - 1] == options[|options| - 1];
    TrimFixed(line, IsSpace);
  }

  // ---- What one Sync does to the entries ----

  /** The entries after a Sync: the old ones and the additions, without those of the obsolete types and names. */
  ghost function SyncedEntries(sys: System, entries: seq<Entry>): seq<Entry> {
    Unkeyed(entries + Entries(LinesOf(ToAdd(sys, entries))), KeysOf(ToRemove(sys, entries, entries)))
  }

  lemma FreshIsWellNamed(sys: System, e: Entry)
    requires WellNamed(sys) && IsFresh(e, sys)
    ensures IsScannable(e.typ) && IsWellNamed(e.name) && IsWritable(e)
    ensures KeyIn(ParseLine(e.line).value) == KeyIn(e) && KeyOf(ParseLine(e.line).value) == KeyOf(e)
  {
    NewEntryReadsBack(e.typ, e.name);
  }

  /** The additions are fresh entries for exactly the keys the file lacks. */
  lemma AdditionMembers(sys: System, entries: seq<Entry>)
    ensures forall e :: e in ToAdd(sys, entries) ==> IsFresh(e, sys) && KeyIn(e) !in FileKeys(entries)
    ensures forall k :: k in AddKeys(sys) && k !in FileKeys(entries) ==> k in FileKeys(ToAdd(sys, entries))
  {
    hide ToAdd, AddSet, IsFresh;
    var add := Additions(sys, entries);
    AddSetEntries(sys);
    ListedIsSet(add);
    AdditionOrderIsDetermined(sys, entries, Listed(add));
    forall k | k in AddKeys(sys) && k !in FileKeys(entries) ensures k in FileKeys(ToAdd(sys, entries)) {
      assert AddSet(sys)[k] in add;
    }
  }

  lemma AdditionsAreWritable(sys: System, entries: seq<Entry>)
    requires WellNamed(sys)
    ensures AllWritable(ToAdd(sys, entries))
  {
    AdditionMembers(sys, entries);
    forall i | 0 <= i < |ToAdd(sys, entries)| ensures IsWritable(ToAdd(sys, entries)[i]) {
      FreshIsWellNamed(sys, ToAdd(sys, entries)[i]);
    }
  }

  lemma {:induction false} UnkeyedByNothing(entries: seq<Entry>)
    ensures Unkeyed(entries, {}) == entries
  {
    if entries != [] { UnkeyedByNothing(entries[1..]); }
  }

  lemma EntriesAfterSync(sys: System, content: string)
    requires WellNamed(sys)
    ensures Entries(SyncText(sys, content)) == SyncedEntries(sys, Entries(content))
  {
    var entries := Entries(content);
    AdditionsAreWritable(sys, entries);
    var add, remove := ToAdd(sys, entries), ToRemove(sys, entries, entries);
    var appended := if add == [] then content else Appended(content, add);
    EntriesOfLines(add);
    assert Entries(appended) == entries + ReadBack(add) by {
      if add == [] {
        assert ReadBack(add) == [] && entries + [] == entries;
      } else {
        AppendedEntries(content, add);
      }
    }
    if remove == [] {
      assert KeysOf(remove) == {};
      UnkeyedByNothing(Entries(appended));
    } else {
      RemovedLines(appended, KeysOf(remove));
    }
  }

  lemma ObsoleteIsKeyed(sys: System, entries: seq<Entry>, e: Entry)
    requires e in entries
    ensures IsObsolete(sys, entries, e) ==> KeyOf(e) in KeysOf(ToRemove(sys, entries, entries))
  {
    var remove := ToRemove(sys, entries, entries);
    ToRemoveMembers(sys, entries, entries);
    if IsObsolete(sys, entries, e) {
      var i :| 0 <= i < |remove| && remove[i] == e;
      assert KeyOf(remove[i]) in KeysOf(remove);
    }
  }

  /** Who is in the file after a Sync. */
  lemma SyncedMembers(sys: System, entries: seq<Entry>)
    requires WellNamed(sys)
    ensures forall e :: e in SyncedEntries(sys, entries) ==>
              KeyIn(e) in AddKeys(sys) || (e in entries && !IsObsolete(sys, entries, e))
    ensures forall e :: e in entries && !IsObsolete(sys, entries, e) ==> e in SyncedEntries(sys, entries)
    ensures forall k :: k in AddKeys(sys) && k !in FileKeys(entries) ==> k in FileKeys(SyncedEntries(sys, entries))
  {
    AdditionsAreWritable(sys, entries);
    var add, remove := ToAdd(sys, entries), ToRemove(sys, entries, entries);
    var read, keys := ReadBack(add), KeysOf(remove);
    EntriesOfLines(add);
    UnkeyedMembers(entries + read, keys);
    ToRemoveMembers(sys, entries, entries);
    AdditionMembers(sys, entries);
    forall i | 0 <= i < |read|
      ensures KeyIn(read[i]) == KeyIn(add[i]) && KeyOf(read[i]) == KeyOf(add[i]) && KeyIn(read[i]) in AddKeys(sys)
    {
      assert add[i] in add;
      FreshIsWellNamed(sys, add[i]);
      FreshKey(sys, add[i]);
    }
    RemovedKeys(sys, entries);
    forall e | e in SyncedEntries(sys, entries)
      ensures KeyIn(e) in AddKeys(sys) || (e in entries && !IsObsolete(sys, entries, e))
    {
      if e !in entries {
        assert e in read;
      } else {
        ObsoleteIsKeyed(sys, entries, e);
      }
    }
    forall k | k in AddKeys(sys) && k !in FileKeys(entries) ensures k in FileKeys(SyncedEntries(sys, entries)) {
      var a :| a in add && KeyIn(a) == k;
      var i :| 0 <= i < |add| && add[i] == a;
      assert read[i] in entries + read;
      assert KeyOf(read[i]) !in keys;
    }
  }

  lemma FreshKey(sys: System, e: Entry)
    requires IsFresh(e, sys)
    ensures KeyIn(e) in AddKeys(sys)
  {}

  /** A removed type and name belongs to an obsolete entry of the file; equal types and names have equal keys. */
  lemma RemovedKeys(sys: System, entries: seq<Entry>)
    ensures forall e: Entry :: KeyOf(e) in KeysOf(ToRemove(sys, entries, entries)) ==>
              IsObsolete(sys, entries, e) && KeyIn(e) in FileKeys(entries)
  {
    var remove := ToRemove(sys, entries, entries);
    ToRemoveMembers(sys, entries, entries);
    forall e: Entry | KeyOf(e) in KeysOf(remove) ensures IsObsolete(sys, entries, e) && KeyIn(e) in FileKeys(entries) {
      var i :| 0 <= i < |remove| && KeyOf(e) == KeyOf(remove[i]);
      assert remove[i] in remove;
      assert KeyIn(e) == KeyIn(remove[i]);
    }
  }

  /** No entry that a Sync adds is removed by the same Sync. */
  lemma AddedEntriesStay(sys: System, entries: seq<Entry>)
    requires WellNamed(sys)
    ensures forall e :: e in ToAdd(sys, entries) ==> KeyOf(e) !in KeysOf(ToRemove(sys, entries, entries))
  {
    AdditionMembers(sys, entries);
    RemovedKeys(sys, entries);
  }

  // ---- What a Sync keeps and adds, by the names on the system ----

  /** bare is the name without its tap. */
  predicate IsBareOf(name: string, bare: string) {
    '/' !in bare && |bare| <= |name| && name[|name| - |bare|..] == bare
    && (|bare| == |name| || name[|name| - |bare| - 1] == '/')
  }

  ghost predicate SameFormula(a: string, b: string) {
    exists bare :: IsBareOf(a, bare) && IsBareOf(b, bare)
  }

  lemma BareFrom(name: string, n: nat)
    requires n <= |name| && (n == 0 || name[n - 1] == '/') && forall k :: n <= k < |name| ==> name[k] != '/'
    ensures IsBareOf(name, name[n..])
  {
    var bare := name[n..];
    assert |name| - |bare| == n && '/' !in bare;
  }

  lemma ShortIsBareName(name: string)
    ensures IsBareOf(name, ShortFormula(name))
  {
    hide LastIndexChar, IsBareOf;
    var i := LastIndexChar(name, '/');
    assert forall k :: i < k < |name| ==> name[k] != '/';
    BareFrom(name, i + 1);
  }

  lemma BareFacts(name: string, bare: string)
    requires IsBareOf(name, bare)
    ensures |bare| <= |name| && bare == name[|name| - |bare|..]
    ensures |bare| < |name| ==> name[|name| - |bare| - 1] == '/'
    ensures forall k :: |name| - |bare| <= k < |name| ==> name[k] != '/'
  {
    forall k | |name| - |bare| <= k < |name| ensures name[k] != '/' {
      assert bare[k - (|name| - |bare|)] in bare;
    }
  }

  lemma BareIsOne(name: string, a: string, b: string)
    requires IsBareOf(name, a) && IsBareOf(name, b) && |a| <= |b|
    ensures a == b
  {
    hide IsBareOf;
    BareFacts(name, a);
    BareFacts(name, b);
  }

  lemma ShortIsBare(name: string, bare: string)
    ensures IsBareOf(name, bare) <==> ShortFormula(name) == bare
  {
    hide IsBareOf, ShortFormula;
    ShortIsBareName(name);
    if IsBareOf(name, bare) {
      if |bare| <= |ShortFormula(name)| {
        BareIsOne(name, bare, ShortFormula(name));
      } else {
        BareIsOne(name, ShortFormula(name), bare);
      }
    }
  }

  lemma SameFormulaIff(a: string, b: string)
    ensures SameFormula(a, b) <==> ShortFormula(a) == ShortFormula(b)
  {
    hide IsBareOf, ShortFormula;
    ShortIsBare(a, ShortFormula(a));
    ShortIsBare(b, ShortFormula(a));
    forall bare | IsBareOf(a, bare) && IsBareOf(b, bare) ensures ShortFormula(a) == ShortFormula(b) {
      ShortIsBare(a, bare);
      ShortIsBare(b, bare);
    }
  }

  /** On the system: a formula under any tap, a cask brew knows or whose app is on disk, a tap, a uv tool. */
  ghost predicate IsOnSystem(sys: System, typ: string, name: string) {
    match typ
    case "brew" => exists f :: f in sys.formulae && SameFormula(f, name)
    case "cask" => name in sys.casks || name in sys.onDisk
    case "tap" => name in sys.taps
    case "uv" => name in sys.uvTools
    case _ => false
  }

  /** Entries of other types are never taken out. */
  ghost predicate IsToStay(sys: System, e: Entry) {
    IsOnSystem(sys, e.typ, e.name) || e.typ !in ["brew", "cask", "tap", "uv"]
  }

  lemma InstalledIffOnSystem(sys: System, entries: seq<Entry>, e: Entry)
    requires e in entries
    ensures IsInstalled(sys, entries, e.typ, e.name) <==> IsOnSystem(sys, e.typ, e.name)
  {
    if e.typ == "brew" {
      forall f | f in sys.formulae ensures SameFormula(f, e.name) <==> ShortFormula(f) == ShortFormula(e.name) {
        SameFormulaIff(f, e.name);
      }
    }
  }

  lemma ObsoleteIff(sys: System, entries: seq<Entry>, e: Entry)
    requires e in entries
    ensures IsObsolete(sys, entries, e) <==> !IsToStay(sys, e)
  {
    hide IsInstalled, IsOnSystem, InstalledKeys;
    MissingIffObsolete(sys, entries, e);
    InstalledIffOnSystem(sys, entries, e);
  }

  ghost function Staying(sys: System, entries: seq<Entry>): seq<Entry> {
    if entries == [] then []
    else (if IsToStay(sys, entries[0]) then [entries[0]] else []) + Staying(sys, entries[1..])
  }

  lemma {:induction false} UnkeyedIsStaying(sys: System, entries: seq<Entry>, keys: set<Key>)
    requires forall e :: e in entries ==> (KeyOf(e) in keys <==> !IsToStay(sys, e))
    ensures Unkeyed(entries, keys) == Staying(sys, entries)
  {
    hide IsToStay;
    if entries != [] {
      UnkeyedIsStaying(sys, entries[1..], keys);
    }
  }

  /** The installed names that a Sync writes down: of the formulae only those the user asked for. */
  ghost predicate IsToAdd(sys: System, typ: string, name: string) {
    match typ
    case "brew" => name in sys.leaves
    case "cask" => name in sys.casks
    case "tap" => name in sys.taps
    case "uv" => name in sys.uvTools
    case _ => false
  }

  /** e declares the name; for a formula its tap does not matter. */
  ghost predicate Declares(e: Entry, typ: string, name: string) {
    e.typ == typ && if typ == "brew" then SameFormula(e.name, name) else e.name == name
  }

  /** The declaration a Sync writes. */
  function Declaration(typ: string, name: string): Entry {
    Entry(typ, name, name, typ + " \"" + name + "\"")
  }

  /** By type, and within a type by name. */
  predicate ComesBefore(a: Entry, b: Entry) {
    a != b && if a.typ != b.typ then StrLeq(a.typ, b.typ) else StrLeq(a.name, b.name)
  }

  /** The new entries: declarations of installed names that the file did not declare, all of them, in the order of
      type and name. */
  ghost predicate AreNew(added: seq<Entry>, sys: System, entries: seq<Entry>) {
    && (forall e :: e in added ==> e == Declaration(e.typ, e.name) && IsToAdd(sys, e.typ, e.name)
                                   && forall old_ :: old_ in entries ==> !Declares(old_, e.typ, e.name))
    && (forall typ, name :: IsToAdd(sys, typ, name) ==>
          exists e :: (e in entries || e in added) && Declares(e, typ, name))
    && (forall i, j :: 0 <= i < j < |added| ==> ComesBefore(added[i], added[j]))
  }

  lemma DeclaresIff(e: Entry, typ: string, name: string)
    ensures Declares(e, typ, name) <==> KeyIn(e) == SetKey(typ, name)
  {
    SameFormulaIff(e.name, name);
  }

  lemma ToAddIff(sys: System, typ: string, name: string)
    ensures IsToAdd(sys, typ, name) <==> name in Eligible(sys, typ)
    ensures IsToAdd(sys, typ, name) ==> SetKey(typ, name) in AddKeys(sys) && IsScannable(typ)
    ensures IsToAdd(sys, typ, name) && WellNamed(sys) ==> IsWellNamed(name)
  {}

  lemma FreshReadsBack(sys: System, e: Entry)
    requires WellNamed(sys) && IsFresh(e, sys)
    ensures IsWritable(e) && ParseLine(e.line) == Some(Declaration(e.typ, e.name))
    ensures IsToAdd(sys, e.typ, e.name)
  {
    hide WellNamed, ParseLine, IsWritable, IsWellNamed, Quote, Eligible;
    ToAddIff(sys, e.typ, e.name);
    NewEntryReadsBack(e.typ, e.name);
    PlainQuote(e.name);
    assert e.typ + " " + (['"'] + e.name + ['"']) == e.typ + " \"" + e.name + "\"";
  }

  lemma PlainQuote(name: string)
    requires IsWellNamed(name)
    ensures Quote(name) == ['"'] + name + ['"']
  {
    EscapedIsPlain(name);
  }

  /** Each of added declares the new entry at its place in add. */
  ghost predicate AreDeclarations(added: seq<Entry>, add: seq<Entry>, sys: System) {
    && |added| == |add|
    && forall i :: 0 <= i < |add| ==> IsFresh(add[i], sys) && added[i] == Declaration(add[i].typ, add[i].name)
  }

  /** The additions as they read back. */
  lemma ReadAdditions(sys: System, entries: seq<Entry>) returns (added: seq<Entry>)
    requires WellNamed(sys)
    ensures AllWritable(ToAdd(sys, entries)) && added == ReadBack(ToAdd(sys, entries))
    ensures AreDeclarations(added, ToAdd(sys, entries), sys)
  {
    hide IsFresh, ToAdd, IsWritable, Declaration;
    AdditionsAreWritable(sys, entries);
    AdditionMembers(sys, entries);
    var add := ToAdd(sys, entries);
    added := ReadBack(add);
    forall i | 0 <= i < |add| ensures IsFresh(add[i], sys) && added[i] == Declaration(add[i].typ, add[i].name) {
      assert add[i] in add;
      FreshReadsBack(sys, add[i]);
    }
  }

  lemma AddedAreFresh(sys: System, entries: seq<Entry>, added: seq<Entry>)
    requires AreDeclarations(added, ToAdd(sys, entries), sys)
    ensures forall e :: e in added ==> e == Declaration(e.typ, e.name) && IsToAdd(sys, e.typ, e.name)
                                       && forall old_ :: old_ in entries ==> !Declares(old_, e.typ, e.name)
  {
    hide ToAdd, IsOnSystem, Declares, SetKey;
    var add := ToAdd(sys, entries);
    AdditionMembers(sys, entries);
    forall e | e in added
      ensures e == Declaration(e.typ, e.name) && IsToAdd(sys, e.typ, e.name)
              && forall old_ :: old_ in entries ==> !Declares(old_, e.typ, e.name)
    {
      var i :| 0 <= i < |added| && added[i] == e;
      assert add[i] in add;
      ToAddIff(sys, add[i].typ, add[i].name);
      forall old_ | old_ in entries ensures !Declares(old_, e.typ, e.name) { DeclaresIff(old_, e.typ, e.name); }
    }
  }

  lemma AllAreDeclared(sys: System, entries: seq<Entry>, added: seq<Entry>, typ: string, name: string)
    requires AreDeclarations(added, ToAdd(sys, entries), sys) && IsToAdd(sys, typ, name)
    ensures exists e :: (e in entries || e in added) && Declares(e, typ, name)
  {
    hide ToAdd, Declares, SetKey, IsToAdd, AddKeys;
    var k, add := SetKey(typ, name), ToAdd(sys, entries);
    ToAddIff(sys, typ, name);
    AdditionMembers(sys, entries);
    if k in FileKeys(entries) {
      var e :| e in entries && KeyIn(e) == k;
      DeclaresIff(e, typ, name);
    } else {
      assert k in FileKeys(add);
      var a :| a in add && KeyIn(a) == k;
      var i :| 0 <= i < |add| && add[i] == a;
      DeclaresIff(added[i], typ, name);
      assert KeyIn(added[i]) == k;
    }
  }

  lemma AdditionsAreSorted(sys: System, entries: seq<Entry>)
    ensures Sorted(ToAdd(sys, entries), EntryLeq)
    ensures multiset(ToAdd(sys, entries)) == multiset(Additions(sys, entries))
  {
    EntryLeqIsTotalPreorder();
    ListedIsSet(Additions(sys, entries));
    SortByIsStableSort(Listed(Additions(sys, entries)), EntryLeq);
  }

  lemma AddedAreSorted(sys: System, entries: seq<Entry>, added: seq<Entry>)
    requires AreDeclarations(added, ToAdd(sys, entries), sys)
    ensures forall i, j :: 0 <= i < j < |added| ==> ComesBefore(added[i], added[j])
  {
    var add := ToAdd(sys, entries);
    AdditionsAreSorted(sys, entries);
    OnceEach(add, Additions(sys, entries));
    hide ToAdd;
    forall i, j | 0 <= i < j < |added| ensures ComesBefore(added[i], added[j]) {
      assert EntryLeq(add[i], add[j]) && add[i] != add[j];
    }
  }

  lemma AddedAreNew(sys: System, entries: seq<Entry>, added: seq<Entry>)
    requires AreDeclarations(added, ToAdd(sys, entries), sys)
    ensures AreNew(added, sys, entries)
  {
    hide ToAdd, IsToAdd, Declares, IsFresh, Declaration, ComesBefore;
    AddedAreFresh(sys, entries, added);
    AddedAreSorted(sys, entries, added);
    forall typ, name | IsToAdd(sys, typ, name)
      ensures exists e :: (e in entries || e in added) && Declares(e, typ, name)
    {
      AllAreDeclared(sys, entries, added, typ, name);
    }
  }

  lemma OldOnesStay(sys: System, entries: seq<Entry>)
    ensures Unkeyed(entries, KeysOf(ToRemove(sys, entries, entries))) == Staying(sys, entries)
  {
    hide IsToStay, IsObsolete;
    RemovedKeys(sys, entries);
    forall e | e in entries
      ensures KeyOf(e) in KeysOf(ToRemove(sys, entries, entries)) <==> !IsToStay(sys, e)
    {
      ObsoleteIff(sys, entries, e);
      ObsoleteIsKeyed(sys, entries, e);
    }
    UnkeyedIsStaying(sys, entries, KeysOf(ToRemove(sys, entries, entries)));
  }

  lemma NewKeys(sys: System, entries: seq<Entry>, added: seq<Entry>)
    requires WellNamed(sys)
    requires var add := ToAdd(sys, entries);
             |added| == |add| && forall i :: 0 <= i < |add| ==> added[i] == Declaration(add[i].typ, add[i].name)
    ensures forall i :: 0 <= i < |added| ==> KeyOf(added[i]) !in KeysOf(ToRemove(sys, entries, entries))
  {
    hide ToAdd, ToRemove;
    var add := ToAdd(sys, entries);
    AddedEntriesStay(sys, entries);
    forall i | 0 <= i < |added| ensures KeyOf(added[i]) !in KeysOf(ToRemove(sys, entries, entries)) {
      assert add[i] in add && KeyOf(added[i]) == KeyOf(add[i]);
    }
  }

  lemma NewOnesStay(sys: System, entries: seq<Entry>, added: seq<Entry>)
    requires WellNamed(sys)
    requires var add := ToAdd(sys, entries);
             |added| == |add| && forall i :: 0 <= i < |add| ==> added[i] == Declaration(add[i].typ, add[i].name)
    ensures Unkeyed(added, KeysOf(ToRemove(sys, entries, entries))) == added
  {
    hide ToAdd, ToRemove;
    NewKeys(sys, entries, added);
    UnkeyedAll(added, KeysOf(ToRemove(sys, entries, entries)));
  }

  lemma {:induction false} UnkeyedAll(entries: seq<Entry>, keys: set<Key>)
    requires forall i :: 0 <= i < |entries| ==> KeyOf(entries[i]) !in keys
    ensures Unkeyed(entries, keys) == entries
  {
    if entries != [] { UnkeyedAll(entries[1..], keys); }
  }

  /** After a Sync the file declares what it declared, in the same order, except what is not on the system any more,
      and then what is new. */
  lemma SyncKeepsAndAdds(sys: System, content: string) returns (added: seq<Entry>)
    requires WellNamed(sys)
    ensures Entries(SyncText(sys, content)) == Staying(sys, Entries(content)) + added
    ensures AreNew(added, sys, Entries(content))
  {
    hide SyncText, ToAdd, IsFresh, Declaration, AreNew, Staying, KeysOf, ToRemove;
    var entries := Entries(content);
    var keys := KeysOf(ToRemove(sys, entries, entries));
    EntriesAfterSync(sys, content);
    added := ReadAdditions(sys, entries);
    EntriesOfLines(ToAdd(sys, entries));
    UnkeyedConcat(entries, added, keys);
    OldOnesStay(sys, entries);
    NewOnesStay(sys, entries, added);
    AddedAreNew(sys, entries, added);
  }

  lemma {:induction false} StayingMembers(sys: System, entries: seq<Entry>)
    ensures forall e :: e in Staying(sys, entries) <==> e in entries && IsToStay(sys, e)
  {
    hide IsToStay;
    if entries != [] {
      StayingMembers(sys, entries[1..]);
      HeadTail(entries);
    }
  }

  /** Whether an entry of the file survives a Sync. */
  lemma OldEntryStaysIff(sys: System, content: string, e: Entry)
    requires WellNamed(sys) && e in Entries(content)
    ensures e in Entries(SyncText(sys, content)) <==>
            match e.typ
            case "brew" => exists f :: f in sys.formulae && SameFormula(f, e.name)
            case "cask" => e.name in sys.casks || e.name in sys.onDisk
            case "tap" => e.name in sys.taps
            case "uv" => e.name in sys.uvTools
            case _ => true
  {
    var added := SyncKeepsAndAdds(sys, content);
    StayingMembers(sys, Entries(content));
    assert Declares(e, e.typ, e.name) by { DeclaresIff(e, e.typ, e.name); }
  }

  /** The names that go, in the order of the file. */
  ghost function GoingNames(sys: System, entries: seq<Entry>): seq<string> {
    if entries == [] then []
    else (if IsToStay(sys, entries[0]) then [] else [entries[0].name]) + GoingNames(sys, entries[1..])
  }

  function KeyedNames(entries: seq<Entry>, keys: set<Key>): seq<string> {
    if entries == [] then []
    else (if KeyOf(entries[0]) in keys then [entries[0].name] else []) + KeyedNames(entries[1..], keys)
  }

  lemma {:induction false} KeyedConcat(a: seq<Entry>, b: seq<Entry>, keys: set<Key>)
    ensures KeyedNames(a + b, keys) == KeyedNames(a, keys) + KeyedNames(b, keys)
  {
    if a == [] {
      assert a + b == b;
    } else {
      KeyedConcat(a[1..], b, keys);
      ConcatTail(a, b);
    }
  }

  lemma {:induction false} RemovedAreKeyed(lines: seq<string>, keys: set<Key>)
    ensures RemovedNames(lines, keys) == KeyedNames(ParseLines(lines), keys)
  {
    if lines != [] {
      RemovedAreKeyed(lines[1..], keys);
      assert lines == [lines[0]] + lines[1..];
      FlatMapConcat(LineEntries, [lines[0]], lines[1..]);
      ParseOne(lines[0]);
      KeyedConcat(LineEntries(lines[0]), ParseLines(lines[1..]), keys);
      var one := LineEntries(lines[0]);
      assert one != [] ==> one[1..] == [];
    }
  }

  lemma {:induction false} KeyedIsGoing(sys: System, entries: seq<Entry>, keys: set<Key>)
    requires forall e :: e in entries ==> (KeyOf(e) in keys <==> !IsToStay(sys, e))
    ensures KeyedNames(entries, keys) == GoingNames(sys, entries)
  {
    hide IsToStay;
    if entries != [] { KeyedIsGoing(sys, entries[1..], keys); }
  }

  lemma {:induction false} NoneKeyed(entries: seq<Entry>, keys: set<Key>)
    requires forall i :: 0 <= i < |entries| ==> KeyOf(entries[i]) !in keys
    ensures KeyedNames(entries, keys) == []
  {
    if entries != [] { NoneKeyed(entries[1..], keys); }
  }

  lemma GoingKeys(sys: System, entries: seq<Entry>)
    ensures KeyedNames(entries, KeysOf(ToRemove(sys, entries, entries))) == GoingNames(sys, entries)
  {
    hide IsToStay, IsObsolete;
    var keys := KeysOf(ToRemove(sys, entries, entries));
    RemovedKeys(sys, entries);
    forall e | e in entries ensures KeyOf(e) in keys <==> !IsToStay(sys, e) {
      ObsoleteIff(sys, entries, e);
      ObsoleteIsKeyed(sys, entries, e);
    }
    KeyedIsGoing(sys, entries, keys);
  }

  /** What a Sync reports: the names of the entries that go, in the order of the file. */
  lemma ReportsWhatGoes(sys: System, content: string)
    requires WellNamed(sys)
    ensures SyncRemovedNames(sys, content) == GoingNames(sys, Entries(content))
  {
    hide ToAdd, ToRemove, KeysOf, IsFresh, Declaration;
    var entries := Entries(content);
    var add, keys := ToAdd(sys, entries), KeysOf(ToRemove(sys, entries, entries));
    var appended := if add == [] then content else Appended(content, add);
    var added := ReadAdditions(sys, entries);
    RemovedAreKeyed(Split(appended, IsNewline), keys);
    AppendedIsBoth(content, add, added);
    KeyedConcat(entries, added, keys);
    GoingKeys(sys, entries);
    NewKeys(sys, entries, added);
    NoneKeyed(added, keys);
    if ToRemove(sys, entries, entries) == [] {
      NoKeys();
      NothingKeyed(entries);
    }
  }

  lemma NoKeys()
    ensures KeysOf([]) == {}
  {}

  lemma {:induction false} NothingKeyed(entries: seq<Entry>)
    ensures KeyedNames(entries, {}) == []
  {
    if entries != [] { NothingKeyed(entries[1..]); }
  }

  lemma AppendedIsBoth(content: string, add: seq<Entry>, added: seq<Entry>)
    requires AllWritable(add) && added == ReadBack(add)
    ensures Entries(if add == [] then content else Appended(content, add)) == Entries(content) + added
  {
    if add == [] {
      assert Entries(content) + [] == Entries(content);
    } else {
      AppendedEntries(content, add);
    }
  }

  // ---- Convergence ----

  /** Every leaf is listed as an installed formula, up to its tap. */
  predicate LeavesInstalled(sys: System) {
    forall n :: n in sys.leaves ==> SetKey("brew", n) in KeysFor("brew", sys.formulae)
  }

  lemma AddKeysInstalled(sys: System, entries: seq<Entry>)
    requires LeavesInstalled(sys)
    ensures AddKeys(sys) <= InstalledKeys(sys, entries)
  {}

  /** What counts as installed does not change by what a Sync does to the file. */
  lemma InstalledStays(sys: System, entries: seq<Entry>, after: seq<Entry>, e: Entry)
    requires e in after && KeyIn(e) in InstalledKeys(sys, entries)
    ensures KeyIn(e) in InstalledKeys(sys, after)
  {
    if KeyIn(e).typ == "cask" && KeyIn(e) !in KeysFor("cask", sys.casks) {
      var n :| n in ExternalCasks(sys, entries) && SetKey("cask", n) == KeyIn(e);
      assert e.name in ExternalCasks(sys, after);
    }
  }

  lemma NothingLeftToDo(sys: System, content: string)
    requires WellNamed(sys) && LeavesInstalled(sys)
    ensures var after := Entries(SyncText(sys, content)); ToAdd(sys, after) == [] && ToRemove(sys, after, after) == []
  {
    var entries, after := Entries(content), Entries(SyncText(sys, content));
    EntriesAfterSync(sys, content);
    SyncedMembers(sys, entries);
    AddKeysInstalled(sys, entries);
    AddKeysInstalled(sys, after);
    forall e | e in after ensures !IsObsolete(sys, after, e) {
      if KeyIn(e) !in AddKeys(sys) && IsScannable(e.typ) {
        InstalledStays(sys, entries, after, e);
      }
    }
    ToRemoveMembers(sys, after, after);
    SomeMember(ToRemove(sys, after, after));
    forall k | k in AddKeys(sys) ensures k in FileKeys(after) {
      if k in FileKeys(entries) {
        var e :| e in entries && KeyIn(e) == k;
        assert e in after;
      }
    }
    AdditionMembers(sys, after);
    forall e | IsFresh(e, sys) ensures KeyIn(e) in FileKeys(after) {
      FreshKey(sys, e);
    }
    SomeMember(ToAdd(sys, after));
  }

  /** With a leaf that is not listed as installed, every Sync changes the file: the leaf's entry comes or goes. */
  lemma SyncFlips(sys: System, content: string, leaf: string)
    requires WellNamed(sys) && leaf in sys.leaves && SetKey("brew", leaf) !in KeysFor("brew", sys.formulae)
    ensures SetKey("brew", leaf) in FileKeys(Entries(SyncText(sys, content))) <==>
            SetKey("brew", leaf) !in FileKeys(Entries(content))
  {
    var k, entries := SetKey("brew", leaf), Entries(content);
    EntriesAfterSync(sys, content);
    var after := SyncedEntries(sys, entries);
    SyncedMembers(sys, entries);
    MissingLeaf(sys, entries, leaf);
    if k in FileKeys(entries) {
      FlippedOut(sys, entries, k);
    } else {
      assert k in FileKeys(after);
    }
  }

  lemma MissingLeaf(sys: System, entries: seq<Entry>, leaf: string)
    requires leaf in sys.leaves && SetKey("brew", leaf) !in KeysFor("brew", sys.formulae)
    ensures SetKey("brew", leaf) in AddKeys(sys) && SetKey("brew", leaf) !in InstalledKeys(sys, entries)
    ensures SetKey("brew", leaf).typ == "brew"
  {
    assert SetKey("brew", leaf) in KeysFor("brew", sys.leaves);
  }

  lemma FlippedOut(sys: System, entries: seq<Entry>, k: Key)
    requires WellNamed(sys)
    requires k in FileKeys(entries) && k.typ == "brew" && k !in InstalledKeys(sys, entries)
    ensures k !in FileKeys(SyncedEntries(sys, entries))
  {
    AdditionsAreWritable(sys, entries);
    var add, remove := ToAdd(sys, entries), ToRemove(sys, entries, entries);
    var read, keys := ReadBack(add), KeysOf(remove);
    EntriesOfLines(add);
    UnkeyedMembers(entries + read, keys);
    AdditionMembers(sys, entries);
    forall i | 0 <= i < |read| ensures KeyIn(read[i]) != k {
      assert add[i] in add;
      FreshIsWellNamed(sys, add[i]);
    }
    forall e | e in entries && KeyIn(e) == k ensures KeyOf(e) in keys {
      ObsoleteIsKeyed(sys, entries, e);
    }
    forall e | e in SyncedEntries(sys, entries) ensures KeyIn(e) != k {
      if e !in entries { assert e in read; }
    }
  }

  /** One leaf, and nothing listed as installed. */
  function OneLeaf(n: string): System { System([n], [], [], [], [], {}) }

  lemma AddMapOfOne(typ: string, n: string)
    ensures AddMap(typ, [n]) == map[SetKey(typ, n) := NewEntry(typ, n)]
  {
    assert [n][..0] == [];
  }

  lemma OneAddMap(n: string, m: map<Key, Entry>)
    requires m == AddSet(OneLeaf(n))
    ensures m == map[SetKey("brew", n) := NewEntry("brew", n)]
  {
    hide SetKey, NewEntry;
    AddMapOfOne("brew", n);
  }

  lemma OneAddition(n: string)
    ensures ToAdd(OneLeaf(n), []) == [NewEntry("brew", n)]
  {
    hide AddSet, NewEntry, SetKey, ToAdd;
    var e, add := NewEntry("brew", n), ToAdd(OneLeaf(n), []);
    OneAddMap(n, AddSet(OneLeaf(n)));
    assert FileKeys([]) == {} && SetKey("brew", n) in AddSet(OneLeaf(n));
    assert Additions(OneLeaf(n), []) == {e};
    AdditionsAreSorted(OneLeaf(n), []);
    assert multiset({e}) == multiset{e};
    assert |add| == |multiset(add)| == 1 && add[0] in multiset(add);
  }

  lemma NothingToAdd(sys: System, entries: seq<Entry>)
    requires Additions(sys, entries) == {}
    ensures ToAdd(sys, entries) == []
  {
    hide ToAdd, Additions;
    AdditionsAreSorted(sys, entries);
    assert |multiset(ToAdd(sys, entries))| == 0;
  }

  /** In a file that declares it there is nothing to add. */
  lemma OneIsDeclared(n: string, e: Entry)
    requires e == Declaration("brew", n)
    ensures ToAdd(OneLeaf(n), [e]) == []
  {
    hide AddSet, ToAdd, ShortFormula;
    OneAddMap(n, AddSet(OneLeaf(n)));
    assert KeyIn(e) == SetKey("brew", n) && KeyIn([e][0]) in FileKeys([e]);
    NothingToAdd(OneLeaf(n), [e]);
  }

  /** But the leaf is to go. */
  lemma OneIsGoing(n: string, e: Entry)
    requires e == Declaration("brew", n)
    ensures ToRemove(OneLeaf(n), [e], [e]) == [e]
  {
    hide ShortFormula;
    assert InstalledKeys(OneLeaf(n), [e]) == {};
    assert [e][1..] == [];
  }

  lemma TextOfAddition(n: string)
    requires IsWellNamed(n)
    ensures SyncText(OneLeaf(n), "") == NewEntry("brew", n).line + "\n"
  {
    hide ToAdd, Entries, NewEntry;
    var e := NewEntry("brew", n);
    EntriesOfNothing();
    OneAddition(n);
    assert [e][1..] == [] && LinesOf([e]) == e.line + "\n" + "";
    assert "" + (e.line + "\n") == e.line + "\n";
  }

  lemma TextOfRemoval(n: string)
    requires IsWellNamed(n)
    ensures SyncText(OneLeaf(n), NewEntry("brew", n).line + "\n") == ""
  {
    hide ToAdd, ToRemove, ParseLine, NewEntry, IsIgnored, Removed, KeysOf;
    var line := NewEntry("brew", n).line;
    var e := Declaration("brew", n);
    NewEntryReadsBack("brew", n);
    PlainQuote(n);
    LineIsDeclaration(n);
    EntriesConcat(line, "");
    EntriesOfLine(line);
    EntriesOfNothing();
    assert line + "\n" + "" == line + "\n";
    assert Entries(line + "\n") == [e];
    OneIsDeclared(n, e);
    OneIsGoing(n, e);
    LinesOfOne(line, e);
  }

  lemma LineIsDeclaration(n: string)
    requires IsWellNamed(n)
    ensures NewEntry("brew", n).line == Declaration("brew", n).line
  {
    PlainQuote(n);
    assert "brew" + " " + (['"'] + n + ['"']) == "brew" + " \"" + n + "\"";
  }

  lemma LinesOfOne(line: string, e: Entry)
    requires Without(line, IsNewline) && ParseLine(line) == Some(e)
    ensures Removed(line + "\n", KeysOf([e])) == ""
  {
    hide ParseLine;
    var lines, keys := [line, ""], KeysOf([e]);
    SplitWhole(line, IsNewline);
    SplitConcat(line, '\n', "", IsNewline);
    assert line + ['\n'] + "" == line + "\n" && Split("", IsNewline) == [""];
    assert [line] + [""] == lines && lines[1..] == [""] && [""][1..] == [];
    assert KeyOf([e][0]) in keys;
    EmptyLine();
    assert KeptLines([""], keys) == [""];
    assert KeptLines(lines, keys) == [""];
  }

  lemma EmptyLine()
    ensures ParseLine("") == None
  {
    assert TrimSpace("") == "";
  }

  /** Such a leaf is written down by one Sync and taken out by the next, for ever; letter for letter. */
  lemma OneLeafFlips(n: string)
    requires IsWellNamed(n)
    ensures WellNamed(OneLeaf(n)) && !LeavesInstalled(OneLeaf(n))
    ensures SyncText(OneLeaf(n), "") == "brew \"" + n + "\"\n"
    ensures SyncText(OneLeaf(n), "brew \"" + n + "\"\n") == ""
  {
    hide SyncText;
    TextOfAddition(n);
    TextOfRemoval(n);
    LineIsDeclaration(n);
    assert "brew" + " \"" + n + "\"" + "\n" == "brew \"" + n + "\"\n";
    assert n in OneLeaf(n).leaves && KeysFor("brew", []) == {};
  }

  lemma BatIsWellNamed()
    ensures IsWellNamed("bat")
  {}

  lemma BatFlips()
    ensures SyncText(OneLeaf("bat"), "") == "brew \"" + "bat" + "\"\n"
    ensures SyncText(OneLeaf("bat"), "brew \"" + "bat" + "\"\n") == ""
  {
    hide SyncText, IsWellNamed;
    BatIsWellNamed();
    OneLeafFlips("bat");
  }

  /** A cask that brew does not list but whose app is on disk keeps its line, and the file stays as it is. */
  lemma ExternalCaskStays(n: string)
    requires IsWellNamed(n)
    ensures var sys := System([], [], [], [], [], {n});
            SyncText(sys, Declaration("cask", n).line + "\n") == Declaration("cask", n).line + "\n"
  {
    hide ToAdd, ToRemove, ParseLine, NewEntry;
    var sys, e := System([], [], [], [], [], {n}), Declaration("cask", n);
    var content := e.line + "\n";
    CaskLine(n);
    EntriesConcat(e.line, "");
    EntriesOfLine(e.line);
    EntriesOfNothing();
    assert e.line + "\n" + "" == content;
    assert Entries(content) == [e];
    NothingForCask(sys, e, n);
  }

  lemma CaskLine(n: string)
    requires IsWellNamed(n)
    ensures var e := Declaration("cask", n); Without(e.line, IsNewline) && ParseLine(e.line) == Some(e)
  {
    hide ParseLine;
    NewEntryReadsBack("cask", n);
    PlainQuote(n);
    assert "cask" + " " + (['"'] + n + ['"']) == "cask" + " \"" + n + "\"";
  }

  lemma NothingForCask(sys: System, e: Entry, n: string)
    requires sys == System([], [], [], [], [], {n}) && e == Declaration("cask", n)
    ensures ToAdd(sys, [e]) == [] && ToRemove(sys, [e], [e]) == []
  {
    hide ToAdd;
    AddSetKeys(sys);
    NothingToAdd(sys, [e]);
    assert e in [e] && e.name in ExternalCasks(sys, [e]);
    assert [e][1..] == [];
  }

  /** A second Sync changes nothing exactly when every leaf is listed as installed; otherwise the entry of the
      missing leaf is added by one Sync and removed by the next, for ever. */
  lemma SecondSyncChangesNothingIff(sys: System, content: string)
    requires WellNamed(sys)
    ensures SyncText(sys, SyncText(sys, content)) == SyncText(sys, content) <==> LeavesInstalled(sys)
  {
    if LeavesInstalled(sys) {
      NothingLeftToDo(sys, content);
    } else {
      var leaf :| leaf in sys.leaves && SetKey("brew", leaf) !in KeysFor("brew", sys.formulae);
      SyncFlips(sys, SyncText(sys, content), leaf);
    }
  }

  // ---- Install ----

  /** SystemSnapshot.IsInstalled. */
  predicate IsInstalled(sys: System, entries: seq<Entry>, typ: string, name: string) {
    match typ
    case "brew" => exists f :: f in sys.formulae && ShortFormula(f) == ShortFormula(name)
    case "cask" => name in sys.casks || name in ExternalCasks(sys, entries)
    case "tap" => name in sys.taps
    case "uv" => name in sys.uvTools
    case _ => false
  }

  /** What Install finds missing and what Sync would remove are the same entries, among the types that can be scanned;
      an entry of any other type is always missing and never removed. */
  lemma MissingIffObsolete(sys: System, entries: seq<Entry>, e: Entry)
    ensures IsObsolete(sys, entries, e) <==> IsScannable(e.typ) && !IsInstalled(sys, entries, e.typ, e.name)
    ensures !IsScannable(e.typ) ==> !IsInstalled(sys, entries, e.typ, e.name)
  {
    if e.typ == "brew" {
      forall f | f in sys.formulae && ShortFormula(f) == ShortFormula(e.name)
        ensures KeyIn(e) in KeysFor("brew", sys.formulae)
      {
        assert SetKey("brew", f) == KeyIn(e);
      }
    }
  }

  function Missing(sys: System, entries: seq<Entry>, from: seq<Entry>): seq<Entry> {
    if from == [] then []
    else (if IsInstalled(sys, entries, from[0].typ, from[0].name) then [] else [from[0]])
         + Missing(sys, entries, from[1..])
  }

  lemma MissingMembers(sys: System, entries: seq<Entry>, from: seq<Entry>)
    ensures forall e :: e in Missing(sys, entries, from) <==> e in from && !IsInstalled(sys, entries, e.typ, e.name)
  {}

  /** The file after Install: InstallEntries has turned the system before into the system after, with whatever it
      managed to install, and the file is made to agree with that; without missing entries nothing is done. */
  ghost function InstallText(before: System, after: System, content: string): string {
    if Missing(before, Entries(content), Entries(content)) == [] then content else SyncText(after, content)
  }

  /** The entries that name nothing on the system. */
  ghost function Absent(sys: System, entries: seq<Entry>): seq<Entry> {
    if entries == [] then []
    else (if IsOnSystem(sys, entries[0].typ, entries[0].name) then [] else [entries[0]]) + Absent(sys, entries[1..])
  }

  lemma {:induction false} MissingIsAbsent(sys: System, entries: seq<Entry>, from: seq<Entry>)
    requires forall e :: e in from ==> e in entries
    ensures Missing(sys, entries, from) == Absent(sys, from)
  {
    hide IsInstalled, IsOnSystem;
    if from != [] {
      InstalledIffOnSystem(sys, entries, from[0]);
      MissingIsAbsent(sys, entries, from[1..]);
    }
  }

  /** What Install reports and installs: the declared names that are not on the system; other types always. */
  lemma ReportedIff(sys: System, content: string, e: Entry)
    requires e in Entries(content)
    ensures e in Missing(sys, Entries(content), Entries(content)) <==>
            match e.typ
            case "brew" => !exists f :: f in sys.formulae && SameFormula(f, e.name)
            case "cask" => e.name !in sys.casks && e.name !in sys.onDisk
            case "tap" => e.name !in sys.taps
            case "uv" => e.name !in sys.uvTools
            case _ => true
  {
    MissingMembers(sys, Entries(content), Entries(content));
    InstalledIffOnSystem(sys, Entries(content), e);
  }

  method Install(file: File, before: System, after: System) returns (missing: seq<Entry>)
    modifies file
    ensures missing == Missing(before, Entries(old(file.content)), Entries(old(file.content)))
    ensures missing == Absent(before, Entries(old(file.content)))
    ensures file.content == InstallText(before, after, old(file.content))
  {
    var entries := ParseBrewfileEntries(file.content);
    missing := Missing(before, entries, entries);
    MissingIsAbsent(before, entries, entries);
    if |missing| == 0 {
      return;
    }
    var result := Sync(file, after);
  }

  /** No entry of a type that can be scanned is missing on the system. */
  predicate NoneMissing(sys: System, entries: seq<Entry>) {
    forall e :: e in entries && IsScannable(e.typ) ==> IsInstalled(sys, entries, e.typ, e.name)
  }

  lemma NoneMissingIffNoneObsolete(sys: System, entries: seq<Entry>)
    ensures NoneMissing(sys, entries) <==> forall e :: e in entries ==> !IsObsolete(sys, entries, e)
  {
    forall e: Entry
      ensures IsObsolete(sys, entries, e) <==> IsScannable(e.typ) && !IsInstalled(sys, entries, e.typ, e.name)
    {
      MissingIffObsolete(sys, entries, e);
    }
  }

  /** Every leaf that is not listed as installed is in the file already. */
  predicate LeavesKnown(sys: System, entries: seq<Entry>) {
    forall n :: n in sys.leaves && SetKey("brew", n) !in KeysFor("brew", sys.formulae) ==>
      SetKey("brew", n) in FileKeys(entries)
  }

  lemma KeptIsInstalled(sys: System, content: string, e: Entry)
    requires WellNamed(sys) && LeavesKnown(sys, Entries(content)) && e in Entries(SyncText(sys, content))
    ensures !IsObsolete(sys, Entries(SyncText(sys, content)), e)
  {
    hide SyncText, Additions, AddSet;
    var entries, after := Entries(content), Entries(SyncText(sys, content));
    EntriesAfterSync(sys, content);
    SyncedMembers(sys, entries);
    if KeyIn(e) in KeysFor("brew", sys.leaves) {
      var n :| n in sys.leaves && SetKey("brew", n) == KeyIn(e);
      if KeyIn(e) !in KeysFor("brew", sys.formulae) {
        SyncFlips(sys, content, n);
      }
    } else if KeyIn(e) !in AddKeys(sys) && IsScannable(e.typ) {
      InstalledStays(sys, entries, after, e);
    }
  }

  /** After a Sync no entry is missing, exactly when the file knew every leaf that is not listed as installed. */
  lemma NoneMissingAfterSyncIff(sys: System, content: string)
    requires WellNamed(sys)
    ensures NoneMissing(sys, Entries(SyncText(sys, content))) <==> LeavesKnown(sys, Entries(content))
  {
    hide SyncText, IsInstalled, IsObsolete;
    var after := Entries(SyncText(sys, content));
    NoneMissingIffNoneObsolete(sys, after);
    if LeavesKnown(sys, Entries(content)) {
      forall e | e in after ensures !IsObsolete(sys, after, e) { KeptIsInstalled(sys, content, e); }
    } else {
      UnknownLeafIsObsolete(sys, content);
    }
  }

  lemma UnknownLeafIsObsolete(sys: System, content: string)
    requires WellNamed(sys) && !LeavesKnown(sys, Entries(content))
    ensures var after := Entries(SyncText(sys, content)); exists e :: e in after && IsObsolete(sys, after, e)
  {
    hide SyncText, Entries, AddKeys, InstalledKeys, LastIndexChar;
    var after := Entries(SyncText(sys, content));
    var n :| n in sys.leaves && SetKey("brew", n) !in KeysFor("brew", sys.formulae)
             && SetKey("brew", n) !in FileKeys(Entries(content));
    SyncFlips(sys, content, n);
    MissingLeaf(sys, after, n);
    KeyIsObsolete(sys, after, SetKey("brew", n));
  }

  lemma KeyIsObsolete(sys: System, entries: seq<Entry>, k: Key)
    requires k in FileKeys(entries) && k.typ == "brew" && k !in InstalledKeys(sys, entries)
    ensures exists e :: e in entries && IsObsolete(sys, entries, e)
  {
    hide InstalledKeys, ShortFormula;
    var e :| e in entries && KeyIn(e) == k;
    assert IsObsolete(sys, entries, e);
  }

  /** Whatever an Install managed to install, afterwards no entry of the file is missing, exactly when nothing was
      missing before or the file knew every leaf of the new system that is not listed as installed. */
  lemma NoneMissingAfterInstallIff(before: System, after: System, content: string)
    requires WellNamed(after)
    ensures var nothing := Missing(before, Entries(content), Entries(content)) == [];
            NoneMissing(if nothing then before else after, Entries(InstallText(before, after, content)))
            <==> nothing || LeavesKnown(after, Entries(content))
  {
    hide SyncText;
    MissingMembers(before, Entries(content), Entries(content));
    NoneMissingAfterSyncIff(after, content);
  }
}
