/** internal/brew/brewfile.go: reading, appending to and deleting from a Brewfile. */
module Brewfile {
  import opened Text

  datatype Entry = Entry(typ: string, name: string, spec: string, line: string)

  /** What entries are compared by. The program joins the two with a tab; a type read from a line has none. */
  datatype Key = Key(typ: string, name: string)

  function KeyOf(e: Entry): Key { Key(e.typ, e.name) }

  // ---- Parsing ----

  predicate IsQuoteOrComma(c: char) { c == '"' || c == ',' }

  /** The name without bracketed extras. */
  function CutBracket(s: string): string {
    match IndexChar(s, '[', 0) case None => s case Some(i) => s[..i]
  }

  predicate IsIgnored(trimmed: string) { trimmed == "" || trimmed[0] == '#' }

  function ParseLine(line: string): Option<Entry> {
    var trimmed := TrimSpace(line);
    var parts := Fields(trimmed);
    if IsIgnored(trimmed) || |parts| < 2 then None
    else
      var spec := Trim(parts[1], IsQuoteOrComma);
      Some(Entry(parts[0], CutBracket(spec), spec, trimmed))
  }

  /** The entry of a line, if it has one. */
  function LineEntries(line: string): seq<Entry> {
    match ParseLine(line) case None => [] case Some(x) => [x]
  }

  function ParseLines(lines: seq<string>): seq<Entry> { FlatMap(LineEntries, lines) }

  function Entries(content: string): seq<Entry> { ParseLines(Split(content, IsNewline)) }

  lemma ParseOne(line: string)
    ensures ParseLines([line]) == LineEntries(line)
  {
    FlatMapOne(LineEntries, line);
  }

  /** A comment yields no entry: a line whose first visible character is #; nor does a line of one word. */
  lemma CommentsAreIgnored(blank: string, rest: string)
    requires Only(blank, IsSpace)
    ensures ParseLine(blank + ['#'] + rest) == None
    ensures Without(rest, IsSpace) ==> ParseLine(blank + rest) == None
  {
    var line := blank + ['#'] + rest;
    var a, b := TrimParts(line, IsSpace);
    var t := TrimSpace(line);
    assert line[|blank|] == '#' && forall i :: 0 <= i < |blank| ==> line[i] == blank[i];
    TrimOfBlank(line, IsSpace);
    assert forall i :: 0 <= i < |a| ==> line[i] == a[i];
    assert t != "" && line[|a|] == t[0] && |a| == |blank|;
    if Without(rest, IsSpace) {
      FieldsOfTrim(blank + rest);
      FieldsDropFront(blank, rest);
      FieldsOfWord(rest);
    }
  }

  method ParseBrewfileEntries(content: string) returns (entries: seq<Entry>)
    ensures entries == Entries(content)
  {
    entries := [];
    var lines := Split(content, IsNewline);
    for i := 0 to |lines|
      invariant entries == ParseLines(lines[..i])
    {
      var line := lines[i];
      assert lines[..i + 1] == lines[..i] + [line];
      FlatMapConcat(LineEntries, lines[..i], [line]);
      ParseOne(line);
      var trimmed := TrimSpace(line);
      if trimmed == "" || trimmed[0] == '#' {
        continue;
      }
      var parts := Fields(trimmed);
      if |parts| < 2 {
        continue;
      }
      var spec := Trim(parts[1], IsQuoteOrComma);
      var name := spec;
      var idx := IndexChar(name, '[', 0);
      if idx.Some? {
        name := name[..idx.value];
      }
      entries := entries + [Entry(parts[0], name, spec, trimmed)];
    }
    assert lines[..|lines|] == lines;
  }

  // ---- Lines ----

  lemma EntriesConcat(a: string, b: string)
    ensures Entries(a + "\n" + b) == Entries(a) + Entries(b)
  {
    SplitConcat(a, '\n', b, IsNewline);
    FlatMapConcat(LineEntries, Split(a, IsNewline), Split(b, IsNewline));
  }

  lemma EntriesOfNothing()
    ensures Entries("") == []
  {
    assert Split("", IsNewline) == [""];
    ParseOne("");
    assert TrimSpace("") == "";
  }

  lemma EntriesOfLine(line: string)
    requires Without(line, IsNewline)
    ensures Entries(line) == LineEntries(line)
  {
    SplitWhole(line, IsNewline);
    ParseOne(line);
  }

  /** An entry whose line is one line and reads back as that type and name. */
  predicate IsWritable(e: Entry) {
    Without(e.line, IsNewline) && ParseLine(e.line).Some? && KeyOf(ParseLine(e.line).value) == KeyOf(e)
  }

  predicate AllWritable(entries: seq<Entry>) { forall i :: 0 <= i < |entries| ==> IsWritable(entries[i]) }

  /** The entries as they read back: with the line's own spec and without the space around it. */
  function ReadBack(entries: seq<Entry>): (r: seq<Entry>)
    requires AllWritable(entries)
    ensures |r| == |entries| && forall i :: 0 <= i < |r| ==> r[i] == ParseLine(entries[i].line).value
  {
    seq(|entries|, i requires 0 <= i < |entries| => ParseLine(entries[i].line).value)
  }

  // ---- AppendEntries ----

  function LinesOf(entries: seq<Entry>): string {
    if entries == [] then "" else entries[0].line + "\n" + LinesOf(entries[1..])
  }

  function Terminated(content: string): string {
    if content != "" && content[|content| - 1] != '\n' then content + "\n" else content
  }

  function Appended(content: string, entries: seq<Entry>): string { Terminated(content) + LinesOf(entries) }

  lemma ReadBackFirst(entries: seq<Entry>)
    requires AllWritable(entries) && entries != []
    ensures Without(entries[0].line, IsNewline)
    ensures ReadBack(entries) == LineEntries(entries[0].line) + ReadBack(entries[1..])
  {
    assert IsWritable(entries[0]);
  }

  lemma {:induction false} EntriesOfLines(entries: seq<Entry>)
    requires AllWritable(entries)
    ensures Entries(LinesOf(entries)) == ReadBack(entries)
  {
    if entries == [] {
      EntriesOfNothing();
    } else {
      EntriesOfLines(entries[1..]);
      ReadBackFirst(entries);
      EntriesConcat(entries[0].line, LinesOf(entries[1..]));
      EntriesOfLine(entries[0].line);
    }
  }

  /** Parsing after appending gives the old entries followed by the new ones. */
  lemma AppendedEntries(content: string, entries: seq<Entry>)
    requires AllWritable(entries)
    ensures Entries(Appended(content, entries)) == Entries(content) + ReadBack(entries)
  {
    EntriesOfLines(entries);
    EntriesOfNothing();
    TerminatedEntries(content, LinesOf(entries));
  }

  lemma TerminatedEntries(content: string, tail: string)
    requires Entries("") == []
    ensures Entries(Terminated(content) + tail) == Entries(content) + Entries(tail)
  {
    if content == "" {
      assert Terminated(content) + tail == tail;
    } else if content[|content| - 1] != '\n' {
      EntriesConcat(content, tail);
    } else {
      var front := content[..|content| - 1];
      assert content == front + "\n" + "" && Terminated(content) + tail == front + "\n" + tail;
      EntriesConcat(front, tail);
      EntriesConcat(front, "");
    }
  }

  lemma AppendedPush(content: string, entries: seq<Entry>, i: nat)
    requires i < |entries|
    ensures Appended(content, entries[..i + 1]) == Appended(content, entries[..i]) + (entries[i].line + "\n")
    ensures NamesOf(entries[..i + 1]) == NamesOf(entries[..i]) + [entries[i].name]
  {
    assert entries[..i + 1] == entries[..i] + [entries[i]];
    LinesPush(entries[..i], entries[i]);
    ConcatAssoc(LinesOf(entries[..i]), entries[i].line, "\n");
    ConcatAssoc(Terminated(content), LinesOf(entries[..i]), entries[i].line + "\n");
  }

  function NamesOf(entries: seq<Entry>): (r: seq<string>)
    ensures |r| == |entries| && forall i :: 0 <= i < |r| ==> r[i] == entries[i].name
  {
    seq(|entries|, i requires 0 <= i < |entries| => entries[i].name)
  }

  lemma {:induction false} LinesPush(entries: seq<Entry>, e: Entry)
    ensures LinesOf(entries + [e]) == LinesOf(entries) + e.line + "\n"
  {
    if entries == [] {
      assert entries + [e] == [e] && [e][1..] == [];
    } else {
      LinesPush(entries[1..], e);
      assert (entries + [e])[1..] == entries[1..] + [e];
    }
  }

  // ---- RemoveEntries ----

  function KeysOf(entries: seq<Entry>): set<Key> { set i | 0 <= i < |entries| :: KeyOf(entries[i]) }

  predicate IsRemoved(line: string, keys: set<Key>) {
    ParseLine(line).Some? && KeyOf(ParseLine(line).value) in keys
  }

  function KeptLine(line: string, keys: set<Key>): seq<string> { if IsRemoved(line, keys) then [] else [line] }

  /** The lines that stay, byte for byte and in order. */
  function KeptLines(lines: seq<string>, keys: set<Key>): seq<string> {
    if lines == [] then [] else KeptLine(lines[0], keys) + KeptLines(lines[1..], keys)
  }

  function Removed(content: string, keys: set<Key>): string {
    Join(KeptLines(Split(content, IsNewline), keys), '\n')
  }

  function Unkeyed(entries: seq<Entry>, keys: set<Key>): seq<Entry> {
    if entries == [] then []
    else (if KeyOf(entries[0]) in keys then [] else [entries[0]]) + Unkeyed(entries[1..], keys)
  }

  function RemovedName(line: string, keys: set<Key>): seq<string> {
    if IsRemoved(line, keys) then [ParseLine(line).value.name] else []
  }

  /** The names of the lines that go. */
  function RemovedNames(lines: seq<string>, keys: set<Key>): seq<string> {
    if lines == [] then [] else RemovedName(lines[0], keys) + RemovedNames(lines[1..], keys)
  }

  lemma {:induction false} KeptPush(lines: seq<string>, line: string, keys: set<Key>)
    ensures KeptLines(lines + [line], keys) == KeptLines(lines, keys) + KeptLine(line, keys)
  {
    if lines == [] {
      assert lines + [line] == [line] && [line][1..] == [];
      assert KeptLine(line, keys) + [] == [] + KeptLine(line, keys);
    } else {
      KeptPush(lines[1..], line, keys);
      ConcatTail(lines, [line]);
      ConcatAssoc(KeptLine(lines[0], keys), KeptLines(lines[1..], keys), KeptLine(line, keys));
    }
  }

  lemma {:induction false} RemovedPush(lines: seq<string>, line: string, keys: set<Key>)
    ensures RemovedNames(lines + [line], keys) == RemovedNames(lines, keys) + RemovedName(line, keys)
  {
    if lines == [] {
      assert lines + [line] == [line] && [line][1..] == [];
      assert RemovedName(line, keys) + [] == [] + RemovedName(line, keys);
    } else {
      RemovedPush(lines[1..], line, keys);
      ConcatTail(lines, [line]);
      ConcatAssoc(RemovedName(lines[0], keys), RemovedNames(lines[1..], keys), RemovedName(line, keys));
    }
  }

  lemma {:induction false} KeptEntries(lines: seq<string>, keys: set<Key>)
    ensures ParseLines(KeptLines(lines, keys)) == Unkeyed(ParseLines(lines), keys)
    ensures forall line :: line in KeptLines(lines, keys) ==> line in lines
  {
    if lines != [] {
      var rest := lines[1..];
      var kept := KeptLines(rest, keys);
      KeptEntries(rest, keys);
      assert lines == [lines[0]] + rest;
      FlatMapConcat(LineEntries, [lines[0]], rest);
      ParseOne(lines[0]);
      UnkeyedConcat(LineEntries(lines[0]), ParseLines(rest), keys);
      UnkeyedLine(lines[0], keys);
      if IsRemoved(lines[0], keys) {
        assert KeptLines(lines, keys) == kept;
      } else {
        assert KeptLines(lines, keys) == [lines[0]] + kept;
        FlatMapConcat(LineEntries, [lines[0]], kept);
      }
    }
  }

  lemma UnkeyedLine(line: string, keys: set<Key>)
    ensures Unkeyed(LineEntries(line), keys) == if IsRemoved(line, keys) then [] else LineEntries(line)
  {
    var e := ParseLine(line);
    if e.Some? { assert [e.value][1..] == []; }
  }

  /** The text keeps exactly the lines whose type and name are not in the set; a text left without lines is empty. */
  lemma RemovedLines(content: string, keys: set<Key>)
    ensures var kept := KeptLines(Split(content, IsNewline), keys);
            Split(Removed(content, keys), IsNewline) == if kept == [] then [""] else kept
    ensures Entries(Removed(content, keys)) == Unkeyed(Entries(content), keys)
  {
    var lines := Split(content, IsNewline);
    var kept := KeptLines(lines, keys);
    KeptEntries(lines, keys);
    EntriesOfNothing();
    if kept != [] {
      SplitJoin(kept, '\n', IsNewline);
    }
  }

  /** Removing nothing rewrites the text as it is. */
  lemma RemovingNothing(content: string)
    ensures Removed(content, {}) == content
  {
    var lines := Split(content, IsNewline);
    KeepAll(lines);
    JoinSplit(content, '\n', IsNewline);
  }

  lemma {:induction false} KeepAll(lines: seq<string>)
    ensures KeptLines(lines, {}) == lines
  {
    if lines != [] { KeepAll(lines[1..]); }
  }

  lemma UnkeyedMembers(entries: seq<Entry>, keys: set<Key>)
    ensures forall e :: e in Unkeyed(entries, keys) <==> e in entries && KeyOf(e) !in keys
  {}

  lemma {:induction false} UnkeyedConcat(a: seq<Entry>, b: seq<Entry>, keys: set<Key>)
    ensures Unkeyed(a + b, keys) == Unkeyed(a, keys) + Unkeyed(b, keys)
  {
    if a == [] {
      assert a + b == b;
    } else {
      UnkeyedConcat(a[1..], b, keys);
      ConcatTail(a, b);
    }
  }

  lemma {:induction false} KeptConcat(a: seq<string>, b: seq<string>, keys: set<Key>)
    ensures KeptLines(a + b, keys) == KeptLines(a, keys) + KeptLines(b, keys)
  {
    if a == [] {
      assert a + b == b;
    } else {
      KeptConcat(a[1..], b, keys);
      ConcatTail(a, b);
      ConcatAssoc(KeptLine(a[0], keys), KeptLines(a[1..], keys), KeptLines(b, keys));
    }
  }

  lemma {:induction false} KeptUndeclared(lines: seq<string>, keys: set<Key>)
    requires forall e :: e in ParseLines(lines) ==> KeyOf(e) !in keys
    ensures KeptLines(lines, keys) == lines
  {
    if lines != [] {
      assert lines == [lines[0]] + lines[1..];
      FlatMapConcat(LineEntries, [lines[0]], lines[1..]);
      ParseOne(lines[0]);
      assert ParseLine(lines[0]).Some? ==> ParseLine(lines[0]).value in ParseLines(lines);
      assert forall e :: e in ParseLines(lines[1..]) ==> e in ParseLines(lines);
      KeptUndeclared(lines[1..], keys);
    }
  }

  lemma LinesAround(before: string, line: string, after: string)
    requires Without(line, IsNewline)
    ensures Split(before + "\n" + line + "\n" + after, IsNewline)
         == Split(before, IsNewline) + [line] + Split(after, IsNewline)
  {
    SplitConcat(before, '\n', line, IsNewline);
    SplitConcat(before + "\n" + line, '\n', after, IsNewline);
    SplitWhole(line, IsNewline);
  }

  lemma KeptAround(a: seq<string>, line: string, b: seq<string>, keys: set<Key>)
    requires IsRemoved(line, keys)
    requires forall e :: e in ParseLines(a) || e in ParseLines(b) ==> KeyOf(e) !in keys
    ensures KeptLines(a + [line] + b, keys) == a + b
  {
    hide IsRemoved;
    KeptConcat(a + [line], b, keys);
    KeptConcat(a, [line], keys);
    KeptUndeclared(a, keys);
    KeptUndeclared(b, keys);
    assert [line][1..] == [] && KeptLines([line], keys) == [];
    assert a + [] == a;
  }

  /** Removing takes out the line that declares the entry and leaves the text around it as it is, comments, blank lines
      and indentation included. */
  lemma RemovesTheLine(before: string, line: string, after: string, e: Entry)
    requires Without(line, IsNewline) && ParseLine(line) == Some(e)
    requires forall x :: x in Entries(before) || x in Entries(after) ==> (x.typ, x.name) != (e.typ, e.name)
    ensures Removed(before + "\n" + line + "\n" + after, {Key(e.typ, e.name)}) == before + "\n" + after
  {
    hide KeptLines, Split, ParseLines, ParseLine;
    var keys, a, b := {Key(e.typ, e.name)}, Split(before, IsNewline), Split(after, IsNewline);
    LinesAround(before, line, after);
    KeptAround(a, line, b, keys);
    JoinConcat(a, b, '\n');
    JoinSplit(before, '\n', IsNewline);
    JoinSplit(after, '\n', IsNewline);
  }

  /** Appending ends the last line, if the text does not, and adds the entry's line. */
  lemma AppendsTheLine(content: string, e: Entry)
    ensures content == "" || content[|content| - 1] == '\n' ==> Appended(content, [e]) == content + e.line + "\n"
    ensures content != "" && content[|content| - 1] != '\n' ==>
              Appended(content, [e]) == content + "\n" + e.line + "\n"
  {
    assert [e][1..] == [] && LinesOf([e]) == e.line + "\n" + "";
  }

  // ---- diffEntries ----

  /** The entries of dump whose type and name existing lacks. */
  function DiffEntries(dump: string, existing: string): seq<Entry> {
    Unkeyed(Entries(dump), KeysOf(Entries(existing)))
  }

  /** An entry that was read can be written: its line reads back as the same entry. */
  lemma ReadEntryIsWritable(line: string)
    requires Without(line, IsNewline) && ParseLine(line).Some?
    ensures var e := ParseLine(line).value; IsWritable(e) && ParseLine(e.line) == Some(e)
  {
    var a, b := TrimParts(line, IsSpace);
    var t := TrimSpace(line);
    TrimFixed(line, IsSpace);
    forall i | 0 <= i < |t| ensures !IsNewline(t[i]) {
      assert line[|a| + i] == t[i];
    }
  }

  lemma {:induction false} ReadEntriesAreWritable(lines: seq<string>)
    requires forall line :: line in lines ==> Without(line, IsNewline)
    ensures forall e :: e in ParseLines(lines) ==> IsWritable(e) && ParseLine(e.line) == Some(e)
  {
    if lines != [] {
      ReadEntriesAreWritable(lines[1..]);
      assert lines[0] in lines;
      if ParseLine(lines[0]).Some? {
        ReadEntryIsWritable(lines[0]);
      }
    }
  }

  lemma KeysMembers(entries: seq<Entry>)
    ensures forall e :: e in entries ==> KeyOf(e) in KeysOf(entries)
  {}

  /** Appending what is missing declares all of it, so nothing is missing any more. */
  lemma AppendingMissingCompletes(dump: string, existing: string)
    ensures var missing := DiffEntries(dump, existing);
            var after := Appended(existing, missing);
            && Entries(after) == Entries(existing) + missing
            && DiffEntries(dump, after) == []
  {
    var missing, had := DiffEntries(dump, existing), Entries(existing);
    ReadEntriesAreWritable(Split(dump, IsNewline));
    UnkeyedMembers(Entries(dump), KeysOf(had));
    assert AllWritable(missing) by {
      forall i | 0 <= i < |missing| ensures IsWritable(missing[i]) { assert missing[i] in Entries(dump); }
    }
    AppendedEntries(existing, missing);
    assert ReadBack(missing) == missing by {
      forall i | 0 <= i < |missing| ensures ReadBack(missing)[i] == missing[i] { assert missing[i] in Entries(dump); }
    }
    NothingMissing(Entries(dump), had, missing);
  }

  lemma NothingMissing(dump: seq<Entry>, had: seq<Entry>, missing: seq<Entry>)
    requires missing == Unkeyed(dump, KeysOf(had))
    ensures Unkeyed(dump, KeysOf(had + missing)) == []
  {
    var keys, left := KeysOf(had + missing), Unkeyed(dump, KeysOf(had + missing));
    UnkeyedMembers(dump, KeysOf(had));
    UnkeyedMembers(dump, keys);
    KeysMembers(had + missing);
    forall e | e in dump ensures KeyOf(e) in keys {
      if KeyOf(e) in KeysOf(had) {
        var i :| 0 <= i < |had| && KeyOf(had[i]) == KeyOf(e);
        assert (had + missing)[i] == had[i];
      } else {
        assert e in missing && e in had + missing;
      }
    }
    SomeMember(left);
  }

  // ---- The file ----

  class File {
    var content: string

    method AppendEntries(entries: seq<Entry>) returns (names: seq<string>)
      modifies this
      ensures content == Appended(old(content), entries) && names == NamesOf(entries)
    {
      ghost var was := content;
      var b := content;
      if |content| > 0 && content[|content| - 1] != '\n' {
        b := b + "\n";
      }
      names := [];
      assert entries[..0] == [] && Appended(was, []) == b;
      for i := 0 to |entries|
        invariant b == Appended(was, entries[..i]) && names == NamesOf(entries[..i])
      {
        AppendedPush(was, entries, i);
        b := b + (entries[i].line + "\n");
        names := names + [entries[i].name];
      }
      assert entries[..|entries|] == entries;
      content := b;
    }

    method RemoveEntries(entries: seq<Entry>) returns (removed: seq<string>)
      modifies this
      ensures content == Removed(old(content), KeysOf(entries))
      ensures removed == RemovedNames(Split(old(content), IsNewline), KeysOf(entries))
    {
      var removeSet := KeysOf(entries);
      var kept: seq<string> := [];
      removed := [];
      var lines := Split(content, IsNewline);
      for i := 0 to |lines|
        invariant kept == KeptLines(lines[..i], removeSet)
        invariant removed == RemovedNames(lines[..i], removeSet)
      {
        var line := lines[i];
        assert lines[..i + 1] == lines[..i] + [line];
        KeptPush(lines[..i], line, removeSet);
        RemovedPush(lines[..i], line, removeSet);
        var e := ParseLine(line);
        if e.Some? && KeyOf(e.value) in removeSet {
          removed := removed + [e.value.name];
          continue;
        }
        kept := kept + [line];
      }
      assert lines[..|lines|] == lines;
      content := Join(kept, '\n');
    }
  }
}
