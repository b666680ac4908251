/** internal/share/tree.go: folders and files derived from flat bucket keys. */
module Tree {
  import opened Order
  import opened Paths
  import opened Text

  datatype ObjectInfo = ObjectInfo(key: string, size: int, url: string, lastModified: string)

  datatype TreeEntry = TreeEntry(name: string, key: string, isDir: bool, size: int, url: string, lastModified: string)

  // ---- Listing one directory ----

  function Prefix(cwd: string): string { if cwd == "" then "" else cwd + "/" }

  /** The part of a key after the directory; None when the object is not below it. */
  function Rest(o: ObjectInfo, cwd: string): Option<string> {
    var p := Prefix(cwd);
    if p <= o.key && |o.key| > |p| then Some(o.key[|p|..]) else None
  }

  /** strings.Cut(rest, "/"): the name of the folder the object is in. */
  function FolderOf(o: ObjectInfo, cwd: string): Option<string> {
    var rest := Rest(o, cwd);
    if rest == None then None
    else
      var i := IndexChar(rest.value, '/', 0);
      if i == None then None else Some(rest.value[..i.value])
  }

  predicate IsFileIn(o: ObjectInfo, cwd: string) { Rest(o, cwd).Some? && FolderOf(o, cwd) == None }

  function FileEntry(o: ObjectInfo, name: string): TreeEntry {
    TreeEntry(name, o.key, false, o.size, o.url, o.lastModified)
  }

  function FolderEntry(cwd: string, f: string): TreeEntry {
    TreeEntry(f, PathJoin(cwd, f), true, 0, "", "")
  }

  function FileOf(o: ObjectInfo, cwd: string): seq<TreeEntry> {
    if IsFileIn(o, cwd) then [FileEntry(o, Rest(o, cwd).value)] else []
  }

  function Files(objects: seq<ObjectInfo>, cwd: string): seq<TreeEntry> {
    if objects == [] then [] else FileOf(objects[0], cwd) + Files(objects[1..], cwd)
  }

  function FolderSet(o: ObjectInfo, cwd: string): set<string> {
    var f := FolderOf(o, cwd);
    if f.Some? then {f.value} else {}
  }

  function Folders(objects: seq<ObjectInfo>, cwd: string): set<string> {
    if objects == [] then {} else FolderSet(objects[0], cwd) + Folders(objects[1..], cwd)
  }

  /** Folders first, then by name. */
  predicate EntryLeq(a: TreeEntry, b: TreeEntry) {
    if a.isDir != b.isDir then a.isDir else StrLeq(a.name, b.name)
  }

  lemma EntryLeqIsTotalPreorder()
    ensures TotalPreorder(EntryLeq)
  {
    forall x, y ensures EntryLeq(x, y) || EntryLeq(y, x) { StrLeqTotal(x.name, y.name); }
    forall x, y, z | EntryLeq(x, y) && EntryLeq(y, z) ensures EntryLeq(x, z) {
      if x.isDir == y.isDir == z.isDir { StrLeqTransitive(x.name, y.name, z.name); }
    }
  }

  function FolderEntries(cwd: string, names: seq<string>): seq<TreeEntry> {
    if names == [] then [] else [FolderEntry(cwd, names[0])] + FolderEntries(cwd, names[1..])
  }

  ghost predicate Lists(names: seq<string>, s: set<string>) {
    Distinct(names) && forall f :: f in names <==> f in s
  }

  lemma ListedNames(s: set<string>)
    ensures Lists(Listed(s), s)
  {
    ListedIsSet(s);
    ListedOnce(s);
  }

  /** ChildrenAt as a function of the objects alone. */
  ghost function Children(objects: seq<ObjectInfo>, cwd: string): seq<TreeEntry> {
    SortBy(FolderEntries(cwd, Listed(Folders(objects, cwd))) + Files(objects, cwd), EntryLeq)
  }

  lemma {:induction false} TiesConcat(a: seq<TreeEntry>, b: seq<TreeEntry>, y: TreeEntry)
    ensures Ties(a + b, y, EntryLeq) == Ties(a, y, EntryLeq) + Ties(b, y, EntryLeq)
  {
    if a == [] {
      assert a + b == b;
    } else {
      TiesConcat(a[1..], b, y);
      ConcatTail(a, b);
      ConcatAssoc(TieOf(a[0], y, EntryLeq), Ties(a[1..], y, EntryLeq), Ties(b, y, EntryLeq));
    }
  }

  lemma {:induction false} TiesOfFolders(cwd: string, names: seq<string>, y: TreeEntry)
    requires Distinct(names)
    ensures Ties(FolderEntries(cwd, names), y, EntryLeq) ==
            if y.isDir && y.name in names then [FolderEntry(cwd, y.name)] else []
  {
    if names != [] {
      TiesOfFolders(cwd, names[1..], y);
      var all := FolderEntries(cwd, names);
      assert all[1..] == FolderEntries(cwd, names[1..]);
      if EntryLeq(y, all[0]) && EntryLeq(all[0], y) {
        StrLeqAntisymmetric(y.name, names[0]);
      } else {
        StrLeqTotal(y.name, y.name);
      }
      assert y.name in names <==> y.name == names[0] || y.name in names[1..];
    }
  }

  /** The listing does not depend on the order in which the folder names come out of the map. */
  lemma ListingIgnoresMapOrder(objects: seq<ObjectInfo>, cwd: string, names: seq<string>)
    requires Lists(names, Folders(objects, cwd))
    ensures SortBy(FolderEntries(cwd, names) + Files(objects, cwd), EntryLeq) == Children(objects, cwd)
  {
    var files, own := Files(objects, cwd), Listed(Folders(objects, cwd));
    var a, b := FolderEntries(cwd, names) + files, FolderEntries(cwd, own) + files;
    ListedNames(Folders(objects, cwd));
    EntryLeqIsTotalPreorder();
    SortByIsStableSort(a, EntryLeq);
    SortByIsStableSort(b, EntryLeq);
    forall y ensures Ties(SortBy(a, EntryLeq), y, EntryLeq) == Ties(SortBy(b, EntryLeq), y, EntryLeq) {
      TiesConcat(FolderEntries(cwd, names), files, y);
      TiesConcat(FolderEntries(cwd, own), files, y);
      TiesOfFolders(cwd, names, y);
      TiesOfFolders(cwd, own, y);
    }
    StableSortIsUnique(SortBy(a, EntryLeq), SortBy(b, EntryLeq), EntryLeq);
  }

  lemma FilesOfOne(o: ObjectInfo, cwd: string)
    ensures Files([o], cwd) == FileOf(o, cwd)
  {
    assert Files([o], cwd) == FileOf(o, cwd) + Files([], cwd);
  }

  lemma {:induction false} FilesPush(a: seq<ObjectInfo>, o: ObjectInfo, cwd: string)
    ensures Files(a + [o], cwd) == Files(a, cwd) + FileOf(o, cwd)
  {
    if a == [] {
      FilesOfOne(o, cwd);
      assert a + [o] == [o] && [] + FileOf(o, cwd) == FileOf(o, cwd);
    } else {
      FilesPush(a[1..], o, cwd);
      ConcatTail(a, [o]);
      ConcatAssoc(FileOf(a[0], cwd), Files(a[1..], cwd), FileOf(o, cwd));
    }
  }

  lemma {:induction false} FoldersPush(a: seq<ObjectInfo>, o: ObjectInfo, cwd: string)
    ensures Folders(a + [o], cwd) == Folders(a, cwd) + FolderSet(o, cwd)
  {
    if a == [] {
      assert a + [o] == [o] && [o][1..] == [];
    } else {
      FoldersPush(a[1..], o, cwd);
      ConcatTail(a, [o]);
    }
  }

  lemma FolderEntriesPush(cwd: string, names: seq<string>, f: string)
    ensures FolderEntries(cwd, names + [f]) == FolderEntries(cwd, names) + [FolderEntry(cwd, f)]
  {
    if names != [] {
      FolderEntriesPush(cwd, names[1..], f);
      assert (names + [f])[1..] == names[1..] + [f];
    }
  }

  /** The part of the loop body that places one object: in a folder, as a file, or nowhere. */
  method Place(obj: ObjectInfo, cwd: string, cwdPrefix: string) returns (folder: set<string>, file: seq<TreeEntry>)
    requires cwdPrefix == Prefix(cwd)
    ensures folder == FolderSet(obj, cwd) && file == FileOf(obj, cwd)
  {
    folder, file := {}, [];
    if !(cwdPrefix <= obj.key) {
      return;
    }
    var rest := obj.key[|cwdPrefix|..];
    if rest == "" {
      return;
    }
    var slash := IndexChar(rest, '/', 0);
    if slash.Some? {
      return {rest[..slash.value]}, [];
    }
    file := [FileEntry(obj, rest)];
  }

  /** The loop over the objects. */
  method Collect(objects: seq<ObjectInfo>, cwd: string) returns (folders: set<string>, files: seq<TreeEntry>)
    ensures folders == Folders(objects, cwd) && files == Files(objects, cwd)
  {
    var cwdPrefix := "";
    if cwd != "" {
      cwdPrefix := cwd + "/";
    }
    folders, files := {}, [];
    assert objects[..0] == [];
    for i := 0 to |objects|
      invariant folders == Folders(objects[..i], cwd) && files == Files(objects[..i], cwd)
    {
      var folder, file := Place(objects[i], cwd, cwdPrefix);
      assert objects[..i + 1] == objects[..i] + [objects[i]];
      FilesPush(objects[..i], objects[i], cwd);
      FoldersPush(objects[..i], objects[i], cwd);
      folders, files := folders + folder, files + file;
    }
    assert objects[..|objects|] == objects;
  }

  method ChildrenAt(objects: seq<ObjectInfo>, cwd: string) returns (out: seq<TreeEntry>)
    ensures out == Children(objects, cwd)
  {
    var folders, files := Collect(objects, cwd);
    out := [];
    ghost var names: seq<string> := [];
    var todo := folders;
    while todo != {}
      invariant todo <= folders && Lists(names, folders - todo)
      invariant out == FolderEntries(cwd, names)
      decreases |todo|
    {
      var f :| f in todo;
      out := out + [FolderEntry(cwd, f)];
      FolderEntriesPush(cwd, names, f);
      names := names + [f];
      todo := todo - {f};
    }
    out := out + files;
    ListingIgnoresMapOrder(objects, cwd, names);
    out := SortBy(out, EntryLeq);
  }

  function ParentPath(p: string): string {
    var q := if p != "" && p[|p| - 1] == '/' then p[..|p| - 1] else p;
    var i := LastIndexChar(q, '/');
    if i == -1 then "" else q[..i]
  }

  // ---- Where folders lead ----

  function Child(cwd: string, f: string): string { Prefix(cwd) + f }

  /** A name whose folder path.Join leads to: below "." nothing is found again, and ".." only climbs further up. */
  predicate LeadsDown(cwd: string, f: string) {
    f != "" && (cwd == "" ||
                (cwd != "." && f != "." && (f == ".." ==> Segments(cwd)[|Segments(cwd)| - 1] == "..")))
  }

  lemma ChildIsCleaned(cwd: string, f: string)
    requires Child(cwd, f) != ""
    ensures PathJoin(cwd, f) == Clean(Child(cwd, f))
  {
    assert if cwd == "" then Child(cwd, f) == f else Child(cwd, f) == cwd + "/" + f;
  }

  lemma LeadsDownToChild(cwd: string, f: string)
    requires IsPlace(cwd) && Without(f, IsSlash) && LeadsDown(cwd, f)
    ensures PathJoin(cwd, f) == Child(cwd, f)
  {
    JoinCleansLast(cwd, f);
    PlaceSegments(cwd);
    var segments := Segments(cwd);
    if cwd == "" {
      assert f != "." ==> CleanStep(f, false, segments) == [f];
      assert Child(cwd, f) == f;
    } else {
      assert CleanStep(f, false, segments) == segments + [f];
      JoinConcat(segments, [f], '/');
    }
  }

  /** Every child is listed in the directory that ParentPath names. */
  lemma ParentOfChild(cwd: string, f: string)
    requires f != "" && Without(f, IsSlash)
    ensures ParentPath(Child(cwd, f)) == cwd
  {
    var p := Child(cwd, f);
    assert p[|p| - 1] == f[|f| - 1];
    LastSlashOfChild(cwd, f);
    assert cwd != "" ==> p[..|cwd|] == cwd;
  }

  lemma LastSlashOfChild(cwd: string, f: string)
    requires Without(f, IsSlash)
    ensures LastIndexChar(Child(cwd, f), '/') == |Prefix(cwd)| - 1
  {
    var p, k := Child(cwd, f), |Prefix(cwd)|;
    assert forall j :: k <= j < |p| ==> p[j] == f[j - k];
    assert cwd != "" ==> p[k - 1] == '/';
  }

  /** Where path.Join leads for the other names: "" and "." back to the directory itself, ".." to its parent,
      and out of "." any name leads to the top level. */
  lemma BadFolderLeadsAway(cwd: string, f: string)
    requires IsPlace(cwd) && Without(f, IsSlash) && !LeadsDown(cwd, f)
    ensures PathJoin(cwd, f) ==
            if f == "" || f == "." then cwd else if cwd == "." then f else Dotted(ParentPath(cwd))
  {
    if cwd != "" {
      JoinCleansLast(cwd, f);
      PlaceSegments(cwd);
      var segments := Segments(cwd);
      if f == "" || f == "." {
        assert CleanStep(f, false, segments) == segments;
      } else if cwd == "." {
        assert CleanStep(f, false, segments) == [f];
      } else {
        ParentIsCleaned(cwd);
      }
    }
  }

  lemma ParentIsCleaned(cwd: string)
    requires IsDir(cwd) && cwd != "."
    ensures Segments(cwd) != [] && Join(Segments(cwd)[..|Segments(cwd)| - 1], '/') == ParentPath(cwd)
  {
    DirSegments(cwd);
    JoinSplit(cwd, '/', IsSlash);
    ParentOfJoined(Segments(cwd));
  }

  lemma ParentOfJoined(segments: seq<string>)
    requires Climbs(segments) && segments != []
    ensures ParentPath(Join(segments, '/')) == Join(segments[..|segments| - 1], '/')
  {
    hide ParentPath;
    var front, last := segments[..|segments| - 1], segments[|segments| - 1];
    assert IsName(last);
    InitLast(segments);
    if front == [] {
      assert segments == [last] && Child("", last) == last;
      ParentOfChild("", last);
    } else {
      ClimbsPrefix(front, [last]);
      SplitClimbs(front);
      JoinConcat(front, [last], '/');
      ParentOfChild(Join(front, '/'), last);
    }
  }

  lemma ParentIsShorter(p: string)
    requires p != ""
    ensures |ParentPath(p)| < |p|
  {}

  /** A folder leads back to the directory it is listed in exactly for these names, in every directory. */
  lemma LeadsBackIff(cwd: string, f: string)
    requires IsPlace(cwd) && Without(f, IsSlash)
    ensures PathJoin(cwd, f) == cwd <==> f == "" || (f == "." && cwd != "")
  {
    if LeadsDown(cwd, f) {
      LeadsDownToChild(cwd, f);
      assert |Child(cwd, f)| > |cwd|;
    } else {
      BadFolderLeadsAway(cwd, f);
      if cwd != "" { ParentIsShorter(cwd); }
    }
  }

  /** A folder leads to its own objects, those whose keys start with the directory, its name and a slash, exactly for
      the names that lead down; at the root that is every name but the empty one. */
  lemma FolderKeyIff(cwd: string, f: string)
    requires IsPlace(cwd) && Without(f, IsSlash)
    ensures Prefix(PathJoin(cwd, f)) == Child(cwd, f) + "/" <==> LeadsDown(cwd, f)
  {
    if LeadsDown(cwd, f) {
      LeadsDownToChild(cwd, f);
    } else {
      BadFolderLeadsAway(cwd, f);
      if cwd != "" {
        ParentIsShorter(cwd);
        assert |Child(cwd, f) + "/"| == |cwd| + |f| + 2;
      }
    }
  }

  // ---- Keys the tree can reach ----

  /** The directory part is missing or cleaned, and the name after it is not empty. */
  predicate IsListable(key: string) {
    var i := LastIndexChar(key, '/');
    i < |key| - 1 && (i == -1 || IsDir(key[..i]))
  }

  predicate AllListable(objects: seq<ObjectInfo>) {
    forall o :: o in objects ==> IsListable(o.key)
  }

  lemma {:induction false} FolderHasObject(objects: seq<ObjectInfo>, cwd: string, f: string) returns (o: ObjectInfo)
    requires f in Folders(objects, cwd)
    ensures o in objects && FolderOf(o, cwd) == Some(f)
  {
    if f in FolderSet(objects[0], cwd) {
      o := objects[0];
    } else {
      o := FolderHasObject(objects[1..], cwd, f);
    }
  }

  lemma {:induction false} ObjectHasFolder(objects: seq<ObjectInfo>, cwd: string, o: ObjectInfo)
    requires o in objects && FolderOf(o, cwd).Some?
    ensures FolderOf(o, cwd).value in Folders(objects, cwd)
  {
    if o != objects[0] {
      ObjectHasFolder(objects[1..], cwd, o);
    }
  }

  /** The key of an object in a folder: the folder, a slash, and the rest. */
  lemma FolderSplitsKey(o: ObjectInfo, cwd: string, f: string) returns (tail: string)
    requires FolderOf(o, cwd) == Some(f)
    ensures o.key == Child(cwd, f) + "/" + tail && Without(f, IsSlash)
  {
    var rest := Rest(o, cwd).value;
    tail := rest[|f| + 1..];
    assert rest == f + "/" + tail && o.key == Prefix(cwd) + rest;
    ConcatAssoc(Prefix(cwd), f, "/");
    ConcatAssoc(Prefix(cwd), f + "/", tail);
  }

  /** In front of a slash, a listable key has a directory. */
  lemma DirBeforeSlash(p: string, tail: string)
    requires IsListable(p + "/" + tail)
    ensures IsDir(p) && tail != ""
  {
    var key := p + "/" + tail;
    var i := LastIndexChar(key, '/');
    assert key[|p|] == '/';
    if i == |p| {
      assert key[..i] == p;
    } else {
      assert key[..i] == p + "/" + tail[..i - |p| - 1];
      DirAbove(p, tail[..i - |p| - 1]);
    }
  }

  lemma KeyInFolder(o: ObjectInfo, cwd: string, f: string)
    requires IsListable(o.key) && FolderOf(o, cwd) == Some(f)
    ensures Without(f, IsSlash) && IsDir(Child(cwd, f)) && PathJoin(cwd, f) == Child(cwd, f)
    ensures Prefix(Child(cwd, f)) <= o.key && |Prefix(Child(cwd, f))| < |o.key|
  {
    var tail := FolderSplitsKey(o, cwd, f);
    DirBeforeSlash(Child(cwd, f), tail);
    ChildIsCleaned(cwd, f);
    assert Prefix(Child(cwd, f)) + tail == o.key;
  }

  /** The folder's name is not empty: a cleaned path does not end in a slash. */
  lemma ChildHasName(cwd: string, f: string)
    requires IsDir(Child(cwd, f))
    ensures f != ""
  {
    var p, k := Child(cwd, f), |Split(cwd, IsSlash)|;
    if f == "" && cwd != "" {
      assert p == cwd + ['/'] + f;
      SplitConcat(cwd, '/', f, IsSlash);
      SplitWhole(f, IsSlash);
      assert Split(p, IsSlash)[k] == "" && !IsName("");
      assert !Climbs(Split(p, IsSlash));
      DirSegments(p);
    }
  }

  /** Conversely, the objects below a child path are those in the folder. */
  lemma BelowIsInFolder(o: ObjectInfo, cwd: string, f: string)
    requires f != "" && Without(f, IsSlash) && Rest(o, Child(cwd, f)).Some?
    ensures FolderOf(o, cwd) == Some(f)
  {
    var p := Prefix(cwd);
    ConcatAssoc(p, f, "/");
    var below := Rest(o, Child(cwd, f)).value;
    var rest := f + "/" + below;
    assert o.key == (p + (f + "/")) + below;
    ConcatAssoc(p, f + "/", below);
    assert o.key == p + rest && Rest(o, cwd) == Some(rest);
    FirstSlash(f, below);
  }

  lemma FirstSlash(f: string, below: string)
    requires Without(f, IsSlash)
    ensures IndexChar(f + "/" + below, '/', 0) == Some(|f|) && (f + "/" + below)[..|f|] == f
  {
    var rest := f + "/" + below;
    assert rest[|f|] == '/' && rest[..|f|] == f;
    assert forall i :: 0 <= i < |f| ==> rest[i] == f[i];
  }

  lemma BelowChildIff(o: ObjectInfo, cwd: string, f: string)
    requires IsListable(o.key) && f != "" && Without(f, IsSlash)
    ensures Rest(o, Child(cwd, f)).Some? <==> FolderOf(o, cwd) == Some(f)
  {
    if FolderOf(o, cwd) == Some(f) {
      KeyInFolder(o, cwd, f);
    }
    if Rest(o, Child(cwd, f)).Some? {
      BelowIsInFolder(o, cwd, f);
    }
  }

  lemma FolderEntryMembers(cwd: string, names: seq<string>)
    ensures forall e :: e in FolderEntries(cwd, names) <==> e.name in names && e == FolderEntry(cwd, e.name)
  {}

  lemma FileMembers(objects: seq<ObjectInfo>, cwd: string)
    ensures forall e :: e in Files(objects, cwd) ==> !e.isDir
  {}

  /** A listing holds a folder entry for each folder name, and the files. */
  lemma ChildMembers(objects: seq<ObjectInfo>, cwd: string)
    ensures forall e :: e in Children(objects, cwd) <==>
              e in Files(objects, cwd) || (e.name in Folders(objects, cwd) && e == FolderEntry(cwd, e.name))
  {
    var names, children := Listed(Folders(objects, cwd)), Children(objects, cwd);
    var all := FolderEntries(cwd, names) + Files(objects, cwd);
    ListedNames(Folders(objects, cwd));
    EntryLeqIsTotalPreorder();
    SortByIsStableSort(all, EntryLeq);
    FolderEntryMembers(cwd, names);
    forall e ensures e in children <==> e in all {
      assert e in children <==> e in multiset(children);
      assert e in all <==> e in multiset(all);
    }
  }

  lemma {:induction false} FileKeys(objects: seq<ObjectInfo>, cwd: string, e: TreeEntry)
    requires e in Files(objects, cwd)
    ensures e.key == Child(cwd, e.name) && e.name != "" && Without(e.name, IsSlash)
  {
    if e in FileOf(objects[0], cwd) {
    } else {
      FileKeys(objects[1..], cwd, e);
    }
  }

  lemma ChildIsListable(cwd: string, name: string)
    requires IsPlace(cwd) && name != "" && Without(name, IsSlash)
    ensures IsListable(Child(cwd, name))
  {
    LastSlashOfChild(cwd, name);
    assert cwd != "" ==> Child(cwd, name)[..|cwd|] == cwd;
  }

  /** Below a place, folders are places again, and files have listable keys. */
  lemma ListingStaysInPlaces(objects: seq<ObjectInfo>, cwd: string, e: TreeEntry)
    requires IsPlace(cwd) && e in Children(objects, cwd)
    ensures if e.isDir then IsPlace(e.key) else IsListable(e.key)
  {
    hide IsPlace, IsListable, Children;
    ChildMembers(objects, cwd);
    FileMembers(objects, cwd);
    if e.isDir {
      var o := FolderHasObject(objects, cwd, e.name);
      var tail := FolderSplitsKey(o, cwd, e.name);
      JoinIsPlace(cwd, e.name);
    } else {
      FileKeys(objects, cwd, e);
      ChildIsListable(cwd, e.name);
    }
  }

  // ---- Walking the tree ----

  /** Everything reached from a directory by listing it and then each of its folders; None when that goes more than
      depth directories deep. */
  ghost function Walk(objects: seq<ObjectInfo>, cwd: string, depth: nat): Option<seq<TreeEntry>>
    decreases depth, 0
  {
    if depth == 0 then None else WalkEntries(objects, Children(objects, cwd), depth - 1)
  }

  ghost function WalkEntries(objects: seq<ObjectInfo>, entries: seq<TreeEntry>, depth: nat): Option<seq<TreeEntry>>
    decreases depth, 1 + |entries|
  {
    if entries == [] then Some([])
    else Both(WalkEntry(objects, entries[0], depth), WalkEntries(objects, entries[1..], depth))
  }

  ghost function WalkEntry(objects: seq<ObjectInfo>, e: TreeEntry, depth: nat): Option<seq<TreeEntry>>
    decreases depth, 1
  {
    if e.isDir then Walk(objects, e.key, depth) else Some([e])
  }

  function Both<T>(a: Option<seq<T>>, b: Option<seq<T>>): Option<seq<T>> {
    if a.Some? && b.Some? then Some(a.value + b.value) else None
  }

  function Longest(objects: seq<ObjectInfo>): (n: nat)
    ensures forall o :: o in objects ==> |o.key| <= n
  {
    if objects == [] then 0
    else
      var n := Longest(objects[1..]);
      if |objects[0].key| > n then |objects[0].key| else n
  }

  /** How much longer a directory's path can get. */
  function Room(objects: seq<ObjectInfo>, cwd: string): nat {
    if Longest(objects) > |cwd| then Longest(objects) - |cwd| else 0
  }

  /** A folder of the listing is a longer directory. */
  lemma FolderGoesDown(objects: seq<ObjectInfo>, cwd: string, e: TreeEntry)
    requires AllListable(objects) && e in Children(objects, cwd) && e.isDir
    ensures e.key == Child(cwd, e.name) && e.name != "" && Without(e.name, IsSlash) && IsDir(e.key)
    ensures Room(objects, e.key) < Room(objects, cwd)
  {
    ChildMembers(objects, cwd);
    FileMembers(objects, cwd);
    var o := FolderHasObject(objects, cwd, e.name);
    KeyInFolder(o, cwd, e.name);
    ChildHasName(cwd, e.name);
    assert |o.key| <= Longest(objects);
  }

  // ---- What the walk reaches ----

  /** The entry an object should be listed as. */
  function Leaf(o: ObjectInfo): TreeEntry { FileEntry(o, o.key[LastIndexChar(o.key, '/') + 1..]) }

  function Leaves(objects: seq<ObjectInfo>, cwd: string): multiset<TreeEntry> {
    if objects == [] then multiset{}
    else (if Rest(objects[0], cwd).Some? then multiset{Leaf(objects[0])} else multiset{}) + Leaves(objects[1..], cwd)
  }

  /** What the entries of a listing lead to. */
  function Gather(objects: seq<ObjectInfo>, entries: seq<TreeEntry>): multiset<TreeEntry> {
    if entries == [] then multiset{}
    else Reached(objects, entries[0]) + Gather(objects, entries[1..])
  }

  function Reached(objects: seq<ObjectInfo>, e: TreeEntry): multiset<TreeEntry> {
    if e.isDir then Leaves(objects, e.key) else multiset{e}
  }

  lemma {:induction false} GatherInsert(objects: seq<ObjectInfo>, e: TreeEntry, s: seq<TreeEntry>)
    ensures Gather(objects, Insert(e, s, EntryLeq)) == Reached(objects, e) + Gather(objects, s)
  {
    if s == [] {
      assert [e][1..] == [];
    } else if EntryLeq(e, s[0]) {
      assert ([e] + s)[1..] == s;
    } else {
      GatherInsert(objects, e, s[1..]);
      var r := Insert(e, s[1..], EntryLeq);
      assert ([s[0]] + r)[1..] == r;
    }
  }

  lemma {:induction false} GatherSorted(objects: seq<ObjectInfo>, s: seq<TreeEntry>)
    ensures Gather(objects, SortBy(s, EntryLeq)) == Gather(objects, s)
  {
    if s != [] {
      GatherSorted(objects, s[1..]);
      GatherInsert(objects, s[0], SortBy(s[1..], EntryLeq));
    }
  }

  lemma GatherFirst(objects: seq<ObjectInfo>, e: TreeEntry, s: seq<TreeEntry>)
    ensures Gather(objects, [e] + s) == Reached(objects, e) + Gather(objects, s)
  {
    assert ([e] + s)[1..] == s;
  }

  lemma {:induction false} GatherConcat(objects: seq<ObjectInfo>, a: seq<TreeEntry>, b: seq<TreeEntry>)
    ensures Gather(objects, a + b) == Gather(objects, a) + Gather(objects, b)
  {
    if a == [] {
      assert a + b == b;
    } else {
      GatherConcat(objects, a[1..], b);
      assert a == [a[0]] + a[1..];
      ConcatAssoc([a[0]], a[1..], b);
      GatherFirst(objects, a[0], a[1..] + b);
    }
  }

  lemma {:induction false} GatherFiles(objects: seq<ObjectInfo>, files: seq<TreeEntry>)
    requires forall e :: e in files ==> !e.isDir
    ensures Gather(objects, files) == multiset(files)
  {
    if files != [] {
      GatherFiles(objects, files[1..]);
      assert files == [files[0]] + files[1..];
    }
  }

  /** The leaves below the named folders of a directory. */
  function Below(objects: seq<ObjectInfo>, cwd: string, names: seq<string>): multiset<TreeEntry> {
    if names == [] then multiset{} else Leaves(objects, Child(cwd, names[0])) + Below(objects, cwd, names[1..])
  }

  lemma {:induction false} GatherFolders(objects: seq<ObjectInfo>, cwd: string, names: seq<string>)
    requires forall f :: f in names ==> PathJoin(cwd, f) == Child(cwd, f)
    ensures Gather(objects, FolderEntries(cwd, names)) == Below(objects, cwd, names)
  {
    if names != [] {
      GatherFolders(objects, cwd, names[1..]);
      assert FolderEntries(cwd, names)[1..] == FolderEntries(cwd, names[1..]);
      assert names[0] in names;
    }
  }

  lemma {:induction false} BelowNothing(cwd: string, names: seq<string>)
    ensures Below([], cwd, names) == multiset{}
  {
    if names != [] { BelowNothing(cwd, names[1..]); }
  }

  predicate FolderNames(names: seq<string>) {
    forall f :: f in names ==> f != "" && Without(f, IsSlash)
  }

  predicate IsInOne(o: ObjectInfo, cwd: string, names: seq<string>) {
    FolderOf(o, cwd).Some? && FolderOf(o, cwd).value in names
  }

  lemma BelowFirst(o: ObjectInfo, objects: seq<ObjectInfo>, cwd: string, f: string)
    requires IsListable(o.key) && f != "" && Without(f, IsSlash)
    ensures Leaves([o] + objects, Child(cwd, f)) ==
            (if FolderOf(o, cwd) == Some(f) then multiset{Leaf(o)} else multiset{}) + Leaves(objects, Child(cwd, f))
  {
    hide IsListable, FolderOf, Rest, Leaf;
    BelowChildIff(o, cwd, f);
    assert ([o] + objects)[1..] == objects;
  }

  lemma DistinctTail(names: seq<string>)
    requires names != [] && Distinct(names) && FolderNames(names)
    ensures names[0] != "" && Without(names[0], IsSlash) && names[0] !in names[1..]
    ensures Distinct(names[1..]) && FolderNames(names[1..])
    ensures forall f :: f in names <==> f == names[0] || f in names[1..]
  {
    assert names[0] in names;
    assert forall f :: f in names[1..] ==> f in names;
  }

  /** One object is below exactly the folder it is in. */
  lemma {:induction false} BelowOneMore(o: ObjectInfo, objects: seq<ObjectInfo>, cwd: string, names: seq<string>)
    requires IsListable(o.key) && Distinct(names) && FolderNames(names)
    ensures Below([o] + objects, cwd, names) ==
            (if IsInOne(o, cwd, names) then multiset{Leaf(o)} else multiset{}) + Below(objects, cwd, names)
  {
    hide IsListable, FolderOf, Leaf, Leaves, Distinct, FolderNames;
    if names != [] {
      DistinctTail(names);
      BelowOneMore(o, objects, cwd, names[1..]);
      BelowFirst(o, objects, cwd, names[0]);
    }
  }

  lemma LeafOfFile(o: ObjectInfo, cwd: string)
    requires IsFileIn(o, cwd)
    ensures FileEntry(o, Rest(o, cwd).value) == Leaf(o)
  {
    var p, rest := Prefix(cwd), Rest(o, cwd).value;
    assert o.key == Child(cwd, rest);
    LastSlashOfChild(cwd, rest);
    assert o.key[|p|..] == rest;
  }

  /** An object below a directory is a file in it or in one of its folders. */
  lemma FileOrInFolder(o: ObjectInfo, cwd: string, names: seq<string>)
    requires FolderOf(o, cwd).Some? ==> FolderOf(o, cwd).value in names
    ensures (if Rest(o, cwd).Some? then multiset{Leaf(o)} else multiset{}) ==
            multiset(FileOf(o, cwd)) + if IsInOne(o, cwd, names) then multiset{Leaf(o)} else multiset{}
  {
    if IsFileIn(o, cwd) {
      LeafOfFile(o, cwd);
    }
  }

  /** The objects below a directory are its files and, folder by folder, the objects below its folders. */
  lemma {:induction false} LeavesSplit(objects: seq<ObjectInfo>, cwd: string, names: seq<string>)
    requires AllListable(objects) && Distinct(names) && FolderNames(names)
    requires forall f :: f in Folders(objects, cwd) ==> f in names
    ensures Leaves(objects, cwd) == multiset(Files(objects, cwd)) + Below(objects, cwd, names)
  {
    hide IsListable, FolderOf, Rest, Leaf, Below, FileOf, IsInOne, Distinct, FolderNames;
    if objects == [] {
      BelowNothing(cwd, names);
    } else {
      var o, rest := objects[0], objects[1..];
      HeadTail(objects);
      LeavesSplit(rest, cwd, names);
      BelowOneMore(o, rest, cwd, names);
      FileOrInFolder(o, cwd, names);
      assert multiset(Files(objects, cwd)) == multiset(FileOf(o, cwd)) + multiset(Files(rest, cwd));
    }
  }

  lemma ListingReaches(objects: seq<ObjectInfo>, cwd: string)
    requires AllListable(objects)
    ensures Gather(objects, Children(objects, cwd)) == Leaves(objects, cwd)
  {
    var folders := Folders(objects, cwd);
    var names, files := Listed(folders), Files(objects, cwd);
    ListedNames(folders);
    forall f | f in names ensures f != "" && Without(f, IsSlash) && PathJoin(cwd, f) == Child(cwd, f) {
      var o := FolderHasObject(objects, cwd, f);
      KeyInFolder(o, cwd, f);
      ChildHasName(cwd, f);
    }
    assert FolderNames(names);
    FileMembers(objects, cwd);
    GatherSorted(objects, FolderEntries(cwd, names) + files);
    GatherConcat(objects, FolderEntries(cwd, names), files);
    GatherFolders(objects, cwd, names);
    GatherFiles(objects, files);
    LeavesSplit(objects, cwd, names);
  }

  /** From any directory the walk ends, and lists exactly the objects below it. */
  lemma {:induction false} WalkReaches(objects: seq<ObjectInfo>, cwd: string, depth: nat)
    requires AllListable(objects) && depth > Room(objects, cwd)
    ensures Walk(objects, cwd, depth).Some? && multiset(Walk(objects, cwd, depth).value) == Leaves(objects, cwd)
    decreases depth, 0
  {
    WalkEntriesReach(objects, cwd, Children(objects, cwd), depth - 1);
    ListingReaches(objects, cwd);
  }

  lemma {:induction false} WalkEntriesReach(objects: seq<ObjectInfo>, cwd: string, entries: seq<TreeEntry>, depth: nat)
    requires AllListable(objects) && depth >= Room(objects, cwd)
    requires forall e :: e in entries ==> e in Children(objects, cwd)
    ensures var found := WalkEntries(objects, entries, depth);
            found.Some? && multiset(found.value) == Gather(objects, entries)
    decreases depth, 1 + |entries|
  {
    if entries != [] {
      var e := entries[0];
      WalkEntriesReach(objects, cwd, entries[1..], depth);
      if e.isDir {
        FolderGoesDown(objects, cwd, e);
        WalkReaches(objects, e.key, depth);
      }
    }
  }

  /** The entry of every object, as often as the object occurs. */
  function AllLeaves(objects: seq<ObjectInfo>): multiset<TreeEntry> {
    if objects == [] then multiset{} else multiset{Leaf(objects[0])} + AllLeaves(objects[1..])
  }

  lemma LeafIsListed(objects: seq<ObjectInfo>, o: ObjectInfo)
    requires o in objects
    ensures Leaf(o) in AllLeaves(objects)
  {
    hide Leaf;
    if o != objects[0] { LeafIsListed(objects[1..], o); }
  }

  lemma {:induction false} RootLeaves(objects: seq<ObjectInfo>)
    requires forall o :: o in objects ==> Rest(o, "").Some?
    ensures Leaves(objects, "") == AllLeaves(objects)
  {
    hide Rest, Leaf;
    if objects != [] {
      RootLeaves(objects[1..]);
    }
  }

  // ---- What the walk cannot reach ----

  /** Whatever the walk finds from a place is a file with a listable key. */
  lemma {:induction false} FoundIsListable(objects: seq<ObjectInfo>, cwd: string, depth: nat)
    requires IsPlace(cwd) && Walk(objects, cwd, depth).Some?
    ensures forall e :: e in Walk(objects, cwd, depth).value ==> IsListable(e.key)
    decreases depth, 0
  {
    FoundEntriesAreListable(objects, cwd, Children(objects, cwd), depth - 1);
  }

  lemma {:induction false} FoundEntriesAreListable(objects: seq<ObjectInfo>, cwd: string, entries: seq<TreeEntry>,
                                                   depth: nat)
    requires IsPlace(cwd) && WalkEntries(objects, entries, depth).Some?
    requires forall e :: e in entries ==> e in Children(objects, cwd)
    ensures forall e :: e in WalkEntries(objects, entries, depth).value ==> IsListable(e.key)
    decreases depth, 1 + |entries|
  {
    if entries != [] {
      FoundEntriesAreListable(objects, cwd, entries[1..], depth);
      ListingStaysInPlaces(objects, cwd, entries[0]);
      if entries[0].isDir {
        FoundIsListable(objects, entries[0].key, depth);
      }
    }
  }

  /** The walk from the root ends and lists every object exactly once, duplicates included. */
  ghost predicate ListsEveryObjectOnce(objects: seq<ObjectInfo>, depth: nat) {
    var found := Walk(objects, "", depth);
    found.Some? && multiset(found.value) == AllLeaves(objects)
  }

  /** It does exactly when every key is listable: the name after the last slash is not empty, and what comes before
      that slash, if there is one, neither starts with a slash nor is changed by path.Clean. */
  lemma WalkListsEveryObjectOnceIff(objects: seq<ObjectInfo>)
    ensures (exists depth :: ListsEveryObjectOnce(objects, depth)) <==> AllListable(objects)
  {
    if AllListable(objects) {
      var depth := Room(objects, "") + 1;
      WalkReaches(objects, "", depth);
      forall o | o in objects ensures Rest(o, "").Some? { assert IsListable(o.key); }
      RootLeaves(objects);
      assert ListsEveryObjectOnce(objects, depth);
    }
    if depth :| ListsEveryObjectOnce(objects, depth) {
      var found := Walk(objects, "", depth).value;
      FoundIsListable(objects, "", depth);
      forall o | o in objects ensures IsListable(o.key) {
        LeafIsListed(objects, o);
        assert Leaf(o) in multiset(found);
      }
    }
  }

  // ---- Walks that do not end ----

  /** A directory lists a folder that is the directory itself. */
  ghost predicate ListsItself(objects: seq<ObjectInfo>, cwd: string) {
    exists e :: e in Children(objects, cwd) && e.isDir && e.key == cwd
  }

  /** In every directory, the root included: exactly when an object lies in a folder without a name, or in a folder
      "." below the root. */
  lemma ListsItselfIff(objects: seq<ObjectInfo>, cwd: string)
    requires IsPlace(cwd)
    ensures ListsItself(objects, cwd) <==>
            exists o :: o in objects && (FolderOf(o, cwd) == Some("") || (cwd != "" && FolderOf(o, cwd) == Some(".")))
  {
    ChildMembers(objects, cwd);
    FileMembers(objects, cwd);
    if ListsItself(objects, cwd) {
      var e :| e in Children(objects, cwd) && e.isDir && e.key == cwd;
      var o := FolderHasObject(objects, cwd, e.name);
      var tail := FolderSplitsKey(o, cwd, e.name);
      LeadsBackIff(cwd, e.name);
    }
    forall o | o in objects && (FolderOf(o, cwd) == Some("") || (cwd != "" && FolderOf(o, cwd) == Some(".")))
      ensures ListsItself(objects, cwd)
    {
      var f := FolderOf(o, cwd).value;
      ObjectHasFolder(objects, cwd, o);
      LeadsBackIff(cwd, f);
      assert FolderEntry(cwd, f) in Children(objects, cwd);
    }
  }

  lemma {:induction false} EntryStopsWalk(objects: seq<ObjectInfo>, entries: seq<TreeEntry>, e: TreeEntry, depth: nat)
    requires e in entries && e.isDir && Walk(objects, e.key, depth) == None
    ensures WalkEntries(objects, entries, depth) == None
  {
    if e != entries[0] {
      EntryStopsWalk(objects, entries[1..], e, depth);
    }
  }

  /** Such a directory is never finished, however deep the walk may go. */
  lemma {:induction false} WalkOfItselfNeverEnds(objects: seq<ObjectInfo>, cwd: string, depth: nat)
    requires ListsItself(objects, cwd)
    ensures Walk(objects, cwd, depth) == None
    decreases depth
  {
    if depth > 0 {
      var e :| e in Children(objects, cwd) && e.isDir && e.key == cwd;
      WalkOfItselfNeverEnds(objects, cwd, depth - 1);
      EntryStopsWalk(objects, Children(objects, cwd), e, depth - 1);
    }
  }

  /** One key with a leading slash is enough: the root then lists itself, and the walk from it does not end. */
  lemma LeadingSlashNeverEnds(objects: seq<ObjectInfo>, o: ObjectInfo, depth: nat)
    requires o in objects && o.key != "" && o.key[0] == '/'
    ensures ListsItself(objects, "") && Walk(objects, "", depth) == None
  {
    var rest := Rest(o, "").value;
    assert rest == o.key && IndexChar(rest, '/', 0) == Some(0) && rest[..0] == "";
    assert FolderOf(o, "") == Some("");
    ListsItselfIff(objects, "");
    WalkOfItselfNeverEnds(objects, "", depth);
  }

  // ---- The shape of a listing ----

  lemma {:induction false} TwoTies(s: seq<TreeEntry>, i: nat, j: nat, y: TreeEntry)
    requires i < j < |s| && EntryLeq(y, s[i]) && EntryLeq(s[i], y) && EntryLeq(y, s[j]) && EntryLeq(s[j], y)
    ensures |Ties(s, y, EntryLeq)| >= 2
  {
    if i > 0 {
      TwoTies(s[1..], i - 1, j - 1, y);
    } else {
      TiesMembers(s[1..], y, EntryLeq);
      assert s[1..][j - 1] == s[j] && s[j] in Ties(s[1..], y, EntryLeq);
    }
  }

  predicate FoldersDiffer(s: seq<TreeEntry>) {
    forall i, j :: 0 <= i < j < |s| && s[i].isDir && s[j].isDir ==> s[i].name != s[j].name
  }

  lemma FoldersAreListedOnce(objects: seq<ObjectInfo>, cwd: string)
    ensures FoldersDiffer(Children(objects, cwd))
  {
    var names, files := Listed(Folders(objects, cwd)), Files(objects, cwd);
    var sorted := Children(objects, cwd);
    ListedNames(Folders(objects, cwd));
    EntryLeqIsTotalPreorder();
    SortByIsStableSort(FolderEntries(cwd, names) + files, EntryLeq);
    FileMembers(objects, cwd);
    forall i, j | 0 <= i < j < |sorted| && sorted[i].isDir && sorted[j].isDir
      ensures sorted[i].name != sorted[j].name
    {
      var y := sorted[i];
      TiesConcat(FolderEntries(cwd, names), files, y);
      TiesOfFolders(cwd, names, y);
      NoTies(files, y);
      if sorted[j].name == y.name {
        StrLeqTotal(y.name, y.name);
        TwoTies(sorted, i, j, y);
      }
    }
  }

  lemma ListedInParent(objects: seq<ObjectInfo>, cwd: string, e: TreeEntry)
    requires AllListable(objects) && e in Children(objects, cwd)
    ensures ParentPath(e.key) == cwd
  {
    if e.isDir {
      FolderGoesDown(objects, cwd, e);
    } else {
      ChildMembers(objects, cwd);
      FileKeys(objects, cwd, e);
    }
    ParentOfChild(cwd, e.name);
  }

  /** A listing has its folders first, each group by name, and no folder twice; with listable keys, every entry is
      directly in the directory. */
  lemma ListingShape(objects: seq<ObjectInfo>, cwd: string)
    ensures Sorted(Children(objects, cwd), EntryLeq) && FoldersDiffer(Children(objects, cwd))
    ensures var s := Children(objects, cwd);
            forall i, j :: 0 <= i < j < |s| ==>
              if s[i].isDir == s[j].isDir then StrLeq(s[i].name, s[j].name) else s[i].isDir
    ensures AllListable(objects) ==> forall e :: e in Children(objects, cwd) ==> ParentPath(e.key) == cwd
  {
    EntryLeqIsTotalPreorder();
    SortByIsStableSort(FolderEntries(cwd, Listed(Folders(objects, cwd))) + Files(objects, cwd), EntryLeq);
    FoldersAreListedOnce(objects, cwd);
    if AllListable(objects) {
      forall e | e in Children(objects, cwd) ensures ParentPath(e.key) == cwd {
        ListedInParent(objects, cwd, e);
      }
    }
  }

  lemma NoTies(files: seq<TreeEntry>, y: TreeEntry)
    requires y.isDir && forall e :: e in files ==> !e.isDir
    ensures Ties(files, y, EntryLeq) == []
  {
    if files != [] { NoTies(files[1..], y); }
  }

  // ---- What a listing holds, entry by entry ----

  /** The path of a name in a directory. */
  function PathOf(cwd: string, name: string): string { if cwd == "" then name else cwd + "/" + name }

  /** A file directly in the directory, with everything the bucket says about it. */
  predicate IsFileOf(e: TreeEntry, o: ObjectInfo, cwd: string) {
    && e.name != "" && '/' !in e.name && o.key == PathOf(cwd, e.name)
    && e.key == o.key && !e.isDir && e.size == o.size && e.url == o.url && e.lastModified == o.lastModified
  }

  /** An object somewhere below the named folder of the directory. */
  predicate IsUnder(o: ObjectInfo, cwd: string, name: string) {
    '/' !in name && PathOf(cwd, name) + "/" <= o.key
  }

  lemma PathIsChild(cwd: string, name: string)
    ensures PathOf(cwd, name) == Child(cwd, name)
  {}

  lemma NoSlash(s: string)
    ensures '/' !in s <==> Without(s, IsSlash)
  {
    if '/' in s {
      var i :| 0 <= i < |s| && s[i] == '/';
      assert IsSlash(s[i]);
    }
  }

  lemma FileIff(e: TreeEntry, o: ObjectInfo, cwd: string)
    ensures e in FileOf(o, cwd) <==> IsFileOf(e, o, cwd)
  {
    PathIsChild(cwd, e.name);
    NoSlash(e.name);
    if IsFileIn(o, cwd) {
      var rest := Rest(o, cwd).value;
      assert o.key == Prefix(cwd) + rest;
      NoSlash(rest);
      assert o.key == Prefix(cwd) + e.name ==> e.name == o.key[|Prefix(cwd)|..];
    }
    if IsFileOf(e, o, cwd) {
      assert o.key[|Prefix(cwd)|..] == e.name && o.key[..|Prefix(cwd)|] == Prefix(cwd);
      assert forall i :: 0 <= i < |e.name| ==> e.name[i] in e.name;
    }
  }

  lemma UnderIff(o: ObjectInfo, cwd: string, f: string)
    ensures FolderOf(o, cwd) == Some(f) <==> IsUnder(o, cwd, f)
  {
    PathIsChild(cwd, f);
    NoSlash(f);
    if FolderOf(o, cwd) == Some(f) {
      var tail := FolderSplitsKey(o, cwd, f);
    }
    if IsUnder(o, cwd, f) {
      var p := Prefix(cwd);
      var below := o.key[|Child(cwd, f)| + 1..];
      assert o.key == (p + f + "/") + below;
      ConcatAssoc(p, f, "/");
      ConcatAssoc(p, f + "/", below);
      assert Rest(o, cwd) == Some(f + "/" + below);
      FirstSlash(f, below);
    }
  }

  lemma {:induction false} FilesIff(objects: seq<ObjectInfo>, cwd: string, e: TreeEntry)
    ensures e in Files(objects, cwd) <==> exists o :: o in objects && IsFileOf(e, o, cwd)
  {
    hide IsFileOf, FileOf;
    if objects != [] {
      FilesIff(objects[1..], cwd, e);
      FileIff(e, objects[0], cwd);
      assert forall o :: o in objects <==> o == objects[0] || o in objects[1..];
    }
  }

  lemma FoldersIff(objects: seq<ObjectInfo>, cwd: string, f: string)
    ensures f in Folders(objects, cwd) <==> exists o :: o in objects && IsUnder(o, cwd, f)
  {
    hide IsUnder, FolderOf;
    if f in Folders(objects, cwd) {
      var o := FolderHasObject(objects, cwd, f);
      UnderIff(o, cwd, f);
    }
    forall o | o in objects && IsUnder(o, cwd, f) ensures f in Folders(objects, cwd) {
      UnderIff(o, cwd, f);
      ObjectHasFolder(objects, cwd, o);
    }
  }

  /** A listing holds the files directly in the directory, each with its size, address and time, and the folders that
      objects lie under, with nothing but their names and path.Join of the directory and the name. */
  lemma ListingHolds(objects: seq<ObjectInfo>, cwd: string, e: TreeEntry)
    ensures e in Children(objects, cwd) <==>
            || (exists o :: o in objects && IsFileOf(e, o, cwd))
            || ((exists o :: o in objects && IsUnder(o, cwd, e.name))
                && e == TreeEntry(e.name, PathJoin(cwd, e.name), true, 0, "", ""))
  {
    hide Children, IsFileOf, IsUnder, PathJoin;
    ChildMembers(objects, cwd);
    FilesIff(objects, cwd, e);
    FoldersIff(objects, cwd, e.name);
  }
}
