/** Go's path.Clean and path.Join, as internal/share/tree.go uses them on bucket keys. */
module Paths {
  import opened Text

  // ---- path.Clean, path.Join ----

  /** One segment of path.Clean: empty and "." segments go, ".." takes the segment before it. */
  function CleanStep(s: string, rooted: bool, out: seq<string>): seq<string> {
    var last := |out| - 1;
    if s == "" || s == "." then out
    else if s != ".." then out + [s]
    else if out != [] && out[last] != ".." then out[..last]
    else if rooted then out
    else out + [".."]
  }

  function CleanSegments(segments: seq<string>, rooted: bool, out: seq<string>): seq<string>
    decreases |segments|
  {
    if segments == [] then out else CleanSegments(segments[1..], rooted, CleanStep(segments[0], rooted, out))
  }

  function Dotted(body: string): string { if body == "" then "." else body }

  function Clean(p: string): string {
    if p == "" then "."
    else
      var rooted := p[0] == '/';
      var body := Join(CleanSegments(Split(p, IsSlash), rooted, []), '/');
      if rooted then "/" + body else Dotted(body)
  }

  function PathJoin(a: string, b: string): string {
    if a == "" && b == "" then "" else if a == "" then Clean(b) else Clean(a + "/" + b)
  }

  // ---- Paths that path.Clean leaves alone ----

  /** A segment of a cleaned path. */
  predicate IsName(s: string) { s != "" && s != "." && Without(s, IsSlash) }

  /** Any number of ".." and then proper names: the segments of a cleaned path. */
  predicate Climbs(segments: seq<string>) {
    && (forall i :: 0 <= i < |segments| ==> IsName(segments[i]))
    && (forall i :: 0 < i < |segments| && segments[i] == ".." ==> segments[i - 1] == "..")
  }

  /** A path that does not start with a slash and that path.Clean leaves alone. */
  predicate IsDir(p: string) { p != "" && p[0] != '/' && Clean(p) == p }

  /** Such a path, or the root. */
  predicate IsPlace(p: string) { p == "" || IsDir(p) }

  lemma StepClimbs(s: string, out: seq<string>)
    requires Climbs(out) && Without(s, IsSlash)
    ensures Climbs(CleanStep(s, false, out))
  {}

  lemma {:induction false} CleanedClimbs(segments: seq<string>, out: seq<string>)
    requires Climbs(out) && forall s :: s in segments ==> Without(s, IsSlash)
    ensures Climbs(CleanSegments(segments, false, out))
    decreases |segments|
  {
    if segments != [] {
      StepClimbs(segments[0], out);
      CleanedClimbs(segments[1..], CleanStep(segments[0], false, out));
    }
  }

  lemma {:induction false} CleanKeeps(segments: seq<string>, more: seq<string>, out: seq<string>)
    requires Climbs(out + segments)
    ensures CleanSegments(segments + more, false, out) == CleanSegments(more, false, out + segments)
    decreases |segments|
  {
    if segments == [] {
      assert segments + more == more && out + segments == out;
    } else {
      var s := segments[0];
      KeptSegment(segments, out);
      ConcatTail(segments, more);
      HeadTail(segments);
      ConcatAssoc(out, [s], segments[1..]);
      CleanKeeps(segments[1..], more, out + [s]);
    }
  }

  lemma KeptSegment(segments: seq<string>, out: seq<string>)
    requires segments != [] && Climbs(out + segments)
    ensures CleanStep(segments[0], false, out) == out + [segments[0]]
  {
    var all, k := out + segments, |out|;
    assert all[k] == segments[0] && IsName(all[k]);
    if out != [] { assert all[k - 1] == out[k - 1]; }
  }

  lemma ClimbsPrefix(a: seq<string>, b: seq<string>)
    requires Climbs(a + b)
    ensures Climbs(a)
  {
    forall i | 0 <= i < |a| ensures IsName(a[i]) && (i > 0 && a[i] == ".." ==> a[i - 1] == "..") {
      assert (a + b)[i] == a[i] && (i > 0 ==> (a + b)[i - 1] == a[i - 1]);
    }
  }

  lemma FirstChar(p: string)
    requires p != "" && Split(p, IsSlash)[0] != ""
    ensures p[0] != '/'
  {}

  /** Joined and split again, the segments of a cleaned path are the same. */
  lemma SplitClimbs(segments: seq<string>)
    requires Climbs(segments) && segments != []
    ensures Split(Join(segments, '/'), IsSlash) == segments && Join(segments, '/') != ""
  {
    forall s | s in segments ensures Without(s, IsSlash) {
      var i :| 0 <= i < |segments| && segments[i] == s;
      assert IsName(segments[i]);
    }
    SplitJoin(segments, '/', IsSlash);
    assert IsName(segments[0]);
    SplitWhole("", IsSlash);
  }

  lemma ClimbsIsDir(p: string)
    requires p != "" && Climbs(Split(p, IsSlash))
    ensures IsDir(p)
  {
    var segments := Split(p, IsSlash);
    assert IsName(segments[0]);
    FirstChar(p);
    CleanKeeps(segments, [], []);
    assert [] + segments == segments && segments + [] == segments;
    JoinSplit(p, '/', IsSlash);
  }

  lemma JoinedIsDir(segments: seq<string>)
    requires Climbs(segments)
    ensures IsDir(Dotted(Join(segments, '/')))
  {
    if segments == [] {
      DotIsDir();
    } else {
      SplitClimbs(segments);
      ClimbsIsDir(Join(segments, '/'));
    }
  }

  lemma DotIsDir()
    ensures IsDir(".")
  {
    SplitWhole(".", IsSlash);
    assert CleanSegments(["."], false, []) == CleanSegments([], false, []) == [];
  }

  lemma DirSegments(p: string)
    requires IsDir(p)
    ensures p == "." || Climbs(Split(p, IsSlash))
  {
    var out := CleanSegments(Split(p, IsSlash), false, []);
    CleanedClimbs(Split(p, IsSlash), []);
    if out != [] {
      SplitClimbs(out);
    }
  }

  /** The directory above a cleaned path is clean. */
  lemma DirAbove(p: string, more: string)
    requires IsDir(p + "/" + more)
    ensures IsDir(p)
  {
    var whole := p + "/" + more;
    assert whole == p + ['/'] + more;
    SplitConcat(p, '/', more, IsSlash);
    DirSegments(whole);
    assert whole[|p|] == '/';
    ClimbsPrefix(Split(p, IsSlash), Split(more, IsSlash));
    assert IsName(Split(p, IsSlash)[0]);
    ClimbsIsDir(p);
  }

  // ---- Joining a name onto a place ----

  /** The segments that path.Clean has kept at a place. */
  function Segments(place: string): seq<string> {
    if place == "" || place == "." then [] else Split(place, IsSlash)
  }

  lemma PlaceSegments(place: string)
    requires IsPlace(place)
    ensures Climbs(Segments(place))
    ensures place != "" ==> Dotted(Join(Segments(place), '/')) == place
  {
    if place != "" && place != "." {
      DirSegments(place);
      JoinSplit(place, '/', IsSlash);
    }
  }

  lemma CleanOne(f: string, out: seq<string>)
    ensures CleanSegments([f], false, out) == CleanStep(f, false, out)
  {
    assert [f][1..] == [];
  }

  lemma CleanTwo(a: string, b: string, out: seq<string>)
    ensures CleanSegments([a] + [b], false, out) == CleanStep(b, false, CleanStep(a, false, out))
  {
    assert ([a] + [b])[1..] == [b];
    CleanOne(b, CleanStep(a, false, out));
  }

  /** Joining a name onto a place cleans one more segment. */
  lemma JoinCleansLast(place: string, f: string)
    requires IsPlace(place) && Without(f, IsSlash) && (place != "" || f != "")
    ensures PathJoin(place, f) == Dotted(Join(CleanStep(f, false, Segments(place)), '/'))
  {
    SplitWhole(f, IsSlash);
    if place == "" {
      CleanOne(f, []);
    } else {
      var p := place + "/" + f;
      assert p == place + ['/'] + f && p[0] == place[0];
      SplitConcat(place, '/', f, IsSlash);
      if place == "." {
        SplitWhole(place, IsSlash);
        CleanTwo(place, f, []);
      } else {
        DirSegments(place);
        CleanKeeps(Split(place, IsSlash), [f], []);
        assert [] + Split(place, IsSlash) == Split(place, IsSlash);
        CleanOne(f, Split(place, IsSlash));
      }
    }
  }

  lemma JoinIsPlace(place: string, f: string)
    requires IsPlace(place) && Without(f, IsSlash)
    ensures IsPlace(PathJoin(place, f))
  {
    if place != "" || f != "" {
      JoinCleansLast(place, f);
      PlaceSegments(place);
      StepClimbs(f, Segments(place));
      JoinedIsDir(CleanStep(f, false, Segments(place)));
    }
  }

  // ---- path.Clean by example ----

  lemma {:induction false} CleanOfSegments(segments: seq<string>, rooted: bool)
    requires segments != [] && Join(segments, '/') != "" && forall s :: s in segments ==> Without(s, IsSlash)
    requires rooted <==> segments[0] == ""
    ensures var body := Join(CleanSegments(segments, rooted, []), '/');
            Clean(Join(segments, '/')) == if rooted then "/" + body else Dotted(body)
  {
    SplitJoin(segments, '/', IsSlash);
    var p := Join(segments, '/');
    assert segments[0] in segments;
    if segments[0] != "" {
      assert p[0] == segments[0][0] && !IsSlash(p[0]);
    }
  }

  /** Doubled slashes and dots go, and two dots take the name in front of them. */
  lemma CleanedPath()
    ensures Clean(Join(["a", "", "b", ".", "c", "..", "d"], '/')) == Join(["a", "b", "d"], '/')
  {
    hide Clean;
    var s := ["a", "", "b", ".", "c", "..", "d"];
    CleanOfSegments(s, false);
    assert s[1..] == ["", "b", ".", "c", "..", "d"] && s[2..] == ["b", ".", "c", "..", "d"];
    assert CleanSegments(["d"], false, ["a", "b"]) == ["a", "b", "d"] by { assert ["d"][1..] == []; }
    assert CleanSegments(["c", "..", "d"], false, ["a", "b"]) == ["a", "b", "d"] by {
      assert ["c", "..", "d"][1..] == ["..", "d"] && ["..", "d"][1..] == ["d"];
    }
    assert CleanSegments(["b", ".", "c", "..", "d"], false, ["a"]) == ["a", "b", "d"] by {
      assert ["b", ".", "c", "..", "d"][1..] == [".", "c", "..", "d"];
      assert [".", "c", "..", "d"][1..] == ["c", "..", "d"];
    }
  }

  /** In front of everything else, two dots stay, and from the root they lead nowhere. */
  lemma CleanedClimb()
    ensures Clean(Join(["..", "a"], '/')) == Join(["..", "a"], '/')
    ensures Clean(Join(["", "..", "a"], '/')) == "/a"
  {
    hide Clean;
    var s, t := ["..", "a"], ["", "..", "a"];
    CleanOfSegments(s, false);
    CleanOfSegments(t, true);
    assert t[1..] == s && s[1..] == ["a"] && ["a"][1..] == [];
    assert CleanSegments(["a"], false, [".."]) == s && CleanSegments(["a"], true, []) == ["a"];
  }
}
