/** Orderings and sorting: the lexicographic order of Go strings, and stable sorting by an arbitrary preorder. */
module Order {

  /** The order of `cmp.Compare` and `strings.Compare`: a comes no later than b. */
  predicate StrLeq(a: string, b: string) {
    a == [] || (b != [] && (a[0] < b[0] || (a[0] == b[0] && StrLeq(a[1..], b[1..]))))
  }

  lemma StrLeqTotal(a: string, b: string)
    ensures StrLeq(a, b) || StrLeq(b, a)
  {}

  lemma {:induction false} StrLeqAntisymmetric(a: string, b: string)
    requires StrLeq(a, b) && StrLeq(b, a)
    ensures a == b
  {
    if a != [] {
      StrLeqAntisymmetric(a[1..], b[1..]);
      assert a == [a[0]] + a[1..] && b == [b[0]] + b[1..];
    }
  }

  lemma StrLeqTransitive(a: string, b: string, c: string)
    requires StrLeq(a, b) && StrLeq(b, c)
    ensures StrLeq(a, c)
  {}

  /** The texts agree up to a place where a has the smaller character. */
  predicate FirstDiffersBelow(a: string, b: string) {
    exists i :: 0 <= i < |a| && i < |b| && a[..i] == b[..i] && a[i] < b[i]
  }

  /** Where texts that begin alike first differ is where the rest of them does. */
  lemma DiffersInTail(a: string, b: string)
    requires a != [] && b != [] && a[0] == b[0]
    ensures FirstDiffersBelow(a, b) <==> FirstDiffersBelow(a[1..], b[1..])
  {
    var x, y := a[1..], b[1..];
    if FirstDiffersBelow(a, b) {
      var i :| 0 <= i < |a| && i < |b| && a[..i] == b[..i] && a[i] < b[i];
      assert x[..i - 1] == a[..i][1..] && y[..i - 1] == b[..i][1..];
      assert x[i - 1] < y[i - 1];
    }
    if FirstDiffersBelow(x, y) {
      var i :| 0 <= i < |x| && i < |y| && x[..i] == y[..i] && x[i] < y[i];
      assert a[..i + 1] == [a[0]] + x[..i] && b[..i + 1] == [b[0]] + y[..i];
      assert a[i + 1] < b[i + 1];
    }
  }

  lemma DiffersAtOnce(a: string, b: string)
    requires a != [] && b != [] && a[0] != b[0]
    ensures FirstDiffersBelow(a, b) <==> a[0] < b[0]
  {
    assert a[..0] == b[..0];
    forall i | 0 < i <= |a| && i <= |b| ensures a[..i] != b[..i] {
      assert a[..i][0] != b[..i][0];
    }
  }

  /** It is the lexicographic order: a begins b, or is below it where they first differ. */
  lemma {:induction false} StrLeqIsLexicographic(a: string, b: string)
    ensures StrLeq(a, b) <==> a <= b || FirstDiffersBelow(a, b)
  {
    hide FirstDiffersBelow;
    if a == [] {
    } else if b == [] {
      NothingBelowEmpty(a);
    } else if a[0] == b[0] {
      StrLeqIsLexicographic(a[1..], b[1..]);
      DiffersInTail(a, b);
      assert a == [a[0]] + a[1..] && b == [b[0]] + b[1..];
    } else {
      DiffersAtOnce(a, b);
    }
  }

  lemma NothingBelowEmpty(a: string)
    ensures !FirstDiffersBelow(a, [])
  {}

  /** A total preorder: every two elements compare, and comparison is transitive. */
  ghost predicate TotalPreorder<T(!new)>(le: (T, T) -> bool) {
    && (forall x, y :: le(x, y) || le(y, x))
    && (forall x, y, z :: le(x, y) && le(y, z) ==> le(x, z))
  }

  lemma StrLeqIsTotalPreorder()
    ensures TotalPreorder(StrLeq)
  {
    forall x, y ensures StrLeq(x, y) || StrLeq(y, x) { StrLeqTotal(x, y); }
    forall x, y, z | StrLeq(x, y) && StrLeq(y, z) ensures StrLeq(x, z) { StrLeqTransitive(x, y, z); }
  }

  ghost predicate Sorted<T>(s: seq<T>, le: (T, T) -> bool) {
    forall i, j :: 0 <= i < j < |s| ==> le(s[i], s[j])
  }

  function Insert<T>(x: T, s: seq<T>, le: (T, T) -> bool): seq<T> {
    if s == [] then [x]
    else if le(x, s[0]) then [x] + s
    else [s[0]] + Insert(x, s[1..], le)
  }

  /** Stable sorting: an element goes before the later elements it ties with. */
  function SortBy<T>(s: seq<T>, le: (T, T) -> bool): seq<T> {
    if s == [] then [] else Insert(s[0], SortBy(s[1..], le), le)
  }

  ghost function TieOf<T>(y: T, x: T, le: (T, T) -> bool): seq<T> { if le(x, y) && le(y, x) then [y] else [] }

  /** The elements of s that tie with x, in their order in s. */
  ghost function Ties<T>(s: seq<T>, x: T, le: (T, T) -> bool): seq<T> {
    if s == [] then [] else TieOf(s[0], x, le) + Ties(s[1..], x, le)
  }

  lemma {:induction false} InsertAdds<T>(x: T, s: seq<T>, le: (T, T) -> bool)
    ensures multiset(Insert(x, s, le)) == multiset(s) + multiset{x}
  {
    if s != [] {
      InsertAdds(x, s[1..], le);
      assert s == [s[0]] + s[1..];
    }
  }

  lemma {:induction false} InsertIsSorted<T(!new)>(x: T, s: seq<T>, le: (T, T) -> bool)
    requires TotalPreorder(le) && Sorted(s, le)
    ensures Sorted(Insert(x, s, le), le)
  {
    if s != [] {
      if le(x, s[0]) {
        forall j | 0 <= j < |s| ensures le(x, s[j]) {}
      } else {
        InsertIsSorted(x, s[1..], le);
        InsertAdds(x, s[1..], le);
        var r := Insert(x, s[1..], le);
        assert le(s[0], x);
        forall i | 0 <= i < |r| ensures le(s[0], r[i]) {
          assert r[i] in multiset(r);
          assert r[i] == x || r[i] in s[1..];
        }
      }
    }
  }

  lemma TiesCons<T>(x: T, s: seq<T>, y: T, le: (T, T) -> bool)
    ensures Ties([x] + s, y, le) == TieOf(x, y, le) + Ties(s, y, le)
  {
    assert ([x] + s)[1..] == s;
  }

  lemma SwapWithEmpty<T>(a: seq<T>, b: seq<T>, c: seq<T>)
    requires a == [] || b == []
    ensures a + (b + c) == b + (a + c)
  {}

  lemma {:induction false} InsertKeepsTies<T(!new)>(x: T, s: seq<T>, y: T, le: (T, T) -> bool)
    requires TotalPreorder(le)
    ensures Ties(Insert(x, s, le), y, le) == TieOf(x, y, le) + Ties(s, y, le)
  {
    TiesCons(x, s, y, le);
    if s != [] && !le(x, s[0]) {
      InsertKeepsTies(x, s[1..], y, le);
      TiesCons(s[0], Insert(x, s[1..], le), y, le);
      assert TieOf(x, y, le) == [] || TieOf(s[0], y, le) == [];
      SwapWithEmpty(TieOf(x, y, le), TieOf(s[0], y, le), Ties(s[1..], y, le));
    } else {
      assert [x] + [] == [x];
    }
  }

  /** Sorting orders the elements, keeps each of them, and keeps the order of ties. */
  lemma {:induction false} SortByIsStableSort<T(!new)>(s: seq<T>, le: (T, T) -> bool)
    requires TotalPreorder(le)
    ensures Sorted(SortBy(s, le), le)
    ensures multiset(SortBy(s, le)) == multiset(s)
    ensures forall y :: Ties(SortBy(s, le), y, le) == Ties(s, y, le)
  {
    if s != [] {
      assert s == [s[0]] + s[1..];
      SortByIsStableSort(s[1..], le);
      var r := SortBy(s[1..], le);
      InsertIsSorted(s[0], r, le);
      InsertAdds(s[0], r, le);
      forall y ensures Ties(SortBy(s, le), y, le) == Ties(s, y, le) {
        InsertKeepsTies(s[0], r, y, le);
      }
    }
  }

  lemma TiesMembers<T>(s: seq<T>, x: T, le: (T, T) -> bool)
    ensures forall y :: y in Ties(s, x, le) <==> y in s && le(x, y) && le(y, x)
  {}

  lemma SameTiesNonEmpty<T(!new)>(a: seq<T>, b: seq<T>, le: (T, T) -> bool)
    requires TotalPreorder(le)
    requires forall y :: Ties(a, y, le) == Ties(b, y, le)
    ensures b != [] ==> a != []
  {
    if b != [] {
      assert le(b[0], b[0]);
      assert Ties(b, b[0], le) != [] && Ties(a, b[0], le) != [];
    }
  }

  /** A sorted arrangement is fixed by the order of each group of ties. */
  lemma {:induction false} StableSortIsUnique<T(!new)>(a: seq<T>, b: seq<T>, le: (T, T) -> bool)
    requires TotalPreorder(le) && Sorted(a, le) && Sorted(b, le)
    requires forall y :: Ties(a, y, le) == Ties(b, y, le)
    ensures a == b
  {
    SameTiesNonEmpty(a, b, le);
    SameTiesNonEmpty(b, a, le);
    if a != [] {
      TiesMembers(a, a[0], le); TiesMembers(b, a[0], le);
      TiesMembers(a, b[0], le); TiesMembers(b, b[0], le);
      assert a[0] in a && a[0] in b && b[0] in a && b[0] in b;
      assert le(a[0], b[0]) && le(b[0], a[0]);
      assert Ties(a, a[0], le)[0] == a[0] && Ties(b, a[0], le)[0] == b[0];
      forall y ensures Ties(a[1..], y, le) == Ties(b[1..], y, le) {
        var head := TieOf(a[0], y, le);
        assert Ties(a, y, le) == head + Ties(a[1..], y, le);
        assert Ties(b, y, le) == head + Ties(b[1..], y, le);
        assert Ties(a[1..], y, le) == (head + Ties(a[1..], y, le))[|head|..];
      }
      StableSortIsUnique(a[1..], b[1..], le);
      assert a == [a[0]] + a[1..] && b == [b[0]] + b[1..];
    }
  }

  lemma SameTail<T>(a: seq<T>, b: seq<T>)
    requires a != [] && b != [] && a[0] == b[0] && multiset(a) == multiset(b)
    ensures multiset(a[1..]) == multiset(b[1..])
  {
    assert a == [a[0]] + a[1..] && b == [b[0]] + b[1..];
    assert multiset(a[1..]) == multiset(a) - multiset{a[0]};
    assert multiset(b[1..]) == multiset(b) - multiset{b[0]};
  }

  /** When only equal elements tie, a sorted arrangement is fixed by its elements alone. */
  lemma {:induction false} SortIsUnique<T(!new)>(a: seq<T>, b: seq<T>, le: (T, T) -> bool)
    requires Sorted(a, le) && Sorted(b, le)
    requires multiset(a) == multiset(b)
    requires forall x, y :: x in a && y in a && le(x, y) && le(y, x) ==> x == y
    ensures a == b
  {
    assert |a| == |multiset(a)| == |multiset(b)| == |b|;
    if a != [] {
      assert a[0] in multiset(a) && b[0] in multiset(b);
      assert a[0] in b && b[0] in a;
      assert a[0] == b[0];
      SameTail(a, b);
      SortIsUnique(a[1..], b[1..], le);
      assert a == [a[0]] + a[1..] && b == [b[0]] + b[1..];
    }
  }

  /** The members of a set in some order. */
  ghost function Listed<T(!new)>(s: set<T>): seq<T> {
    if s == {} then [] else var x :| x in s; [x] + Listed(s - {x})
  }

  lemma {:induction false} ListedIsSet<T(!new)>(s: set<T>)
    ensures multiset(Listed(s)) == multiset(s)
    ensures forall x :: x in Listed(s) <==> x in s
  {
    if s != {} {
      var x :| x in s && Listed(s) == [x] + Listed(s - {x});
      ListedIsSet(s - {x});
      assert multiset(s) == multiset(s - {x}) + multiset{x};
      assert forall y :: y in Listed(s) <==> y == x || y in Listed(s - {x});
    }
  }

  lemma {:induction false} ListedOnce<T(!new)>(s: set<T>)
    ensures forall i, j :: 0 <= i < j < |Listed(s)| ==> Listed(s)[i] != Listed(s)[j]
  {
    if s != {} {
      var x :| x in s && Listed(s) == [x] + Listed(s - {x});
      ListedOnce(s - {x});
      ListedIsSet(s - {x});
      var rest := Listed(s - {x});
      forall i, j | 0 <= i < j < |Listed(s)| ensures Listed(s)[i] != Listed(s)[j] {
        assert Listed(s)[j] == rest[j - 1] && rest[j - 1] in rest;
        assert i > 0 ==> Listed(s)[i] == rest[i - 1];
      }
    }
  }

  /** Sorting the members of a set, in whatever order they are listed, keeps exactly its members. */
  lemma SortedMembers<T(!new)>(s: set<T>, list: seq<T>, le: (T, T) -> bool)
    requires TotalPreorder(le) && multiset(list) == multiset(s)
    ensures forall x :: x in SortBy(list, le) <==> x in s
  {
    SortByIsStableSort(list, le);
    forall x ensures x in SortBy(list, le) <==> x in s {
      assert x in SortBy(list, le) <==> x in multiset(SortBy(list, le));
      assert x in s <==> x in multiset(s);
    }
  }

  lemma CountsTwice<T>(s: seq<T>, i: nat, j: nat)
    requires i < j < |s| && s[i] == s[j]
    ensures multiset(s)[s[i]] >= 2
  {
    assert s == s[..j] + [s[j]] + s[j + 1..] && s[i] in s[..j];
    assert multiset(s) == multiset(s[..j]) + multiset([s[j]]) + multiset(s[j + 1..]);
  }

  lemma OnceEach<T>(s: seq<T>, all: set<T>)
    requires multiset(s) == multiset(all)
    ensures forall i, j :: 0 <= i < j < |s| ==> s[i] != s[j]
  {
    forall i, j | 0 <= i < j < |s| ensures s[i] != s[j] {
      if s[i] == s[j] {
        CountsTwice(s, i, j);
        assert false;
      }
    }
  }
}
