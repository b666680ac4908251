/** internal/brew/leaves.go: the formulae the user asked for, from the install receipts. */
module Leaves {
  import opened Order
  import opened Text
  import opened BrewSync

  /** The fields of an install receipt that matter; deps are full names. */
  datatype Receipt = Receipt(name: string, onRequest: bool, tap: string, deps: seq<string>)

  /** A formula of a third-party tap keeps its tap, so that it can be installed again. */
  function FullName(r: Receipt): string {
    if r.tap != "" && r.tap != "homebrew/core" then r.tap + "/" + r.name else r.name
  }

  function DependedOn(receipts: seq<Receipt>): set<string> {
    set r, d | r in receipts && d in r.deps :: ShortFormula(d)
  }

  /** Installed on request, and no installed formula needs it. */
  predicate IsRequestedLeaf(r: Receipt, receipts: seq<Receipt>) {
    r.onRequest && ShortFormula(r.name) !in DependedOn(receipts)
  }

  predicate Ascending(s: seq<string>) {
    forall i, j :: 0 <= i < j < |s| ==> StrLeq(s[i], s[j]) && s[i] != s[j]
  }

  /** slices.Compact on a sorted list. */
  method Compact(s: seq<string>) returns (r: seq<string>)
    requires Sorted(s, StrLeq)
    ensures Ascending(r) && forall x :: x in r <==> x in s
  {
    r := [];
    for i := 0 to |s|
      invariant Ascending(r)
      invariant forall x :: x in r <==> x in s[..i]
      invariant r != [] <==> i > 0
      invariant i > 0 ==> r[|r| - 1] == s[i - 1]
    {
      if i == 0 || s[i - 1] != s[i] {
        forall j | 0 <= j < |r| ensures StrLeq(r[j], s[i]) && r[j] != s[i] {
          if r[j] == s[i] {
            // r[j] is at most the last element, which is at most s[i]: all three are equal.
            assert j == |r| - 1 || StrLeq(r[j], r[|r| - 1]);
            StrLeqAntisymmetric(s[i - 1], s[i]);
          } else {
            assert r[j] in s[..i];
          }
        }
        r := r + [s[i]];
      }
    }
    assert s[..|s|] == s;
  }

  method ComputeRequestedLeaves(receipts: seq<Receipt>) returns (leaves: seq<string>)
    ensures Ascending(leaves)
    ensures forall n :: n in leaves <==> exists r :: r in receipts && IsRequestedLeaf(r, receipts) && FullName(r) == n
  {
    var dependedOn := DependedOn(receipts);
    var found: seq<string> := [];
    for i := 0 to |receipts|
      invariant forall n :: n in found <==>
                  exists j :: 0 <= j < i && IsRequestedLeaf(receipts[j], receipts) && FullName(receipts[j]) == n
    {
      if receipts[i].onRequest && ShortFormula(receipts[i].name) !in dependedOn {
        found := found + [FullName(receipts[i])];
      }
    }
    StrLeqIsTotalPreorder();
    SortByIsStableSort(found, StrLeq);
    var sorted := SortBy(found, StrLeq);
    forall n ensures n in sorted <==> n in found {
      assert n in sorted <==> n in multiset(sorted);
      assert n in found <==> n in multiset(found);
    }
    leaves := Compact(sorted);
  }

  lemma ShortOfFull(r: Receipt)
    requires '/' !in r.name
    ensures ShortFormula(FullName(r)) == r.name
  {
    var f := FullName(r);
    if f != r.name {
      assert forall j :: |r.tap| < j < |f| ==> f[j] == r.name[j - |r.tap| - 1];
      assert f[|r.tap|] == '/';
    }
  }

  /** Leaves from receipts are installed by bare name when brew lists every formula that has a receipt: on such a
      system a second Sync changes nothing. */
  lemma LeavesFromReceiptsConverge(receipts: seq<Receipt>, sys: System, content: string)
    requires WellNamed(sys)
    requires forall n :: n in sys.leaves ==>
               exists r :: r in receipts && IsRequestedLeaf(r, receipts) && FullName(r) == n
    requires forall r :: r in receipts ==> '/' !in r.name && r.name in sys.formulae
    ensures SyncText(sys, SyncText(sys, content)) == SyncText(sys, content)
  {
    forall n | n in sys.leaves ensures SetKey("brew", n) in KeysFor("brew", sys.formulae) {
      var r :| r in receipts && FullName(r) == n;
      ShortOfFull(r);
      ShortOfBare(r.name);
      assert SetKey("brew", r.name) == SetKey("brew", n);
    }
    SecondSyncChangesNothingIff(sys, content);
  }

  lemma ShortOfBare(name: string)
    requires '/' !in name
    ensures ShortFormula(name) == name
  {}

  /** The leaves without the receipts' helper functions: installed on request, needed by no installed formula under
      whatever tap it names it, and called by the tap unless that is Homebrew's own. */
  lemma LeafIff(receipts: seq<Receipt>, r: Receipt)
    ensures IsRequestedLeaf(r, receipts) <==>
            r.onRequest && !exists s, d :: s in receipts && d in s.deps && SameFormula(d, r.name)
    ensures FullName(r) == if r.tap in ["", "homebrew/core"] then r.name else r.tap + "/" + r.name
  {
    forall d ensures SameFormula(d, r.name) <==> ShortFormula(d) == ShortFormula(r.name) {
      SameFormulaIff(d, r.name);
    }
  }
}
