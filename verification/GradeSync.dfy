/** internal/cass/diff.go, internal/cass/push.go: local grades, the baseline table and Canvas. */
module GradeSync {
  import opened Order
  import opened Text

  /** The primary key of both grade tables. */
  datatype Row = Row(student: int, slug: string)

  /** One grade on Canvas. */
  datatype Cell = Cell(assignment: int, user: int)

  /** The other columns of a row: where the grade belongs on Canvas, and the grade itself. */
  datatype Grade = Grade(cell: Cell, posted: string)

  type Table = map<Row, Grade>

  datatype Change = Change(row: Row, cell: Cell, baseline: string, current: string)

  // ---- DiffLocal ----

  /** The WHERE clause: a non-empty grade that the baseline lacks or has differently. */
  predicate IsPending(grades: Table, synced: Table, r: Row) {
    r in grades && grades[r].posted != "" && (r !in synced || grades[r].posted != synced[r].posted)
  }

  function ChangeOf(grades: Table, synced: Table, r: Row): Change
    requires r in grades
  {
    Change(r, grades[r].cell, if r in synced then synced[r].posted else "", grades[r].posted)
  }

  /** ORDER BY assignment_slug, student_id. */
  predicate RowLeq(a: Row, b: Row) {
    if a.slug == b.slug then a.student <= b.student else StrLeq(a.slug, b.slug)
  }

  lemma RowLeqIsTotalPreorder()
    ensures TotalPreorder(RowLeq)
  {
    forall x, y ensures RowLeq(x, y) || RowLeq(y, x) { StrLeqTotal(x.slug, y.slug); }
    forall x, y, z | RowLeq(x, y) && RowLeq(y, z) ensures RowLeq(x, z) {
      if x.slug != y.slug && y.slug != z.slug {
        StrLeqTransitive(x.slug, y.slug, z.slug);
        if x.slug == z.slug { StrLeqAntisymmetric(x.slug, y.slug); }
      }
    }
  }

  lemma RowLeqAntisymmetric(x: Row, y: Row)
    requires RowLeq(x, y) && RowLeq(y, x)
    ensures x == y
  {
    if x.slug != y.slug { StrLeqAntisymmetric(x.slug, y.slug); }
  }

  ghost function PendingRows(grades: Table, synced: Table): set<Row> {
    set r | r in grades && IsPending(grades, synced, r)
  }

  ghost function SortedRows(rows: set<Row>): (s: seq<Row>) { SortBy(Listed(rows), RowLeq) }

  /** Any way to list the rows sorts to the same sequence. */
  lemma SortedRowsAreDetermined(rows: set<Row>, list: seq<Row>)
    requires multiset(list) == multiset(rows)
    ensures SortBy(list, RowLeq) == SortedRows(rows)
    ensures forall r :: r in SortedRows(rows) <==> r in rows
    ensures multiset(SortedRows(rows)) == multiset(rows)
  {
    RowLeqIsTotalPreorder();
    ListedIsSet(rows);
    SortByIsStableSort(list, RowLeq);
    SortByIsStableSort(Listed(rows), RowLeq);
    forall x, y | RowLeq(x, y) && RowLeq(y, x) ensures x == y { RowLeqAntisymmetric(x, y); }
    SortIsUnique(SortBy(list, RowLeq), SortedRows(rows), RowLeq);
    forall r ensures r in SortedRows(rows) <==> r in rows {
      assert r in SortedRows(rows) <==> r in multiset(SortedRows(rows));
      assert r in rows <==> r in multiset(rows);
    }
  }

  function ChangesOf(grades: Table, synced: Table, rows: seq<Row>): (s: seq<Change>)
    requires forall r :: r in rows ==> r in grades
    ensures |s| == |rows| && forall i :: 0 <= i < |rows| ==> s[i] == ChangeOf(grades, synced, rows[i])
  {
    seq(|rows|, i requires 0 <= i < |rows| => ChangeOf(grades, synced, rows[i]))
  }

  /** The pending changes: one for each pending row, in row order. */
  ghost function Diff(grades: Table, synced: Table): seq<Change> {
    var rows := PendingRows(grades, synced);
    ListedIsSet(rows);
    SortedRowsAreDetermined(rows, Listed(rows));
    ChangesOf(grades, synced, SortedRows(rows))
  }

  // ---- PushGrades ----

  /** What the changes write, a later change to the same cell winning. */
  function Target(changes: seq<Change>): map<Cell, string> {
    if changes == [] then map[]
    else var c := changes[|changes| - 1]; Target(changes[..|changes| - 1])[c.cell := c.current]
  }

  function At(cells: map<Cell, string>, c: Cell): Option<string> {
    if c in cells then Some(cells[c]) else None
  }

  /** Cells outside the target are as before; each cell of the target has been written or not. */
  ghost predicate PartlyWritten(before: map<Cell, string>, after: map<Cell, string>, target: map<Cell, string>) {
    forall c :: At(after, c) == At(before, c) || (c in target && At(after, c) == Some(target[c]))
  }

  /** The form of one bulk update. */
  function FormCells(assignment: int, grades: map<int, string>): map<Cell, string> {
    map u | u in grades :: Cell(assignment, u) := grades[u]
  }

  class Canvas {
    var cells: map<Cell, string>

    /** One assignment's bulk update and the wait for it: when it fails, any part of it may have been applied. */
    method UpdateGrades(assignment: int, grades: map<int, string>) returns (ok: bool)
      modifies this
      ensures ok ==> cells == old(cells) + FormCells(assignment, grades)
      ensures PartlyWritten(old(cells), cells, FormCells(assignment, grades))
    {
      var form := FormCells(assignment, grades);
      ok := *;
      if ok {
        cells := cells + form;
      } else {
        assert {} <= form.Keys;
        var applied: set<Cell> :| applied <= form.Keys;
        cells := cells + map c | c in applied :: form[c];
      }
    }
  }

  /** The grouped changes: assignment, then user, to grade. */
  type Groups = map<int, map<int, string>>

  ghost predicate IsGrouping(groups: Groups, target: map<Cell, string>) {
    forall c: Cell :: At(target, c) ==
      if c.assignment in groups && c.user in groups[c.assignment] then Some(groups[c.assignment][c.user]) else None
  }

  method GroupByAssignment(changes: seq<Change>) returns (groups: Groups)
    ensures IsGrouping(groups, Target(changes))
  {
    groups := map[];
    for i := 0 to |changes|
      invariant IsGrouping(groups, Target(changes[..i]))
    {
      var c := changes[i];
      assert changes[..i + 1][..i] == changes[..i];
      if c.cell.assignment !in groups {
        groups := groups[c.cell.assignment := map[]];
      }
      groups := groups[c.cell.assignment := groups[c.cell.assignment][c.cell.user := c.current]];
    }
    assert changes[..|changes|] == changes;
  }

  // ---- Posting the groups ----

  /** The part of the target that belongs to some assignments. */
  function Part(target: map<Cell, string>, assignments: set<int>): map<Cell, string> {
    map c | c in target && c.assignment in assignments :: target[c]
  }

  lemma FormIsPart(groups: Groups, target: map<Cell, string>, a: int)
    requires IsGrouping(groups, target) && a in groups
    ensures FormCells(a, groups[a]) == Part(target, {a})
  {
    var form, part := FormCells(a, groups[a]), Part(target, {a});
    forall c: Cell ensures At(form, c) == At(part, c) {
      assert At(target, c) == At(target, Cell(c.assignment, c.user));
    }
    assert forall c: Cell :: c in form <==> At(form, c).Some?;
    assert forall c: Cell :: c in part <==> At(part, c).Some?;
  }

  lemma Member<T>(s: set<T>) returns (x: T)
    requires s != {}
    ensures x in s
  {
    x :| x in s;
  }

  lemma {:induction false} FormSize(a: int, grades: map<int, string>)
    ensures |FormCells(a, grades)| == |grades|
    decreases |grades|
  {
    if grades == map[] {
      assert FormCells(a, grades) == map[];
    } else {
      var users := grades.Keys;
      assert users != {};
      var u := Member(users);
      var rest := grades - {u};
      FormSize(a, rest);
      assert grades == rest[u := grades[u]];
      assert FormCells(a, grades) == FormCells(a, rest)[Cell(a, u) := grades[u]];
    }
  }

  lemma PartGrows(before: map<Cell, string>, target: map<Cell, string>, done: set<int>, a: int)
    requires a !in done
    ensures before + Part(target, done) + Part(target, {a}) == before + Part(target, done + {a})
  {
    assert Part(target, done + {a}) == Part(target, done) + Part(target, {a});
    assert forall x: map<Cell, string>, y: map<Cell, string> :: before + x + y == before + (x + y);
  }

  lemma PartSize(target: map<Cell, string>, done: set<int>, a: int)
    requires a !in done
    ensures |Part(target, done + {a})| == |Part(target, done)| + |Part(target, {a})|
  {
    var x, y := Part(target, done), Part(target, {a});
    var both := Part(target, done + {a});
    assert both.Keys == x.Keys + y.Keys && x.Keys !! y.Keys;
    assert |both| == |both.Keys| && |x| == |x.Keys| && |y| == |y.Keys|;
  }

  /** Where a push stopped: the assignments in done are written, pushed is the number of their cells, and of the
      assignment that failed any part may be. */
  ghost predicate FailedAt(before: map<Cell, string>, after: map<Cell, string>, target: map<Cell, string>,
                           done: set<int>, failed: int, pushed: nat)
  {
    && failed !in done && pushed == |Part(target, done)|
    && PartlyWritten(before + Part(target, done), after, Part(target, {failed}))
  }

  ghost predicate Stopped(before: map<Cell, string>, after: map<Cell, string>, target: map<Cell, string>, pushed: nat) {
    exists done, failed :: FailedAt(before, after, target, done, failed, pushed)
  }

  /** A push that stopped has written some of the target's cells and no others. */
  lemma StoppedIsPartlyWritten(before: map<Cell, string>, after: map<Cell, string>, target: map<Cell, string>,
                               pushed: nat)
    requires Stopped(before, after, target, pushed)
    ensures PartlyWritten(before, after, target)
  {
    var done, failed :| FailedAt(before, after, target, done, failed, pushed);
    var mid, part := before + Part(target, done), Part(target, {failed});
    forall c: Cell ensures At(after, c) == At(before, c) || (c in target && At(after, c) == Some(target[c])) {
      assert At(after, c) == At(mid, c) || (c in part && At(after, c) == Some(part[c]));
    }
  }

  /** The loop body: one assignment, when those in done have been written. */
  method PostGroup(canvas: Canvas, groups: Groups, a: int,
                   ghost before: map<Cell, string>, ghost target: map<Cell, string>, ghost done: set<int>)
    returns (ok: bool)
    requires IsGrouping(groups, target) && a in groups && a !in done
    requires canvas.cells == before + Part(target, done)
    modifies canvas
    ensures ok ==> canvas.cells == before + Part(target, done + {a})
    ensures !ok ==> PartlyWritten(before + Part(target, done), canvas.cells, Part(target, {a}))
    ensures |Part(target, done + {a})| == |Part(target, done)| + |groups[a]|
  {
    FormIsPart(groups, target, a);
    FormSize(a, groups[a]);
    PartGrows(before, target, done, a);
    PartSize(target, done, a);
    ok := canvas.UpdateGrades(a, groups[a]);
  }

  lemma EveryCellIsGrouped(groups: Groups, target: map<Cell, string>)
    requires IsGrouping(groups, target)
    ensures Part(target, groups.Keys) == target
  {
    forall c | c in target ensures c.assignment in groups {
      assert At(target, c) == Some(target[c]);
    }
  }

  lemma NothingPosted(before: map<Cell, string>, target: map<Cell, string>)
    ensures before + Part(target, {}) == before && |Part(target, {})| == 0
  {
    assert Part(target, {}) == map[];
  }

  method AnyAssignment(todo: set<int>) returns (a: int)
    requires todo != {}
    ensures a in todo
  {
    ghost var some := Member(todo);
    a :| a in todo;
  }

  predicate Partition(todo: set<int>, done: set<int>, all: set<int>) { todo + done == all && todo !! done }

  lemma MoveOne(todo: set<int>, done: set<int>, all: set<int>, a: int)
    requires Partition(todo, done, all) && a in todo
    ensures a in all && a !in done && Partition(todo - {a}, done + {a}, all)
  {}

  lemma Started(all: set<int>)
    ensures Partition(all, {}, all)
  {}

  lemma Finished(done: set<int>, all: set<int>)
    requires Partition({}, done, all)
    ensures done == all
  {}

  /** The loop over the groups, in any order, up to the first failure. */
  method PostGroups(canvas: Canvas, groups: Groups, ghost target: map<Cell, string>) returns (pushed: nat, ok: bool)
    requires IsGrouping(groups, target)
    modifies canvas
    ensures ok ==> canvas.cells == old(canvas.cells) + Part(target, groups.Keys)
    ensures ok ==> pushed == |Part(target, groups.Keys)|
    ensures !ok ==> Stopped(old(canvas.cells), canvas.cells, target, pushed)
  {
    hide PartlyWritten, IsGrouping, Part, Partition;
    ghost var before := canvas.cells;
    var todo := groups.Keys;
    ghost var done: set<int> := {};
    NothingPosted(before, target);
    Started(groups.Keys);
    pushed := 0;
    while todo != {}
      invariant Partition(todo, done, groups.Keys)
      invariant canvas.cells == before + Part(target, done) && pushed == |Part(target, done)|
      decreases |todo|
    {
      var a := AnyAssignment(todo);
      MoveOne(todo, done, groups.Keys, a);
      ok := PostGroup(canvas, groups, a, before, target, done);
      if !ok {
        assert FailedAt(before, canvas.cells, target, done, a, pushed);
        return;
      }
      pushed := pushed + |groups[a]|;
      todo := todo - {a};
      done := done + {a};
    }
    Finished(done, groups.Keys);
    ok := true;
  }

  /** Posts the changes assignment by assignment and stops at the first failure. */
  method PushGrades(canvas: Canvas, changes: seq<Change>) returns (pushed: nat, ok: bool)
    modifies canvas
    ensures ok ==> canvas.cells == old(canvas.cells) + Target(changes) && pushed == |Target(changes)|
    ensures !ok ==> Stopped(old(canvas.cells), canvas.cells, Target(changes), pushed)
  {
    var byAssignment := GroupByAssignment(changes);
    EveryCellIsGrouped(byAssignment, Target(changes));
    pushed, ok := PostGroups(canvas, byAssignment, Target(changes));
  }

  // ---- The local database ----

  /** SELECT ... FROM grades WHERE posted_grade != '' */
  function Baseline(grades: Table): Table {
    map r | r in grades && grades[r].posted != "" :: grades[r]
  }

  /** Rows without a baseline are deleted, the others get their baseline grade. */
  function Restored(grades: Table, synced: Table): Table {
    map r | r in grades && r in synced :: grades[r].(posted := synced[r].posted)
  }

  class Database {
    var grades: Table
    var synced: Table

    method DiffLocal() returns (changes: seq<Change>)
      ensures changes == Diff(grades, synced)
    {
      var rows := grades.Keys;
      var found: seq<Row> := [];
      ghost var seen: set<Row> := {};
      while rows != {}
        invariant rows <= grades.Keys && seen == grades.Keys - rows
        invariant multiset(found) == multiset(set r | r in seen && IsPending(grades, synced, r))
        invariant forall r :: r in found ==> r in grades
        decreases |rows|
      {
        var r :| r in rows;
        ghost var pending := set x | x in seen && IsPending(grades, synced, x);
        rows := rows - {r};
        seen := seen + {r};
        ghost var pending' := set x | x in seen && IsPending(grades, synced, x);
        if IsPending(grades, synced, r) {
          found := found + [r];
          assert pending' == pending + {r};
        } else {
          assert pending' == pending;
        }
      }
      assert PendingRows(grades, synced) == set r | r in seen && IsPending(grades, synced, r);
      SortedRowsAreDetermined(PendingRows(grades, synced), found);
      changes := ChangesOf(grades, synced, SortBy(found, RowLeq));
    }

    method SyncGrades()
      modifies this
      ensures grades == old(grades) && synced == Baseline(old(grades))
    {
      synced := Baseline(grades);
    }

    /** n counts the rows whose grade is replaced, not the rows deleted. */
    method Revert() returns (n: nat)
      modifies this
      ensures synced == old(synced) && grades == Restored(old(grades), old(synced))
      ensures n == |set r | r in old(grades) && r in synced && synced[r].posted != old(grades)[r].posted|
    {
      grades := map r | r in grades && r in synced :: grades[r];
      var changed := set r | r in grades && synced[r].posted != grades[r].posted;
      grades := map r | r in grades :: if r in changed then grades[r].(posted := synced[r].posted) else grades[r];
      n := |changed|;
      assert changed == set r | r in old(grades) && r in synced && synced[r].posted != old(grades)[r].posted;
    }
  }

  // ---- The push command ----

  /** The three replicas. */
  datatype State = State(grades: Table, synced: Table, canvas: map<Cell, string>)

  ghost function Changes(s: State): seq<Change> { Diff(s.grades, s.synced) }

  /** A completed push; without changes it does nothing, not even refresh the baseline. */
  ghost function Pushed(s: State): State {
    if Changes(s) == [] then s
    else State(s.grades, Baseline(s.grades), s.canvas + Target(Changes(s)))
  }

  function Reverted(s: State): State { s.(grades := Restored(s.grades, s.synced)) }

  method Push(db: Database, canvas: Canvas) returns (ok: bool)
    modifies db, canvas
    ensures db.grades == old(db.grades)
    ensures ok ==>
      State(db.grades, db.synced, canvas.cells) == Pushed(State(old(db.grades), old(db.synced), old(canvas.cells)))
    ensures !ok ==> db.synced == old(db.synced)
    ensures !ok ==> PartlyWritten(old(canvas.cells), canvas.cells, Target(Diff(old(db.grades), old(db.synced))))
  {
    var changes := db.DiffLocal();
    if |changes| == 0 {
      return true;
    }
    var pushed;
    ghost var before := canvas.cells;
    pushed, ok := PushGrades(canvas, changes);
    if !ok {
      StoppedIsPartlyWritten(before, canvas.cells, Target(changes), pushed);
      return;
    }
    db.SyncGrades();
  }

  // ---- Theorems ----

  /** Rows have their own places on Canvas. */
  ghost predicate Injective(loc: Row -> Cell) {
    forall a, b :: loc(a) == loc(b) ==> a == b
  }

  ghost predicate Located(t: Table, loc: Row -> Cell) {
    forall r :: r in t ==> t[r].cell == loc(r)
  }

  ghost predicate WellPlaced(s: State, loc: Row -> Cell) {
    Injective(loc) && Located(s.grades, loc) && Located(s.synced, loc)
  }

  /** The baseline says of every row it holds what Canvas says. */
  ghost predicate Agrees(s: State) {
    forall r :: r in s.synced ==> At(s.canvas, s.synced[r].cell) == Some(s.synced[r].posted)
  }

  lemma ChangesOfFront(grades: Table, synced: Table, rows: seq<Row>, loc: Row -> Cell)
    requires Located(grades, loc) && rows != [] && forall r :: r in rows ==> r in grades
    ensures var before, last := rows[..|rows| - 1], rows[|rows| - 1];
            Target(ChangesOf(grades, synced, rows)) ==
            Target(ChangesOf(grades, synced, before))[loc(last) := grades[last].posted]
  {
    var changes := ChangesOf(grades, synced, rows);
    assert changes[..|changes| - 1] == ChangesOf(grades, synced, rows[..|rows| - 1]);
  }

  /** The cells hold the grades of the rows and nothing else. */
  ghost predicate HoldsRows(cells: map<Cell, string>, grades: Table, rows: seq<Row>, loc: Row -> Cell) {
    && (forall r :: r in rows && r in grades ==> At(cells, loc(r)) == Some(grades[r].posted))
    && (forall c :: c in cells ==> exists r :: r in rows && loc(r) == c)
  }

  lemma HoldsOneMore(cells: map<Cell, string>, grades: Table, rows: seq<Row>, last: Row, loc: Row -> Cell)
    requires Injective(loc) && HoldsRows(cells, grades, rows, loc) && last in grades
    ensures HoldsRows(cells[loc(last) := grades[last].posted], grades, rows + [last], loc)
  {
    var more := rows + [last];
    assert forall r :: r in more <==> r in rows || r == last;
    forall c | c in cells ensures exists r :: r in more && loc(r) == c {
      var r :| r in rows && loc(r) == c;
      assert r in more;
    }
    assert last in more;
  }

  lemma TargetOfNothing(grades: Table, synced: Table, loc: Row -> Cell)
    ensures HoldsRows(Target(ChangesOf(grades, synced, [])), grades, [], loc)
  {}

  lemma {:induction false} TargetOfRows(grades: Table, synced: Table, rows: seq<Row>, loc: Row -> Cell)
    requires Injective(loc) && Located(grades, loc) && forall r :: r in rows ==> r in grades
    ensures HoldsRows(Target(ChangesOf(grades, synced, rows)), grades, rows, loc)
  {
    hide Target, ChangesOf, HoldsRows, Injective, Located;
    if rows == [] {
      TargetOfNothing(grades, synced, loc);
    } else {
      var before, last := rows[..|rows| - 1], rows[|rows| - 1];
      TargetOfRows(grades, synced, before, loc);
      ChangesOfFront(grades, synced, rows, loc);
      HoldsOneMore(Target(ChangesOf(grades, synced, before)), grades, before, last, loc);
      assert before + [last] == rows;
    }
  }

  /** A push writes exactly the pending rows, each to its own place. */
  lemma TargetOfDiff(s: State, loc: Row -> Cell)
    requires WellPlaced(s, loc)
    ensures forall r :: IsPending(s.grades, s.synced, r) ==> At(Target(Changes(s)), loc(r)) == Some(s.grades[r].posted)
    ensures forall r :: !IsPending(s.grades, s.synced, r) ==> loc(r) !in Target(Changes(s))
  {
    var rows := PendingRows(s.grades, s.synced);
    ListedIsSet(rows);
    SortedRowsAreDetermined(rows, Listed(rows));
    TargetOfRows(s.grades, s.synced, SortedRows(rows), loc);
  }

  lemma NoChangesIffNothingPending(grades: Table, synced: Table)
    ensures Diff(grades, synced) == [] <==> forall r :: !IsPending(grades, synced, r)
  {
    var rows := PendingRows(grades, synced);
    ListedIsSet(rows);
    SortedRowsAreDetermined(rows, Listed(rows));
    var sorted := SortedRows(rows);
    if sorted != [] { assert sorted[0] in rows; }
    if r :| IsPending(grades, synced, r) { assert r in rows && r in sorted; }
  }

  /** A completed push leaves nothing pending, and so does a revert. */
  lemma NothingPendingAfter(s: State)
    ensures Changes(Pushed(s)) == []
    ensures Changes(Reverted(s)) == []
  {
    NoChangesIffNothingPending(Pushed(s).grades, Pushed(s).synced);
    NoChangesIffNothingPending(Reverted(s).grades, Reverted(s).synced);
  }

  /** When the baseline agrees with Canvas, a completed push keeps it so and puts every non-empty local grade there. */
  lemma PushKeepsAgreement(s: State, loc: Row -> Cell)
    requires WellPlaced(s, loc) && Agrees(s)
    ensures WellPlaced(Pushed(s), loc) && Agrees(Pushed(s))
    ensures forall r :: r in s.grades && s.grades[r].posted != "" ==>
              At(Pushed(s).canvas, loc(r)) == Some(s.grades[r].posted)
  {
    TargetOfDiff(s, loc);
    NoChangesIffNothingPending(s.grades, s.synced);
    var after := Pushed(s);
    forall r | r in s.grades && s.grades[r].posted != "" ensures At(after.canvas, loc(r)) == Some(s.grades[r].posted) {
      if !IsPending(s.grades, s.synced, r) {
        assert At(s.canvas, s.synced[r].cell) == Some(s.synced[r].posted);
      }
    }
  }

  /** From any state, a push with changes restores agreement exactly when no unchanged row disagrees already. */
  lemma PushRestoresAgreementIff(s: State, loc: Row -> Cell)
    requires WellPlaced(s, loc) && Changes(s) != []
    ensures Agrees(Pushed(s)) <==>
      forall r :: r in s.grades && s.grades[r].posted != "" && !IsPending(s.grades, s.synced, r) ==>
        At(s.canvas, loc(r)) == Some(s.grades[r].posted)
  {
    TargetOfDiff(s, loc);
    var after := Pushed(s);
    forall r | r in s.grades && s.grades[r].posted != ""
      ensures At(after.canvas, loc(r)) ==
              if IsPending(s.grades, s.synced, r) then Some(s.grades[r].posted) else At(s.canvas, loc(r))
    {}
    assert after.synced == Baseline(s.grades);
    assert forall r :: r in after.synced <==> r in s.grades && s.grades[r].posted != "";
    assert forall r :: r in after.synced ==> after.synced[r] == s.grades[r] && s.grades[r].cell == loc(r);
  }

  // ---- Runs ----

  datatype Action = Edit(row: Row, posted: string) | Delete(row: Row) | CompletedPush | Revert

  ghost function Act(s: State, a: Action, loc: Row -> Cell): State {
    match a
    case Edit(r, g) => s.(grades := s.grades[r := Grade(loc(r), g)])
    case Delete(r) => s.(grades := s.grades - {r})
    case CompletedPush => Pushed(s)
    case Revert => Reverted(s)
  }

  ghost function Run(s: State, acts: seq<Action>, loc: Row -> Cell): State
    decreases |acts|
  {
    if acts == [] then s else Run(Act(s, acts[0], loc), acts[1..], loc)
  }

  /** In every run of edits, deletions, completed pushes and reverts the baseline agrees with Canvas. */
  lemma {:induction false} EveryRunKeepsAgreement(s: State, acts: seq<Action>, loc: Row -> Cell)
    requires WellPlaced(s, loc) && Agrees(s)
    ensures WellPlaced(Run(s, acts, loc), loc) && Agrees(Run(s, acts, loc))
    decreases |acts|
  {
    if acts != [] {
      if acts[0].CompletedPush? {
        PushKeepsAgreement(s, loc);
      }
      EveryRunKeepsAgreement(Act(s, acts[0], loc), acts[1..], loc);
    }
  }

  // ---- Failures ----

  /** Pushes that fail one after the other, with the local grades left alone: cells is what Canvas holds after each. */
  ghost predicate FailedPushes(s: State, cells: seq<map<Cell, string>>)
    decreases |cells|
  {
    cells == [] ||
    (PartlyWritten(s.canvas, cells[0], Target(Changes(s))) && FailedPushes(s.(canvas := cells[0]), cells[1..]))
  }

  /** However many pushes fail, and whatever each of them applied, the push that completes leaves the state
      one completed push would have left. */
  lemma {:induction false} RetriesConverge(s: State, cells: seq<map<Cell, string>>)
    requires FailedPushes(s, cells)
    ensures var reached := if cells == [] then s else s.(canvas := cells[|cells| - 1]);
            Pushed(reached) == Pushed(s)
    decreases |cells|
  {
    if cells != [] {
      var next := s.(canvas := cells[0]);
      RetriesConverge(next, cells[1..]);
      var target := Target(Changes(s));
      PartialThenFull(s.canvas, cells[0], target);
      if Changes(s) == [] {
        assert s.canvas + target == s.canvas && cells[0] + target == cells[0];
      }
    }
  }

  lemma PartialThenFull(before: map<Cell, string>, after: map<Cell, string>, target: map<Cell, string>)
    requires PartlyWritten(before, after, target)
    ensures after + target == before + target
  {
    var x, y := after + target, before + target;
    forall c: Cell ensures At(x, c) == At(y, c) {
      assert At(after, c) == At(before, c) || (c in target && At(after, c) == Some(target[c]));
    }
    assert forall c: Cell :: c in x <==> At(x, c).Some?;
    assert forall c: Cell :: c in y <==> At(y, c).Some?;
  }

  /** Editing a grade back after a push that failed half-way: nothing is pending any more, no later push does
      anything, and Canvas keeps the abandoned grade. */
  lemma EditingBackHidesDisagreement(r: Row, c: Cell)
    ensures var start := State(map[r := Grade(c, "A")], map[r := Grade(c, "A")], map[c := "A"]);
            var edited := start.(grades := map[r := Grade(c, "B")]);
            var failed := edited.(canvas := map[c := "B"]);
            var back := failed.(grades := start.grades);
            && Agrees(start)
            && FailedPushes(edited, [failed.canvas])
            && Changes(back) == [] && Pushed(back) == back && !Agrees(back)
  {
    var start := State(map[r := Grade(c, "A")], map[r := Grade(c, "A")], map[c := "A"]);
    var edited := start.(grades := map[r := Grade(c, "B")]);
    var failed := edited.(canvas := map[c := "B"]);
    var back := failed.(grades := start.grades);
    SingleChange(edited, r);
    var target := Target(Changes(edited));
    assert target == map[c := "B"];
    forall x: Cell
      ensures At(failed.canvas, x) == At(edited.canvas, x) || (x in target && At(failed.canvas, x) == Some(target[x]))
    {}
    assert FailedPushes(failed, [failed.canvas][1..]);
    NoChangesIffNothingPending(back.grades, back.synced);
    assert back.synced[r].posted == "A" && At(back.canvas, c) == Some("B");
  }

  lemma SingleChange(s: State, r: Row)
    requires s.grades.Keys == {r} && IsPending(s.grades, s.synced, r)
    ensures Target(Changes(s)) == map[s.grades[r].cell := s.grades[r].posted]
  {
    var rows := PendingRows(s.grades, s.synced);
    assert rows == {r};
    assert multiset([r]) == multiset(rows);
    SortedRowsAreDetermined(rows, [r]);
    assert SortBy([r], RowLeq) == [r] by { assert [r][1..] == []; }
    var changes := Changes(s);
    assert changes == [ChangeOf(s.grades, s.synced, r)];
    assert changes[..0] == [];
  }

  // ---- Grades that were emptied ----

  /** The grade Canvas shows; a cell it does not hold is as good as empty. */
  function Shown(canvas: map<Cell, string>, c: Cell): string { if c in canvas then canvas[c] else "" }

  /** After a completed push Canvas shows the local grade of every row, exactly when it showed none for the rows whose
      grade is empty: an emptied grade is never pushed. */
  lemma CanvasMatchesLocalIff(s: State, loc: Row -> Cell)
    requires WellPlaced(s, loc) && Agrees(s)
    ensures (forall r :: r in s.grades ==> Shown(Pushed(s).canvas, loc(r)) == s.grades[r].posted) <==>
            (forall r :: r in s.grades && s.grades[r].posted == "" ==> Shown(s.canvas, loc(r)) == "")
  {
    PushKeepsAgreement(s, loc);
    TargetOfDiff(s, loc);
    forall r | r in s.grades
      ensures Shown(Pushed(s).canvas, loc(r)) ==
              if s.grades[r].posted == "" then Shown(s.canvas, loc(r)) else s.grades[r].posted
    {
      assert s.grades[r].posted == "" ==> loc(r) !in Target(Changes(s));
    }
  }

  /** A grade that is emptied locally stays on Canvas, and nothing is pending. */
  lemma EmptiedGradeStays(r: Row, c: Cell)
    ensures var s := State(map[r := Grade(c, "")], map[r := Grade(c, "A")], map[c := "A"]);
            Agrees(s) && Changes(s) == [] && Pushed(s).canvas == map[c := "A"]
  {
    var s := State(map[r := Grade(c, "")], map[r := Grade(c, "A")], map[c := "A"]);
    NoChangesIffNothingPending(s.grades, s.synced);
  }

  // ---- What a revert brings back ----

  /** A revert gives every remaining row its baseline grade and drops the rows without one; rows of the baseline
      that were deleted locally stay deleted. */
  lemma RevertRestoresExactly(s: State)
    ensures Reverted(s).grades.Keys == s.grades.Keys * s.synced.Keys
    ensures (forall r :: r in s.synced ==>
               r in Reverted(s).grades && Reverted(s).grades[r].posted == s.synced[r].posted)
        <==> s.synced.Keys <= s.grades.Keys
    ensures Reverted(Reverted(s)) == Reverted(s)
  {}

  /** A row that is deleted before the revert is not copied back, although the baseline holds it. */
  lemma DeletedRowStaysDeleted(r: Row, c: Cell, loc: Row -> Cell)
    ensures var start := State(map[r := Grade(c, "A")], map[r := Grade(c, "A")], map[c := "A"]);
            var end := Run(start, [Delete(r), Revert], loc);
            Agrees(start) && r in end.synced && r !in end.grades
  {
    var start := State(map[r := Grade(c, "A")], map[r := Grade(c, "A")], map[c := "A"]);
    var acts := [Delete(r), Revert];
    assert acts[1..] == [Revert] && [Revert][1..] == [];
    var deleted := Act(start, Delete(r), loc);
    assert Run(start, acts, loc) == Run(deleted, [Revert], loc) == Reverted(deleted);
  }

  // ---- The pending changes, column by column ----

  /** The changes are those of the pending rows, in their order. */
  lemma DiffRows(grades: Table, synced: Table) returns (rows: seq<Row>)
    ensures forall r :: r in rows ==> r in grades
    ensures forall r :: r in rows <==> IsPending(grades, synced, r)
    ensures Diff(grades, synced) == ChangesOf(grades, synced, rows)
    ensures forall i, j :: 0 <= i < j < |rows| ==> rows[i] != rows[j] && RowLeq(rows[i], rows[j])
  {
    hide IsPending, RowLeq;
    var pending := PendingRows(grades, synced);
    RowLeqIsTotalPreorder();
    ListedIsSet(pending);
    SortedRowsAreDetermined(pending, Listed(pending));
    SortByIsStableSort(Listed(pending), RowLeq);
    rows := SortedRows(pending);
    OnceEach(rows, pending);
    PendingIsListed(grades, synced);
  }

  lemma PendingIsListed(grades: Table, synced: Table)
    ensures forall r :: r in PendingRows(grades, synced) <==> IsPending(grades, synced, r)
  {}

  /** What DiffLocal returns: one change for every row with a grade that the baseline lacks or has differently,
      with both grades, in the order of the slugs and, within one, of the student numbers. */
  lemma DiffHolds(grades: Table, synced: Table)
    ensures var s := Diff(grades, synced);
            && (forall c: Change :: c in s <==>
                  && c.row in grades && grades[c.row].posted != "" && c.current == grades[c.row].posted
                  && c.cell == grades[c.row].cell
                  && if c.row in synced then c.baseline == synced[c.row].posted != c.current else c.baseline == "")
            && (forall i, j :: 0 <= i < j < |s| ==>
                  if s[i].row.slug == s[j].row.slug then s[i].row.student < s[j].row.student
                  else StrLeq(s[i].row.slug, s[j].row.slug))
  {
    hide Diff;
    var rows := DiffRows(grades, synced);
    var s := Diff(grades, synced);
    assert forall i :: 0 <= i < |s| ==> s[i].row == rows[i] && rows[i] in rows;
    forall c: Change
      ensures c in s <==> IsPending(grades, synced, c.row) && c == ChangeOf(grades, synced, c.row)
    {
      if IsPending(grades, synced, c.row) && c == ChangeOf(grades, synced, c.row) {
        var i :| 0 <= i < |rows| && rows[i] == c.row;
        assert s[i] == c;
      }
    }
  }
}
