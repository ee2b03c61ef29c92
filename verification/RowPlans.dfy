// What plan/build.go makes of an UPDATE, a DELETE or an INSERT before it runs: names resolved to
// positions, and the WHERE clause turned into a path and the filter that is left.
module RowPlans {
  import opened Values
  import opened Ast
  import opened Eval
  import opened Ranges
  import opened Storage
  import opened Schema
  import opened Access
  import opened Statements
  import opened Planner
  import opened Rewriting
  import opened Select
  import opened Equivalence
  import opened Sessions

  // ------------------------------------------------------------------
  // UPDATE and DELETE
  // ------------------------------------------------------------------

  datatype SetClause = SetClause(column: Name, value: Expr)

  predicate SetsResolve(t: Table, sets: seq<SetClause>) {
    forall i :: 0 <= i < |sets| ==> t.ColumnIndex(sets[i].column).Some? && RefsOk(t, sets[i].value)
  }

  function Resolved(t: Table, sets: seq<SetClause>): (r: seq<Assignment>)
    requires SetsResolve(t, sets)
    ensures SetsFit(t, r) && |r| == |sets|
    ensures forall i :: 0 <= i < |r| ==> t.columns[r[i].column].name == sets[i].column && r[i].value == sets[i].value
  {
    seq(|sets|, i requires 0 <= i < |sets| => Assignment(t.ColumnIndex(sets[i].column).value, sets[i].value))
  }

  /** Assignments in the order written, or the first name that does not resolve. */
  method ResolveSets(t: Table, sets: seq<SetClause>) returns (r: Result<seq<Assignment>>)
    ensures r.Ok? <==> SetsResolve(t, sets)
    ensures r.Ok? ==> r.value == Resolved(t, sets)
  {
    var out: seq<Assignment> := [];
    for i := 0 to |sets|
      invariant |out| == i && SetsResolve(t, sets[..i])
      invariant forall j :: 0 <= j < i ==> out[j] == Assignment(t.ColumnIndex(sets[j].column).value, sets[j].value)
    {
      var pos := t.ColumnIndex(sets[i].column);
      if pos.None? || !RefsOk(t, sets[i].value) {
        return Err(NotFound);
      }
      out := out + [Assignment(pos.value, sets[i].value)];
    }
    assert sets[..|sets|] == sets;
    r := Ok(out);
  }

  predicate WhereOk(t: Table, where: Option<Expr>) { where.Some? ==> RefsOk(t, where.value) }

  /** The clause of an UPDATE or DELETE, for which only the filter of a query matters. */
  function Clause(where: Option<Expr>): Query { Query(where, [], false, [], -1, 0) }

  /** The rows of the table on which the whole clause is TRUE. */
  ghost function Targets(h: Host, t: Table, rows: Rows, where: Option<Expr>): set<Value> {
    set p | p in rows && IsKept(h, t, Conjuncts(Clause(where)), rows[p])
  }

  /** What ChoosePath promises of a path. */
  ghost predicate Planned(h: Host, t: Table, where: Option<Expr>, a: AccessPath) {
    && PathOk(t, a.index) && IsCandidate(h, t, Conjuncts(Clause(where)), a)
    && Cheapest(h, t, Conjuncts(Clause(where)), a) && FirstOfItsCost(h, t, Conjuncts(Clause(where)), a)
  }

  /** The cheapest path and, over it, the filter for the conjuncts it does not take care of. */
  method PlanTarget(h: Host, t: Table, where: Option<Expr>) returns (a: AccessPath, pred: Option<Expr>)
    requires t.pk < |t.columns| && forall x :: x in t.indexes ==> x.pos < |t.columns|
    ensures Planned(h, t, where, a) && PathOk(t, a.index)
    ensures pred == ResidualFilter(Conjuncts(Clause(where)), a)
  {
    var conjuncts := Conjuncts(Clause(where));
    a := ChoosePath(h, t, conjuncts);
    CandidatePath(h, t, conjuncts, a);
    hide IsCandidate, Cheapest, FirstOfItsCost, Residual, Conjuncts, PathOk;
    var residual := ComputeResidual(conjuncts, a.consumed);
    pred := if |residual| > 0 then Some(JoinConjuncts(residual)) else None;
  }

  lemma CandidatePath(h: Host, t: Table, list: seq<Expr>, a: AccessPath)
    requires t.pk < |t.columns| && forall x :: x in t.indexes ==> x.pos < |t.columns|
    requires IsCandidate(h, t, list, a)
    ensures PathOk(t, a.index)
  {
  }

  /** The rows a path and the filter left over for it find. */
  ghost function Found(h: Host, t: Table, rows: Rows, where: Option<Expr>, a: AccessPath): set<Value>
    requires TypedRows(t, rows) && PathOk(t, a.index)
  {
    MatchingKeys(h, t, rows, a.index, a.bounds, ResidualFilter(Conjuncts(Clause(where)), a))
  }

  /** No row the path misjudges gets past the filter: a NULL in an open range, a zero beside a zero, a NaN. */
  ghost predicate Unspoilt(h: Host, t: Table, rows: Rows, where: Option<Expr>, a: AccessPath)
    requires PathOk(t, a.index)
  {
    NoneMisjudged(h, t, rows, Conjuncts(Clause(where)), a)
  }

  /** The chosen path with its residual filter finds exactly the rows the whole clause keeps, if and only if Unspoilt. */
  lemma PlannedTargets(h: Host, t: Table, rows: Rows, where: Option<Expr>, a: AccessPath)
    requires WellFormed(t) && TypedRows(t, rows) && Planned(h, t, where, a)
    ensures Found(h, t, rows, where, a) == Targets(h, t, rows, where) <==> Unspoilt(h, t, rows, where, a)
  {
    hide NoneMisjudged, IsCandidate, MatchingKeys, Conjuncts, IsKept, Cheapest, FirstOfItsCost;
    StatementTargets(h, t, rows, Clause(where), a);
  }

  /** The path an UPDATE took, the rows it met, the images it installed and the rows it left. */
  datatype Updated = Updated(path: AccessPath, rows: Rows, images: Rows, after: Rows)

  /** types.Equal tells the old primary keys of the rows the UPDATE finds from the new ones. */
  ghost predicate Told(h: Host, t: Table, where: Option<Expr>, sets: seq<Assignment>, u: Updated)
    requires TypedRows(t, u.rows) && PathOk(t, u.path.index)
  {
    AllTold(h, t, u.rows, sets, Found(h, t, u.rows, where, u.path))
  }

  /**
   * Over the store m an UPDATE took a cheapest path and replaced some rows by images of what they
   * were. If it succeeded these are all the rows path and filter find, which are those on which the
   * whole clause is TRUE if and only if Unspoilt. All this if the keys are told apart or the table
   * has no twins.
   */
  ghost predicate UpdateDone(h: Host, m: Store, t: Table, where: Option<Expr>, sets: seq<Assignment>, r: Result<nat>, u: Updated) {
    && SetsFit(t, sets) && TypedRows(t, u.rows) && Represents(m, t, u.rows) && Planned(h, t, where, u.path)
    && (Told(h, t, where, sets, u) ==> Wide(t, u.images) && Swapped(t, u.rows, u.images, u.after) && |u.after| == |u.rows|)
    && (Told(h, t, where, sets, u) || NoTwins(u.rows) ==>
          && UpdateMade(h, t, ResidualFilter(Conjuncts(Clause(where)), u.path), sets, Found(h, t, u.rows, where, u.path), u.rows,
                        r, u.images, u.after)
          && (r.Ok? ==> (u.images.Keys == Targets(h, t, u.rows, where) <==> Unspoilt(h, t, u.rows, where, u.path))))
  }

  /** And left the store n: with the images in place exactly where Told, if it succeeded on a table without twins. */
  ghost predicate UpdateStored(h: Host, n: Store, t: Table, where: Option<Expr>, sets: seq<Assignment>, r: Result<nat>, u: Updated)
    requires TypedRows(t, u.rows) && PathOk(t, u.path.index)
  {
    UpdateLeft(h, t, sets, Found(h, t, u.rows, where, u.path), u.rows, n, r.Ok?, u.images, u.after)
  }

  lemma RowsTyped(m: Store, t: Table, rows: Rows)
    requires Represents(m, t, rows)
    ensures WellFormed(t) && TypedRows(t, rows) && t.pk < |t.columns| && forall x :: x in t.indexes ==> x.pos < |t.columns|
  {
  }

  lemma UpdateIsDone(h: Host, m: Store, t: Table, where: Option<Expr>, sets: seq<Assignment>, r: Result<nat>, u: Updated)
    requires SetsFit(t, sets) && WellFormed(t) && TypedRows(t, u.rows) && Represents(m, t, u.rows) && Planned(h, t, where, u.path)
    requires PathOk(t, u.path.index)
    requires Told(h, t, where, sets, u) ==> Wide(t, u.images) && Swapped(t, u.rows, u.images, u.after) && |u.after| == |u.rows|
    requires Told(h, t, where, sets, u) || NoTwins(u.rows) ==>
               UpdateMade(h, t, ResidualFilter(Conjuncts(Clause(where)), u.path), sets, Found(h, t, u.rows, where, u.path), u.rows,
                          r, u.images, u.after)
    ensures UpdateDone(h, m, t, where, sets, r, u)
  {
    hide Represents, WellFormed, TypedRows, StopsAt, ImagesOf, Swapped, Wide, Found, ResidualFilter, Conjuncts, Targets,
         Planned, SetsFit, Unspoilt, PathOk, Told, NoTwins;
    PlannedTargets(h, t, u.rows, where, u.path);
  }

  lemma FoundIs(h: Host, t: Table, rows: Rows, where: Option<Expr>, a: AccessPath)
    requires TypedRows(t, rows) && PathOk(t, a.index)
    ensures Found(h, t, rows, where, a) ==
            MatchingKeys(h, t, rows, a.index, a.bounds, ResidualFilter(Conjuncts(Clause(where)), a))
  {
  }

  lemma ToldIs(h: Host, t: Table, where: Option<Expr>, sets: seq<Assignment>, u: Updated)
    requires TypedRows(t, u.rows) && PathOk(t, u.path.index)
    ensures Told(h, t, where, sets, u) <==> AllTold(h, t, u.rows, sets, Found(h, t, u.rows, where, u.path))
  {
  }

  lemma StoredIs(h: Host, n: Store, t: Table, where: Option<Expr>, sets: seq<Assignment>, r: Result<nat>, u: Updated)
    requires TypedRows(t, u.rows) && PathOk(t, u.path.index)
    ensures UpdateStored(h, n, t, where, sets, r, u) <==>
            UpdateLeft(h, t, sets, Found(h, t, u.rows, where, u.path), u.rows, n, r.Ok?, u.images, u.after)
  {
  }

  /** Where the images are in place the store holds the rows the UPDATE left. */
  lemma StoredRows(h: Host, n: Store, t: Table, where: Option<Expr>, sets: seq<Assignment>, r: Result<nat>, u: Updated)
    requires TypedRows(t, u.rows) && PathOk(t, u.path.index) && UpdateStored(h, n, t, where, sets, r, u) && Told(h, t, where, sets, u)
    ensures Represents(n, t, u.after)
  {
    hide Represents, AllTold, Found, Swapped, Wide;
  }

  /** On a table whose primary key is no FLOAT, or with no assignment to it, the keys are always told apart. */
  lemma SafeTold(h: Host, t: Table, where: Option<Expr>, sets: seq<Assignment>, u: Updated)
    requires TypedRows(t, u.rows) && PathOk(t, u.path.index) && SetsFit(t, sets) && KeySafe(t, sets)
    ensures Told(h, t, where, sets, u)
  {
    hide KeySafe, SetsFit, TypedRows, AllTold, Found, KeysTellApart;
    SafeKeysTold(h, t, u.rows, sets);
    AllKeysTold(h, t, u.rows, sets, Found(h, t, u.rows, where, u.path));
  }

  /** Plans an UPDATE and runs it in a session. */
  method UpdateWhere(c: Session, h: Host, t: Table, where: Option<Expr>, sets: seq<Assignment>, ghost rows: Rows)
    returns (r: Result<nat>, ghost u: Updated)
    requires c.Valid() && Represents(c.View(), t, rows) && SetsFit(t, sets)
    modifies c.db, if c.tx == null then {} else {c.tx.rw.buf}
    ensures c.Valid() && (c.tx != null || r.Err? ==> c.db.m == old(c.db.m))
    ensures Confined(old(c.View()), c.View(), t)
    ensures UpdateDone(h, old(c.View()), t, where, sets, r, u) && u.rows == rows
    ensures r.Ok? || c.tx != null ==> UpdateStored(h, c.View(), t, where, sets, r, u)
    ensures Told(h, t, where, sets, u) && (r.Ok? || c.tx != null) ==>
              Represents(c.View(), t, u.after) && RowsWritten(old(c.View()), c.View(), t)
  {
    hide *;
    RowsTyped(c.View(), t, rows);
    ghost var m := c.View();
    var a, pred := PlanTarget(h, t, where);
    ghost var images, after;
    r, images, after := c.Update(h, t, a.index, a.bounds, pred, sets, rows);
    u := Updated(a, rows, images, after);
    FoundIs(h, t, rows, where, a);
    ToldIs(h, t, where, sets, u);
    StoredIs(h, c.View(), t, where, sets, r, u);
    UpdateIsDone(h, m, t, where, sets, r, u);
    if Told(h, t, where, sets, u) && (r.Ok? || c.tx != null) {
      StoredRows(h, c.View(), t, where, sets, r, u);
    }
  }

  /** The filter fails on a row of the table. */
  ghost predicate FilterStops(h: Host, t: Table, pred: Option<Expr>, rows: Rows, e: Error) {
    pred.Some? && exists p :: p in rows && EvalPredicate(h, pred.value, TableEnv(t), rows[p]) == Err(e)
  }

  datatype Deleted = Deleted(path: AccessPath, rows: Rows, after: Rows)

  /** The same of a DELETE, which leaves the rows it did not have to find. */
  ghost predicate DeleteDone(h: Host, m: Store, t: Table, where: Option<Expr>, r: Result<nat>, d: Deleted) {
    && TypedRows(t, d.rows) && Represents(m, t, d.rows) && Planned(h, t, where, d.path)
    && (exists gone :: gone <= Found(h, t, d.rows, where, d.path) && d.after == d.rows - gone)
    && (r.Ok? ==> d.after == d.rows - Found(h, t, d.rows, where, d.path) && r.value == |Found(h, t, d.rows, where, d.path)|)
    && (r.Ok? ==> (d.after == d.rows - Targets(h, t, d.rows, where) <==> Unspoilt(h, t, d.rows, where, d.path)))
    && (r.Err? ==> FilterStops(h, t, ResidualFilter(Conjuncts(Clause(where)), d.path), d.rows, r.error))
  }

  lemma FoundAreRows(h: Host, t: Table, rows: Rows, where: Option<Expr>, a: AccessPath)
    requires TypedRows(t, rows) && PathOk(t, a.index)
    ensures Found(h, t, rows, where, a) <= rows.Keys && Targets(h, t, rows, where) <= rows.Keys
  {
    hide Matches, IsKept, Conjuncts;
  }

  /** Taking out different rows leaves different rows. */
  lemma SameLeft(rows: Rows, a: set<Value>, b: set<Value>)
    requires a <= rows.Keys && b <= rows.Keys
    ensures rows - a == rows - b <==> a == b
  {
    if rows - a == rows - b {
      forall p | p in rows.Keys ensures p in a <==> p in b {
        assert p in rows - a <==> p in rows - b;
      }
    }
  }

  lemma DeleteIsDone(h: Host, m: Store, t: Table, where: Option<Expr>, r: Result<nat>, d: Deleted)
    requires WellFormed(t) && TypedRows(t, d.rows) && Represents(m, t, d.rows) && PathOk(t, d.path.index)
    requires Planned(h, t, where, d.path)
    requires var found := MatchingKeys(h, t, d.rows, d.path.index, d.path.bounds, ResidualFilter(Conjuncts(Clause(where)), d.path));
             && (exists gone :: gone <= found && d.after == d.rows - gone)
             && (r.Ok? ==> d.after == d.rows - found && r.value == |found|)
    requires var pred := ResidualFilter(Conjuncts(Clause(where)), d.path);
             r.Err? ==> pred.Some? && exists p :: p in d.rows && EvalPredicate(h, pred.value, TableEnv(t), d.rows[p]) == Err(r.error)
    ensures DeleteDone(h, m, t, where, r, d)
  {
    hide Represents, WellFormed, TypedRows, MatchingKeys, ResidualFilter, Conjuncts, Targets, Planned, Unspoilt, PathOk;
    PlannedTargets(h, t, d.rows, where, d.path);
    FoundAreRows(h, t, d.rows, where, d.path);
    SameLeft(d.rows, Found(h, t, d.rows, where, d.path), Targets(h, t, d.rows, where));
  }

  /** Plans a DELETE and runs it in a session. */
  method DeleteWhere(c: Session, h: Host, t: Table, where: Option<Expr>, ghost rows: Rows)
    returns (r: Result<nat>, ghost d: Deleted)
    requires c.Valid() && Represents(c.View(), t, rows)
    modifies c.db, if c.tx == null then {} else {c.tx.rw.buf}
    ensures c.Valid() && (c.tx != null || r.Err? ==> c.db.m == old(c.db.m))
    ensures DeleteDone(h, old(c.View()), t, where, r, d)
    ensures r.Ok? || c.tx != null ==> Represents(c.View(), t, d.after) && RowsWritten(old(c.View()), c.View(), t)
  {
    hide *;
    RowsTyped(c.View(), t, rows);
    ghost var m := c.View();
    var a, pred := PlanTarget(h, t, where);
    ghost var after;
    r, after := c.Delete(h, t, a.index, a.bounds, pred, rows);
    d := Deleted(a, rows, after);
    DeleteIsDone(h, m, t, where, r, d);
  }

  // ------------------------------------------------------------------
  // INSERT
  // ------------------------------------------------------------------

  /** The columns listed exist and none is listed twice; none listed means all. */
  predicate ColumnsResolve(t: Table, names: seq<Name>) {
    && (forall i :: 0 <= i < |names| ==> t.ColumnIndex(names[i]).Some?)
    && (forall i, j :: 0 <= i < j < |names| ==> names[i] != names[j])
  }

  function InsertColumns(t: Table, names: seq<Name>): (r: seq<nat>)
    requires ColumnsResolve(t, names)
    ensures ColsFit(r, |t.columns|) && forall i, j :: 0 <= i < j < |r| ==> r[i] != r[j]
    ensures names == [] ==> |r| == |t.columns| && forall i :: 0 <= i < |r| ==> r[i] == i
    ensures names != [] ==> |r| == |names| && forall i :: 0 <= i < |r| ==> t.columns[r[i]].name == names[i]
  {
    if names == [] then seq(|t.columns|, i => i)
    else seq(|names|, i requires 0 <= i < |names| => t.ColumnIndex(names[i]).value)
  }

  method ResolveColumns(t: Table, names: seq<Name>) returns (r: Result<seq<nat>>)
    ensures r.Ok? <==> ColumnsResolve(t, names)
    ensures r.Ok? ==> r.value == InsertColumns(t, names)
  {
    if |names| == 0 {
      return Ok(seq(|t.columns|, i => i));
    }
    var cols: seq<nat> := [];
    var seen: set<Name> := {};
    for i := 0 to |names|
      invariant |cols| == i && (forall j :: 0 <= j < i ==> t.ColumnIndex(names[j]) == Some(cols[j]))
      invariant forall n :: n in seen <==> n in names[..i]
      invariant forall j, k :: 0 <= j < k < i ==> names[j] != names[k]
    {
      if names[i] in seen {
        return Err(Exists);
      }
      seen := seen + {names[i]};
      var pos := t.ColumnIndex(names[i]);
      if pos.None? {
        return Err(NotFound);
      }
      cols := cols + [pos.value];
    }
    r := Ok(cols);
  }

  predicate InsertFits(t: Table, names: seq<Name>, list: seq<seq<Expr>>) {
    ColumnsResolve(t, names) && forall i :: 0 <= i < |list| ==> |list[i]| == |InsertColumns(t, names)|
  }

  /** The positions an INSERT fills, if every VALUES row has one entry for each. */
  method PlanInsert(t: Table, names: seq<Name>, list: seq<seq<Expr>>) returns (r: Result<seq<nat>>)
    ensures r.Ok? <==> InsertFits(t, names, list)
    ensures r.Ok? ==> r.value == InsertColumns(t, names) && ListFits(t, r.value, list)
  {
    var cols := ResolveColumns(t, names);
    if cols.Err? {
      return cols;
    }
    for i := 0 to |list|
      invariant forall j :: 0 <= j < i ==> |list[j]| == |cols.value|
    {
      if |list[i]| != |cols.value| {
        return Err(WrongArity);
      }
    }
    r := cols;
  }

  /** The rows an INSERT met, the ones it added and what there was then. */
  datatype Inserted = Inserted(rows: Rows, images: seq<Row>, after: Rows)

  ghost predicate InsertDone(h: Host, m: Store, t: Table, cols: seq<nat>, list: seq<seq<Expr>>, r: Result<nat>, n: Inserted) {
    && ListFits(t, cols, list) && Represents(m, t, n.rows)
    && AllNew(t, n.rows, n.images) && ImagesFor(h, t, cols, list, n.images) && AllAsListed(h, t, cols, list, n.images)
    && n.after == WithRows(t, n.rows, n.images)
    && (r.Ok? ==> r.value == |n.images| == |list|)
    && (r.Err? ==> |n.images| < |list| && InsertStops(h, t, cols, list[|n.images|], n.after, r.error))
  }

  method InsertRows(c: Session, h: Host, t: Table, cols: seq<nat>, list: seq<seq<Expr>>, ghost rows: Rows)
    returns (r: Result<nat>, ghost n: Inserted)
    requires c.Valid() && Represents(c.View(), t, rows) && ListFits(t, cols, list)
    modifies c.db, if c.tx == null then {} else {c.tx.rw.buf}
    ensures c.Valid() && (c.tx != null || r.Err? ==> c.db.m == old(c.db.m))
    ensures InsertDone(h, old(c.View()), t, cols, list, r, n)
    ensures r.Ok? || c.tx != null ==> Represents(c.View(), t, n.after) && RowsWritten(old(c.View()), c.View(), t)
  {
    hide Represents, RowsWritten, AllNew, ImagesFor, AllAsListed, InsertStops, WithRows, ListFits;
    ghost var images;
    r, images := c.Insert(h, t, cols, list, rows);
    NewFits(t, rows, images);
    n := Inserted(rows, images, WithRows(t, rows, images));
  }
}
