// What a statement is about: the rows that satisfy its WHERE clause, and for a SELECT what becomes of
// them (plan/build.go, exec/operators.go), stage by stage and without the functions that compute it.
module Answers {
  import opened Bytes
  import opened Values
  import opened KeyCodec
  import opened Ast
  import opened Eval
  import opened Semantics
  import opened Conditions
  import opened Ranges
  import opened Storage
  import opened Schema
  import opened Access
  import opened Statements
  import opened Sorting
  import opened Streams
  import opened Planner
  import opened Rewriting
  import opened Select
  import opened Delivery
  import opened Equivalence
  import opened RowPlans

  // ------------------------------------------------------------------
  // One row and a WHERE clause
  // ------------------------------------------------------------------

  /** A row satisfies the clause, without an error; a missing clause is satisfied by all. */
  ghost predicate Meets(h: Host, t: Table, where: Option<Expr>, row: Row) {
    where.Some? ==> HasAnswer(h, where.value, TableEnv(t), row) && Satisfied(h, where.value, TableEnv(t), row)
  }

  /** What the conjuncts keep, one after the other, is what satisfies the clause. */
  lemma KeptMeets(h: Host, t: Table, q: Query, row: Row)
    ensures IsKept(h, t, Conjuncts(q), row) <==> Meets(h, t, q.where, row)
  {
    hide EvalPredicate, HasAnswer, Satisfied, Refuted, TableEnv, SplitConjuncts;
    if q.where.Some? {
      SplitMeans(h, q.where.value, TableEnv(t), row);
      ConditionMeans(h, q.where.value, TableEnv(t), row);
      hide EvalFrom;
    }
  }

  /** An UPDATE or DELETE is about the rows that satisfy its clause. */
  lemma TargetsMeet(h: Host, t: Table, rows: Rows, where: Option<Expr>)
    ensures forall p :: p in Targets(h, t, rows, where) <==> p in rows && Meets(h, t, where, rows[p])
  {
    hide Meets, IsKept, Conjuncts;
    forall p ensures p in Targets(h, t, rows, where) <==> p in rows && Meets(h, t, where, rows[p]) {
      if p in rows {
        KeptMeets(h, t, Clause(where), rows[p]);
      }
    }
  }

  // ------------------------------------------------------------------
  // A whole SELECT
  // ------------------------------------------------------------------

  /** Every row of the table, once, in path order. */
  ghost predicate Reads(t: Table, rows: Rows, x: Path, s: Stream) {
    && s.end == None && Ascends(t, x, s.rows)
    && (forall r :: r in s.rows <==> t.pk < |r| && r[t.pk] in rows && rows[r[t.pk]] == r)
    && forall i, j :: 0 <= i < j < |s.rows| ==> s.rows[i] != s.rows[j]
  }

  /** The first row of every encoding. */
  ghost predicate Firsts(s: Stream, out: Stream, idx: seq<nat>) {
    && Picks(idx, |s.rows|) && Picked(out.rows, s.rows, idx) && out.end == s.end
    && forall k: nat :: k in idx <==> IsFirst({}, s.rows, k)
  }

  /** What the rows of the table become on their way: kept, sorted, listed, without duplicates. */
  datatype Stages = Stages(
    all: Stream,
    kept: Stream, reached: nat, which: seq<nat>,
    sorted: Stream, perm: seq<nat>,
    listed: Stream,
    unique: Stream, firsts: seq<nat>)

  ghost predicate Answered(h: Host, t: Table, rows: Rows, x: Path, q: Query, w: Stages, out: Stream) {
    && Reads(t, rows, x, w.all)
    && (if q.where.None? then w.kept == w.all
        else Filtered(h, q.where.value, TableEnv(t), w.all, w.kept, w.reached, w.which))
    && (if q.keys == [] then w.sorted == w.kept else InKeyOrder(h, q.keys, TableEnv(t), w.kept, w.sorted, w.perm))
    && Projected(h, Expanded(t, q.items), TableEnv(t), w.sorted, w.listed)
    && (if !q.distinct then w.unique == w.listed else Firsts(w.listed, w.unique, w.firsts))
    && out == Cut(q.count, AtLeastZero(q.offset), w.unique)
  }

  lemma TopCuts(q: Query, s: Stream) returns (unique: Stream, firsts: seq<nat>)
    ensures if !q.distinct then unique == s else Firsts(s, unique, firsts)
    ensures TopS(q, s) == Cut(q.count, AtLeastZero(q.offset), unique)
  {
    hide LimitS, DistinctS, Picks, Picked, IsFirst;
    unique, firsts := s, [];
    if q.distinct {
      firsts := DistinctDelivers({}, s);
      unique := DistinctS({}, s);
    }
    LimitDelivers(q.count, q.offset, unique);
    assert unique.rows[0..] == unique.rows;
  }

  lemma ReadsAll(m: Store, t: Table, rows: Rows, x: Path)
    requires Represents(m, t, rows) && PathOk(t, x)
    ensures Reads(t, rows, x, Stream(ScanRows(m, t, rows, x, EVERYTHING), None))
  {
    hide Represents, PathOk, ScanRows, Ascends;
    FullScanIsTable(m, t, rows, x);
  }

  lemma KeptFilters(h: Host, m: Store, t: Table, rows: Rows, q: Query, x: Path) returns (n: nat, which: seq<nat>)
    ensures var all, kept := Stream(ScanRows(m, t, rows, x, EVERYTHING), None), Equivalence.Kept(h, m, t, rows, q, x);
            if q.where.None? then kept == all else Filtered(h, q.where.value, TableEnv(t), all, kept, n, which)
  {
    hide Filtered, ScanRows, FilterC, FilterS, TableEnv;
    var all := Stream(ScanRows(m, t, rows, x, EVERYTHING), None);
    n, which := 0, [];
    if q.where.Some? {
      FilterSplit(h, q.where.value, TableEnv(t), all);
      n, which := FilterDelivers(h, q.where.value, TableEnv(t), all);
    } else {
      FilterNothing(h, TableEnv(t), all);
    }
  }

  /** The naive plan, errors and all. */
  lemma NaiveAnswers(h: Host, m: Store, t: Table, rows: Rows, q: Query, x: Path) returns (w: Stages)
    requires Represents(m, t, rows) && PathOk(t, x)
    ensures Answered(h, t, rows, x, q, w, Run(h, m, t, Naive(t, q, x)))
  {
    hide Represents, PathOk, Reads, Filtered, InKeyOrder, Projected, Firsts, Cut, Run, Naive, TopS, ProjectS, SortS,
         Equivalence.Kept, ScanRows, Expanded, TableEnv;
    NaiveRuns(h, m, t, rows, q, x);
    ReadsAll(m, t, rows, x);
    var all, kept := Stream(ScanRows(m, t, rows, x, EVERYTHING), None), Equivalence.Kept(h, m, t, rows, q, x);
    var n, which := KeptFilters(h, m, t, rows, q, x);
    var sorted, perm := kept, [];
    if q.keys != [] {
      perm := SortDelivers(h, q.keys, TableEnv(t), kept);
      sorted := SortS(h, q.keys, -1, TableEnv(t), kept);
    }
    var listed := ProjectS(h, Expanded(t, q.items), TableEnv(t), sorted);
    ProjectDelivers(h, Expanded(t, q.items), TableEnv(t), sorted);
    var unique, firsts := TopCuts(q, listed);
    w := Stages(all, kept, n, which, sorted, perm, listed, unique, firsts);
  }

  /**
   * What a SELECT delivers through the plan that is built for it: of all rows of the table those that
   * satisfy the WHERE clause, rearranged by the ORDER BY keys, the SELECT list of each, the first of
   * equal ones under DISTINCT, and of these what OFFSET and LIMIT leave.
   */
  lemma SelectAnswers(h: Host, m: Store, t: Table, rows: Rows, q: Query, a: AccessPath) returns (w: Stages)
    requires LimitsAllowed(q)
    requires Represents(m, t, rows) && Rewritable(h, m, t, rows, q, a)
    ensures Answered(h, t, rows, a.index, q, w, Run(h, m, t, Optimised(t, q, a)))
  {
    hide Represents, Answered, Run, Optimised, Naive, IsCandidate, Conjuncts, Equivalence.Kept, NoHarm, SortSpared;
    PlanMeansNaive(h, m, t, rows, q, a);
    w := NaiveAnswers(h, m, t, rows, q, a.index);
  }

  // ------------------------------------------------------------------
  // What the plan spares
  // ------------------------------------------------------------------

  /** The sorts in a plan, each with its limit. */
  function Sorts(p: Plan): seq<(seq<SortKey>, int64)> {
    match p
    case ScanNode(_, _, _) => []
    case FilterNode(input, _) => Sorts(input)
    case SortNode(input, keys, limit) => Sorts(input) + [(keys, limit)]
    case ProjectNode(input, _) => Sorts(input)
    case DistinctNode(input) => Sorts(input)
    case LimitNode(input, _, _) => Sorts(input)
  }

  /** ORDER BY asks for just what the path provides. */
  predicate AlreadySorted(q: Query, a: AccessPath) {
    |q.keys| == 1 && !q.keys[0].desc && q.keys[0].expr.Column? && q.keys[0].expr.name == a.ordersBy
  }

  lemma ScanSorts(x: Path, bounds: Range, mask: seq<bool>)
    ensures Sorts(ScanNode(x, bounds, mask)) == []
  {
  }

  lemma TopSorts(p: Plan, q: Query)
    ensures Sorts(WithTop(p, q)) == Sorts(p)
  {
  }

  lemma LayersSort(p: Plan, exprs: seq<Expr>, list: seq<Expr>, keys: seq<SortKey>, limit: int64)
    ensures Sorts(ProjectNode(p, exprs)) == Sorts(p) && Sorts(WithFilter(p, list)) == Sorts(p)
    ensures Sorts(WithSort(p, keys, limit)) == Sorts(p) + if keys == [] then [] else [(keys, limit)]
  {
  }

  /**
   * A plan sorts if and only if it is asked to and the path does not do so already, and without
   * DISTINCT it keeps no more than LIMIT and OFFSET call for, as a 64-bit sum.
   */
  lemma PlanSorts(t: Table, q: Query, a: AccessPath)
    ensures var sorts := Sorts(Optimised(t, q, a));
            if q.keys == [] || AlreadySorted(q, a) then sorts == []
            else |sorts| == 1 && sorts[0].0 == q.keys &&
                 if q.count >= 0 && !q.distinct then Congruent(sorts[0].1, q.count + q.offset) else sorts[0].1 == -1
  {
    WrapMeans(q.count + q.offset);
    hide MaskOf, ReadBy, Residual, Conjuncts, Expanded, Wrap, Congruent, Sorts, WithTop, WithSort, WithFilter;
    var keys, limit := KeptKeys(q, a), SortLimit(q);
    var scan := ScanNode(a.index, a.bounds, MaskOf(t, ReadBy(t, q, a)));
    var kept := WithFilter(scan, Residual(Conjuncts(q), a.consumed));
    var sorted := WithSort(kept, keys, limit);
    ScanSorts(a.index, a.bounds, MaskOf(t, ReadBy(t, q, a)));
    LayersSort(scan, [], Residual(Conjuncts(q), a.consumed), [], 0);
    LayersSort(kept, [], [], keys, limit);
    LayersSort(sorted, Expanded(t, q.items), [], [], 0);
    TopSorts(ProjectNode(sorted, Expanded(t, q.items)), q);
  }
}
