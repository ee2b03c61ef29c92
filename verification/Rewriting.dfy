// plainSelect (plan/build.go) as a rewriting: the plan it builds delivers what the naive plan does.
module Rewriting {
  import opened Bytes
  import opened Values
  import opened Ast
  import opened Eval
  import opened Keys
  import opened KeyCodec
  import opened RowCodec
  import opened Ranges
  import opened Storage
  import opened Schema
  import opened Access
  import opened Statements
  import opened Sorting
  import opened Streams
  import opened Planner

  // ------------------------------------------------------------------
  // One row: range and residual against the whole WHERE clause
  // ------------------------------------------------------------------

  /** What the path's column holds. */
  function PathValue(t: Table, x: Path, row: Row): Value
    requires PathOk(t, x) && |row| == |t.columns|
  {
    row[PathColumn(t, x)]
  }

  predicate IsKept(h: Host, t: Table, list: seq<Expr>, row: Row) {
    EvalFrom(h, True, list, TableEnv(t), row) == Ok(True)
  }

  /**
   * A row on which the range, looked up by bytes, and the conjuncts it stands for disagree: a NULL
   * that a range without a lower bound lets through, a zero on the wrong side of a zero, a NaN.
   */
  predicate Misjudged(t: Table, a: AccessPath, row: Row)
    requires PathOk(t, a.index) && |row| == |t.columns|
  {
    var v := PathValue(t, a.index, row);
    a.consumed != {} && (ByteWithin(a.bounds, v) <==> v.Null? || !Within(a.bounds, v))
  }

  /** The first kind: a NULL whose predicate is UNKNOWN. */
  predicate Stray(t: Table, a: AccessPath, row: Row)
    requires PathOk(t, a.index) && |row| == |t.columns|
  {
    PathValue(t, a.index, row).Null? && a.bounds.lo.Unset? && a.consumed != {}
  }

  /** The residual filter drops a misjudged row, and does so without an error if it gets to see it. */
  predicate Harmless(h: Host, t: Table, list: seq<Expr>, a: AccessPath, row: Row)
    requires PathOk(t, a.index) && |row| == |t.columns|
  {
    Misjudged(t, a, row) ==>
      && !IsKept(h, t, Residual(list, a.consumed), row)
      && (ByteWithin(a.bounds, PathValue(t, a.index, row)) ==> EvalFrom(h, True, Residual(list, a.consumed), TableEnv(t), row).Ok?)
  }

  lemma CandidateColumn(h: Host, t: Table, list: seq<Expr>, a: AccessPath)
    requires WellFormed(t) && IsCandidate(h, t, list, a)
    ensures PathOk(t, a.index) && t.ColumnIndex(a.ordersBy) == Some(PathColumn(t, a.index))
    ensures a == FullScan(t) || (RangeOn(h, t, list, a.ordersBy) == Some(a.bounds) && a.consumed == OwnersOn(h, t, list, a.ordersBy))
  {
  }

  lemma NullAgainstBounds(r: Range)
    requires NoNull(r)
    ensures ByteWithin(r, Null) <==> r.lo.Unset?
  {
  }

  lemma PlainWithin(r: Range, v: Value)
    requires PlainRange(r) && Plain(v)
    ensures ByteWithin(r, v) <==> Within(r, v)
  {
  }

  lemma FullScanConsumes(h: Host, t: Table, list: seq<Expr>, row: Row)
    requires t.pk < |t.columns|
    ensures AllTrue(h, list, FullScan(t).consumed, TableEnv(t), row)
    ensures forall v :: ByteWithin(FullScan(t).bounds, v)
    ensures FullScan(t).consumed == {}
  {
  }

  /** The bounds of a path that consumed something are those its column's conjuncts ask for. */
  lemma CandidateBounds(h: Host, t: Table, list: seq<Expr>, a: AccessPath)
    requires WellFormed(t) && IsCandidate(h, t, list, a)
    ensures a.consumed != {} ==> NoNull(a.bounds) && RangeOn(h, t, list, a.ordersBy) == Some(a.bounds)
    ensures a.consumed == {} ==> a == FullScan(t)
  {
    CandidateColumn(h, t, list, a);
    RangeOnShape(h, t, list, a.ordersBy);
  }

  /** The conjuncts a path consumed, on one row. */
  lemma ConsumedMeans(h: Host, t: Table, list: seq<Expr>, a: AccessPath, row: Row)
    requires WellFormed(t) && Typed(t, row) && IsCandidate(h, t, list, a) && PathOk(t, a.index)
    ensures AllTrue(h, list, a.consumed, TableEnv(t), row) <==>
            (Misjudged(t, a, row) <==> !ByteWithin(a.bounds, PathValue(t, a.index, row)))
  {
    CandidateColumn(h, t, list, a);
    CandidateBounds(h, t, list, a);
    FullScanConsumes(h, t, list, row);
    hide IsCandidate, AllTrue, ByteWithin, Within, RangeOn, OwnersOn, FullScan, TableEnv, PathOk, WellFormed, Typed;
    if a.consumed != {} {
      RangeOnMeans(h, t, list, a.ordersBy, row);
    }
  }

  /** With plain floats only a NULL is ever misjudged. */
  lemma PlainMisjudged(h: Host, t: Table, list: seq<Expr>, a: AccessPath, row: Row)
    requires WellFormed(t) && IsCandidate(h, t, list, a) && PathOk(t, a.index) && |row| == |t.columns|
    requires PlainRange(a.bounds) && Plain(PathValue(t, a.index, row))
    ensures Misjudged(t, a, row) <==> Stray(t, a, row)
  {
    CandidateBounds(h, t, list, a);
    hide IsCandidate, RangeOn, FullScan, PathOk, WellFormed, ByteWithin, Within;
    PlainWithin(a.bounds, PathValue(t, a.index, row));
    if NoNull(a.bounds) {
      NullAgainstBounds(a.bounds);
    }
  }

  /** And with bounds that are numbers only a NULL, a zero or a NaN with a sign bit. */
  lemma MisjudgedAre(h: Host, t: Table, list: seq<Expr>, a: AccessPath, row: Row)
    requires WellFormed(t) && IsCandidate(h, t, list, a) && PathOk(t, a.index) && |row| == |t.columns|
    requires BoundsAreNumbers(a.bounds) && Misjudged(t, a, row)
    ensures var v := PathValue(t, a.index, row);
            Stray(t, a, row) || ((IsFloatZero(v) || IsNegativeNaN(v)) && !Faithful(a.bounds, v))
  {
    CandidateBounds(h, t, list, a);
    hide IsCandidate, RangeOn, FullScan, PathOk, WellFormed, ByteWithin, Within;
    var v := PathValue(t, a.index, row);
    NullAgainstBounds(a.bounds);
    if !IsFloatZero(v) && !IsNegativeNaN(v) {
      FaithfulElsewhere(a.bounds, v);
    }
  }

  lemma AllKeptAllTrue(h: Host, t: Table, list: seq<Expr>, which: set<nat>, row: Row)
    ensures IsKept(h, t, list, row) ==> AllTrue(h, list, which, TableEnv(t), row)
  {
    KeepsWhenAllTrue(h, list, TableEnv(t), row);
  }

  /**
   * A row judged rightly: inside the range the residual answers for the whole clause, outside the
   * clause is not TRUE. A row misjudged: the other way round.
   */
  lemma RowRewritten(h: Host, t: Table, list: seq<Expr>, a: AccessPath, row: Row)
    requires WellFormed(t) && Typed(t, row) && IsCandidate(h, t, list, a) && PathOk(t, a.index)
    ensures (ByteWithin(a.bounds, PathValue(t, a.index, row)) <==> !Misjudged(t, a, row)) ==>
              EvalFrom(h, True, Residual(list, a.consumed), TableEnv(t), row) == EvalFrom(h, True, list, TableEnv(t), row)
    ensures (ByteWithin(a.bounds, PathValue(t, a.index, row)) <==> Misjudged(t, a, row)) ==> !IsKept(h, t, list, row)
  {
    hide EvalFrom, Residual, IsCandidate, AllTrue, ByteWithin, Misjudged;
    ConsumedMeans(h, t, list, a, row);
    AllKeptAllTrue(h, t, list, a.consumed, row);
    if AllTrue(h, list, a.consumed, TableEnv(t), row) {
      ResidualMeans(h, list, a.consumed, TableEnv(t), row);
    }
  }

  // A stray row: every consumed conjunct is UNKNOWN, so only the residual can stop it.

  lemma ConsumedAnswers(h: Host, t: Table, list: seq<Expr>, a: AccessPath, row: Row, i: nat)
    requires WellFormed(t) && Typed(t, row) && IsCandidate(h, t, list, a) && PathOk(t, a.index)
    requires Stray(t, a, row) && i in a.consumed
    ensures i < |list| && EvalPredicate(h, list[i], TableEnv(t), row) == Ok(Unknown)
  {
    CandidateColumn(h, t, list, a);
    SargMeans(h, t, list[i], row);
  }

  /** The two answers fail together, and refuse together. */
  predicate SameFate(a: Result<Bool3>, b: Result<Bool3>) {
    (a.Ok? <==> b.Ok?) && (a.Ok? ==> (a.value.False? <==> b.value.False?))
  }

  /** One more conjunct on both sides, or one that answers UNKNOWN on the left only. */
  lemma SameFateStep(h: Host, a: Result<Bool3>, b: Result<Bool3>, e: Expr, env: Env, row: Row)
    requires SameFate(a, b)
    ensures SameFate(AndThen(h, a, e, env, row), AndThen(h, b, e, env, row))
    ensures EvalPredicate(h, e, env, row) == Ok(Unknown) ==> SameFate(AndThen(h, a, e, env, row), b)
  {
    hide EvalPredicate;
  }

  lemma ResidualSnoc(list: seq<Expr>, consumed: set<nat>)
    requires list != []
    ensures var n := |list| - 1;
            Residual(list, consumed) ==
            if n in consumed then Residual(list[..n], consumed) else Residual(list[..n], consumed) + [list[n]]
  {
  }

  /** With the consumed conjuncts UNKNOWN, the residual fails or refuses exactly when the clause does. */
  lemma {:induction false} StrayResidual(h: Host, list: seq<Expr>, consumed: set<nat>, env: Env, row: Row)
    requires forall i :: i in consumed && i < |list| ==> EvalPredicate(h, list[i], env, row) == Ok(Unknown)
    ensures SameFate(EvalFrom(h, True, list, env, row), EvalFrom(h, True, Residual(list, consumed), env, row))
  {
    if list != [] {
      hide EvalPredicate, EvalFrom, AndThen, SameFate, Residual;
      var n := |list| - 1;
      var init, rest := list[..n], Residual(list[..n], consumed);
      assert forall i: nat :: i < n ==> init[i] == list[i];
      StrayResidual(h, init, consumed, env, row);
      EvalFromSnoc(h, list, env, row);
      ResidualSnoc(list, consumed);
      SameFateStep(h, EvalFrom(h, True, init, env, row), EvalFrom(h, True, rest, env, row), list[n], env, row);
      if n !in consumed {
        EvalFromSnoc(h, rest + [list[n]], env, row);
        assert (rest + [list[n]])[..|rest|] == rest;
      }
    }
  }

  /** On a stray NULL the residual fails only where the clause does, so it is enough that it does not keep it. */
  lemma StrayHarmless(h: Host, t: Table, list: seq<Expr>, a: AccessPath, row: Row)
    requires WellFormed(t) && Typed(t, row) && IsCandidate(h, t, list, a) && PathOk(t, a.index) && Stray(t, a, row)
    requires EvalFrom(h, True, list, TableEnv(t), row).Ok? && !IsKept(h, t, Residual(list, a.consumed), row)
    ensures Harmless(h, t, list, a, row)
  {
    hide EvalFrom, Residual, IsCandidate, ByteWithin, Misjudged, Stray;
    forall i | i in a.consumed && i < |list| ensures EvalPredicate(h, list[i], TableEnv(t), row) == Ok(Unknown) {
      ConsumedAnswers(h, t, list, a, row, i);
    }
    StrayResidual(h, list, a.consumed, TableEnv(t), row);
  }

  // ------------------------------------------------------------------
  // Filters over conjunct lists
  // ------------------------------------------------------------------

  /** A Filter whose predicate is the conjunction of a list; the empty list filters nothing. */
  function FilterC(h: Host, list: seq<Expr>, env: Env, s: Stream): Stream
    decreases |s.rows|
  {
    if s.rows == [] then s
    else
      match EvalFrom(h, True, list, env, s.rows[0])
      case Err(e) => Fails(e)
      case Ok(b) =>
        var rest := FilterC(h, list, env, Tail(s));
        if b.True? then Cons(s.rows[0], rest) else rest
  }

  lemma {:induction false} FilterSplit(h: Host, e: Expr, env: Env, s: Stream)
    ensures FilterS(h, e, env, s) == FilterC(h, SplitConjuncts(e), env, s)
    decreases |s.rows|
  {
    if s.rows != [] {
      SplitMeans(h, e, env, s.rows[0]);
      FilterSplit(h, e, env, Tail(s));
    }
  }

  lemma {:induction false} FilterJoin(h: Host, list: seq<Expr>, env: Env, s: Stream)
    requires list != []
    ensures FilterS(h, JoinConjuncts(list), env, s) == FilterC(h, list, env, s)
    decreases |s.rows|
  {
    if s.rows != [] {
      JoinConjunctsMeans(h, list, env, s.rows[0]);
      FilterJoin(h, list, env, Tail(s));
    }
  }

  lemma {:induction false} FilterNothing(h: Host, env: Env, s: Stream)
    ensures FilterC(h, [], env, s) == s
    decreases |s.rows|
  {
    if s.rows != [] {
      FilterNothing(h, env, Tail(s));
    }
  }

  /** The rows whose path column lies in the bounds. */
  function KeepIn(t: Table, x: Path, bounds: Range, rows: seq<Row>): seq<Row>
    requires PathOk(t, x) && forall r :: r in rows ==> |r| == |t.columns|
  {
    if rows == [] then []
    else if ByteWithin(bounds, PathValue(t, x, rows[0])) then [rows[0]] + KeepIn(t, x, bounds, rows[1..])
    else KeepIn(t, x, bounds, rows[1..])
  }

  lemma {:induction false} KeepInMembers(t: Table, x: Path, bounds: Range, rows: seq<Row>)
    requires PathOk(t, x) && forall r :: r in rows ==> |r| == |t.columns|
    ensures forall r :: r in KeepIn(t, x, bounds, rows) <==> r in rows && ByteWithin(bounds, PathValue(t, x, r))
  {
    hide ByteWithin, PathOk, PathValue;
    if rows != [] {
      KeepInMembers(t, x, bounds, rows[1..]);
      assert rows == [rows[0]] + rows[1..];
    }
  }

  /** One more row before the others. */
  lemma FilterStep(h: Host, list: seq<Expr>, env: Env, row: Row, rest: seq<Row>)
    ensures FilterC(h, list, env, Stream([row] + rest, None)) ==
            match EvalFrom(h, True, list, env, row)
            case Err(e) => Fails(e)
            case Ok(b) =>
              var more := FilterC(h, list, env, Stream(rest, None));
              if b.True? then Cons(row, more) else more
  {
    hide EvalFrom;
    assert Tail(Stream([row] + rest, None)) == Stream(rest, None);
  }

  /** A filter that ends without error judged every row, and delivered those it kept; otherwise a row failed. */
  lemma {:induction false} FilterMembers(h: Host, list: seq<Expr>, env: Env, rows: seq<Row>)
    ensures var out := FilterC(h, list, env, Stream(rows, None));
            && (out.end == None <==> forall r :: r in rows ==> EvalFrom(h, True, list, env, r).Ok?)
            && (out.end == None ==> forall r :: r in out.rows <==> r in rows && EvalFrom(h, True, list, env, r) == Ok(True))
  {
    hide EvalFrom;
    if rows != [] {
      var row, rest := rows[0], rows[1..];
      FilterMembers(h, list, env, rest);
      assert rows == [row] + rest;
      FilterStep(h, list, env, row, rest);
      hide FilterC;
      assert row in rows;
      forall r ensures r in rows <==> r == row || r in rest {
      }
    }
  }

  /** Rows a table may hold. */
  ghost predicate AllTyped(t: Table, rows: seq<Row>) { forall r :: r in rows ==> Typed(t, r) && |r| == |t.columns| }

  ghost predicate AllHarmless(h: Host, t: Table, list: seq<Expr>, a: AccessPath, rows: seq<Row>)
    requires PathOk(t, a.index) && forall r :: r in rows ==> |r| == |t.columns|
  {
    forall r :: r in rows ==> Harmless(h, t, list, a, r)
  }

  /** What the scan within the bounds and the residual filter deliver of some rows. */
  function NarrowS(h: Host, t: Table, list: seq<Expr>, a: AccessPath, rows: seq<Row>): Stream
    requires PathOk(t, a.index) && forall r :: r in rows ==> |r| == |t.columns|
  {
    FilterC(h, Residual(list, a.consumed), TableEnv(t), Stream(KeepIn(t, a.index, a.bounds, rows), None))
  }

  /** What the whole clause delivers. */
  function WideS(h: Host, t: Table, list: seq<Expr>, rows: seq<Row>): Stream {
    FilterC(h, list, TableEnv(t), Stream(rows, None))
  }

  /** A row the clause does not fail on: harmless exactly if scan and residual treat it as the clause does. */
  lemma RowOfNarrowed(h: Host, t: Table, list: seq<Expr>, a: AccessPath, row: Row)
    requires WellFormed(t) && Typed(t, row) && IsCandidate(h, t, list, a) && PathOk(t, a.index)
    requires EvalFrom(h, True, list, TableEnv(t), row).Ok?
    ensures var scanned := ByteWithin(a.bounds, PathValue(t, a.index, row));
            Harmless(h, t, list, a, row) <==>
              && (scanned ==> EvalFrom(h, True, Residual(list, a.consumed), TableEnv(t), row).Ok?)
              && (scanned && IsKept(h, t, Residual(list, a.consumed), row) <==> IsKept(h, t, list, row))
  {
    hide EvalFrom, Residual, IsCandidate, ByteWithin, Misjudged;
    RowRewritten(h, t, list, a, row);
  }

  lemma KeepInStep(t: Table, x: Path, bounds: Range, rows: seq<Row>)
    requires PathOk(t, x) && (forall r :: r in rows ==> |r| == |t.columns|) && rows != []
    ensures (forall r :: r in rows[1..] ==> |r| == |t.columns|) && |rows[0]| == |t.columns|
    ensures KeepIn(t, x, bounds, rows) ==
            (if ByteWithin(bounds, PathValue(t, x, rows[0])) then [rows[0]] else []) + KeepIn(t, x, bounds, rows[1..])
  {
    hide ByteWithin, PathValue;
  }

  /** One row of a filter that does not fail on it, in terms of whether the row is kept. */
  lemma FilterOne(h: Host, t: Table, list: seq<Expr>, row: Row, rest: seq<Row>)
    requires EvalFrom(h, True, list, TableEnv(t), row).Ok?
    ensures WideS(h, t, list, [row] + rest) ==
            if IsKept(h, t, list, row) then Cons(row, WideS(h, t, list, rest)) else WideS(h, t, list, rest)
  {
    hide EvalFrom, TableEnv, FilterC;
    FilterStep(h, list, TableEnv(t), row, rest);
  }

  /** One more harmless row on both sides. */
  lemma NarrowedStep(h: Host, t: Table, list: seq<Expr>, a: AccessPath, rows: seq<Row>)
    requires WellFormed(t) && IsCandidate(h, t, list, a) && PathOk(t, a.index) && AllTyped(t, rows) && rows != []
    requires Harmless(h, t, list, a, rows[0]) && EvalFrom(h, True, list, TableEnv(t), rows[0]).Ok?
    requires AllTyped(t, rows[1..]) && NarrowS(h, t, list, a, rows[1..]) == WideS(h, t, list, rows[1..])
    ensures NarrowS(h, t, list, a, rows) == WideS(h, t, list, rows)
  {
    hide EvalFrom, Residual, IsCandidate, ByteWithin, Harmless, FilterC, PathOk, PathValue, WellFormed, TableEnv, KeepIn, IsKept,
         Typed, WideS, NarrowS;
    var row, rest := rows[0], rows[1..];
    assert row in rows;
    KeepInStep(t, a.index, a.bounds, rows);
    RowOfNarrowed(h, t, list, a, row);
    assert rows == [row] + rest;
    FilterOne(h, t, list, row, rest);
    var keep := KeepIn(t, a.index, a.bounds, rest);
    NarrowIs(h, t, list, a, rows);
    NarrowIs(h, t, list, a, rest);
    if ByteWithin(a.bounds, PathValue(t, a.index, row)) {
      FilterOne(h, t, Residual(list, a.consumed), row, keep);
    } else {
      assert [] + keep == keep;
    }
  }

  lemma NarrowIs(h: Host, t: Table, list: seq<Expr>, a: AccessPath, rows: seq<Row>)
    requires PathOk(t, a.index) && forall r :: r in rows ==> |r| == |t.columns|
    ensures NarrowS(h, t, list, a, rows) == WideS(h, t, Residual(list, a.consumed), KeepIn(t, a.index, a.bounds, rows))
  {
  }

  /** Harmless rows: the narrowed filter is the whole one. */
  lemma {:induction false} HarmlessNarrows(h: Host, t: Table, list: seq<Expr>, a: AccessPath, rows: seq<Row>)
    requires WellFormed(t) && IsCandidate(h, t, list, a) && PathOk(t, a.index) && AllTyped(t, rows)
    requires forall r :: r in rows ==> EvalFrom(h, True, list, TableEnv(t), r).Ok?
    requires AllHarmless(h, t, list, a, rows)
    ensures NarrowS(h, t, list, a, rows) == WideS(h, t, list, rows)
  {
    hide EvalFrom, IsCandidate, ByteWithin, Harmless, PathOk, PathValue, WellFormed, TableEnv, IsKept, Typed, Residual;
    if rows != [] {
      assert rows[0] in rows;
      HarmlessNarrows(h, t, list, a, rows[1..]);
      hide FilterC, KeepIn;
      NarrowedStep(h, t, list, a, rows);
    }
  }

  /** The narrowed filter ends without error exactly if the residual does on every row scanned, and tells its rows. */
  lemma NarrowMembers(h: Host, t: Table, list: seq<Expr>, a: AccessPath, rows: seq<Row>)
    requires PathOk(t, a.index) && forall r :: r in rows ==> |r| == |t.columns|
    ensures var out := NarrowS(h, t, list, a, rows);
            && (out.end == None <==> forall r :: r in rows && ByteWithin(a.bounds, PathValue(t, a.index, r)) ==>
                                                  EvalFrom(h, True, Residual(list, a.consumed), TableEnv(t), r).Ok?)
            && (out.end == None ==> forall r :: r in out.rows <==>
                  r in rows && ByteWithin(a.bounds, PathValue(t, a.index, r)) && IsKept(h, t, Residual(list, a.consumed), r))
  {
    hide EvalFrom, ByteWithin, PathOk, PathValue, Residual, KeepIn, TableEnv;
    KeepInMembers(t, a.index, a.bounds, rows);
    FilterMembers(h, Residual(list, a.consumed), TableEnv(t), KeepIn(t, a.index, a.bounds, rows));
  }

  /** Where narrowing makes no difference, no row does harm: its presence in the two outputs tells. */
  lemma NarrowedHarmless(h: Host, t: Table, list: seq<Expr>, a: AccessPath, rows: seq<Row>, r: Row)
    requires WellFormed(t) && IsCandidate(h, t, list, a) && PathOk(t, a.index) && AllTyped(t, rows) && r in rows
    requires NarrowS(h, t, list, a, rows) == WideS(h, t, list, rows) && WideS(h, t, list, rows).end == None
    ensures Harmless(h, t, list, a, r)
  {
    hide EvalFrom, IsCandidate, ByteWithin, Harmless, PathOk, PathValue, WellFormed, TableEnv, Typed, Residual, NarrowS;
    NarrowMembers(h, t, list, a, rows);
    FilterMembers(h, list, TableEnv(t), rows);
    hide FilterC;
    RowOfNarrowed(h, t, list, a, r);
  }

  /** A row on which the narrowed filter fails is one on which the clause does. */
  lemma NarrowedFails(h: Host, t: Table, list: seq<Expr>, a: AccessPath, rows: seq<Row>)
    requires WellFormed(t) && IsCandidate(h, t, list, a) && PathOk(t, a.index) && AllTyped(t, rows)
    requires AllHarmless(h, t, list, a, rows) && NarrowS(h, t, list, a, rows).end != None
    ensures WideS(h, t, list, rows).end != None
  {
    hide EvalFrom, IsCandidate, ByteWithin, Misjudged, PathOk, PathValue, WellFormed, TableEnv, Typed, Residual, NarrowS;
    NarrowMembers(h, t, list, a, rows);
    FilterMembers(h, list, TableEnv(t), rows);
    hide FilterC;
    var r :| r in rows && ByteWithin(a.bounds, PathValue(t, a.index, r)) &&
             !EvalFrom(h, True, Residual(list, a.consumed), TableEnv(t), r).Ok?;
    RowRewritten(h, t, list, a, r);
  }

  /**
   * Narrowing the scan and filtering by the residual. If the clause raises no error the outcome is
   * the same if and only if no misjudged row does harm; and then narrowing raises no error of its own.
   */
  lemma FilterNarrowed(h: Host, t: Table, list: seq<Expr>, a: AccessPath, rows: seq<Row>)
    requires WellFormed(t) && IsCandidate(h, t, list, a) && PathOk(t, a.index) && AllTyped(t, rows)
    ensures WideS(h, t, list, rows).end == None ==>
              (NarrowS(h, t, list, a, rows) == WideS(h, t, list, rows) <==> AllHarmless(h, t, list, a, rows))
    ensures AllHarmless(h, t, list, a, rows) && NarrowS(h, t, list, a, rows).end != None ==> WideS(h, t, list, rows).end != None
  {
    hide EvalFrom, IsCandidate, Harmless, PathOk, WellFormed, TableEnv, NarrowS;
    FilterMembers(h, list, TableEnv(t), rows);
    hide FilterC;
    if AllHarmless(h, t, list, a, rows) {
      if WideS(h, t, list, rows).end == None {
        HarmlessNarrows(h, t, list, a, rows);
      } else if NarrowS(h, t, list, a, rows).end != None {
        NarrowedFails(h, t, list, a, rows);
      }
    } else if NarrowS(h, t, list, a, rows) == WideS(h, t, list, rows) && WideS(h, t, list, rows).end == None {
      forall r | r in rows ensures Harmless(h, t, list, a, r) {
        NarrowedHarmless(h, t, list, a, rows, r);
      }
    }
  }

  // ------------------------------------------------------------------
  // Scans
  // ------------------------------------------------------------------

  function FilterInside(es: seq<Entry>, start: Option<bytes>, end: Option<bytes>): seq<Entry> {
    if es == [] then []
    else if InInterval(es[0].key, start, end) then [es[0]] + FilterInside(es[1..], start, end)
    else FilterInside(es[1..], start, end)
  }

  lemma {:induction false} FilterInsideElements(es: seq<Entry>, start: Option<bytes>, end: Option<bytes>)
    ensures forall e :: e in FilterInside(es, start, end) <==> e in es && InInterval(e.key, start, end)
  {
    if es != [] {
      FilterInsideElements(es[1..], start, end);
      assert es == [es[0]] + es[1..];
    }
  }

  lemma {:induction false} FilterInsideAscending(es: seq<Entry>, start: Option<bytes>, end: Option<bytes>)
    requires Ascending(es)
    ensures Ascending(FilterInside(es, start, end))
  {
    if es != [] {
      AscendingTail(es);
      FilterInsideAscending(es[1..], start, end);
      FilterInsideElements(es[1..], start, end);
      ConsAscending(es[0], FilterInside(es[1..], start, end));
    }
  }

  /** A narrower listing is the wider one with the keys outside left out. */
  lemma ListingNarrows(m: Store, s: Option<bytes>, e: Option<bytes>, start: Option<bytes>, end: Option<bytes>)
    requires forall k :: InInterval(k, start, end) ==> InInterval(k, s, e)
    ensures Listing(m, start, end) == FilterInside(Listing(m, s, e), start, end)
  {
    hide InInterval;
    var wide, narrow := Inside(Lift(m), s, e), Inside(Lift(m), start, end);
    var es := Listing(m, s, e);
    FilterInsideAscending(es, start, end);
    FilterInsideElements(es, start, end);
    forall k | k in narrow ensures narrow[k] in FilterInside(es, start, end) {
      assert wide[k] in es;
    }
    ListingUnique(Listing(m, start, end), FilterInside(es, start, end), narrow);
  }

  lemma ScanNarrows(m: Store, t: Table, x: Path, bounds: Range)
    ensures ScanEntries(m, t, x, bounds) ==
            FilterInside(ScanEntries(m, t, x, EVERYTHING),
                         KeyBytes(bounds, PathPrefix(t, x)).0, KeyBytes(bounds, PathPrefix(t, x)).1)
  {
    var p := PathPrefix(t, x);
    forall k | InInterval(k, KeyBytes(bounds, p).0, KeyBytes(bounds, p).1)
      ensures InInterval(k, KeyBytes(EVERYTHING, p).0, KeyBytes(EVERYTHING, p).1)
    {
      KeyBytesStaysInside(bounds, p, k);
      PrefixInterval(p, k);
    }
    ListingNarrows(m, KeyBytes(EVERYTHING, p).0, KeyBytes(EVERYTHING, p).1, KeyBytes(bounds, p).0, KeyBytes(bounds, p).1);
  }

  /** The rows behind scanned entries. */
  function RowsBehind(rows: Rows, x: Path, es: seq<Entry>): (r: seq<Row>)
    ensures |r| == |es|
  {
    if es == [] then []
    else [if EntryPK(x, es[0]) in rows then rows[EntryPK(x, es[0])] else []] + RowsBehind(rows, x, es[1..])
  }

  ghost function ScanRows(m: Store, t: Table, rows: Rows, x: Path, bounds: Range): seq<Row> {
    RowsBehind(rows, x, ScanEntries(m, t, x, bounds))
  }

  /** Every entry stands for the row it is resolved to. */
  ghost predicate Resolved(t: Table, rows: Rows, x: Path, es: seq<Entry>) {
    TypedRows(t, rows) && PathOk(t, x) && forall e :: e in es ==>
      StandsFor(t, rows, x, EVERYTHING, e, EntryPK(x, e)) && KeyPK(x, e.key) == Ok(EntryPK(x, e))
  }

  lemma ScanResolved(m: Store, t: Table, rows: Rows, x: Path, bounds: Range)
    requires Represents(m, t, rows) && PathOk(t, x)
    ensures Resolved(t, rows, x, ScanEntries(m, t, x, bounds))
  {
    hide Represents, ScanEntries, KeyPK;
    RepresentsTyped(m, t, rows);
    forall e | e in ScanEntries(m, t, x, bounds)
      ensures StandsFor(t, rows, x, EVERYTHING, e, EntryPK(x, e)) && KeyPK(x, e.key) == Ok(EntryPK(x, e))
    {
      var p := EntryStandsFor(m, t, rows, x, bounds, e);
    }
  }

  lemma RepresentsTyped(m: Store, t: Table, rows: Rows)
    requires Represents(m, t, rows)
    ensures WellFormed(t) && TypedRows(t, rows)
  {
  }

  lemma {:induction false} RowsBehindAre(t: Table, rows: Rows, x: Path, es: seq<Entry>)
    requires Resolved(t, rows, x, es)
    ensures forall i :: 0 <= i < |es| ==> EntryPK(x, es[i]) in rows && RowsBehind(rows, x, es)[i] == rows[EntryPK(x, es[i])]
    ensures forall r :: r in RowsBehind(rows, x, es) ==> Typed(t, r) && r[t.pk] in rows && rows[r[t.pk]] == r
  {
    hide StandsFor, EntryPK, KeyPK, PathOk, Typed;
    if es != [] {
      ResolvedHead(t, rows, x, es);
      hide Resolved;
      RowsBehindAre(t, rows, x, es[1..]);
    }
  }

  lemma ResolvedHead(t: Table, rows: Rows, x: Path, es: seq<Entry>)
    requires Resolved(t, rows, x, es) && es != []
    ensures Resolved(t, rows, x, es[1..]) && EntryPK(x, es[0]) in rows
    ensures var r := rows[EntryPK(x, es[0])]; Typed(t, r) && t.pk < |r| && r[t.pk] == EntryPK(x, es[0])
  {
    hide KeyPK, EntryPK;
    assert es[0] in es;
  }

  lemma {:induction false} RowsNarrow(t: Table, rows: Rows, x: Path, bounds: Range, es: seq<Entry>)
    requires Resolved(t, rows, x, es)
    ensures forall r :: r in RowsBehind(rows, x, es) ==> |r| == |t.columns|
    ensures RowsBehind(rows, x, FilterInside(es, KeyBytes(bounds, PathPrefix(t, x)).0, KeyBytes(bounds, PathPrefix(t, x)).1)) ==
            KeepIn(t, x, bounds, RowsBehind(rows, x, es))
  {
    hide KeyBytes, StandsFor, InInterval, ByteWithin;
    RowsBehindAre(t, rows, x, es);
    if es != [] {
      assert es[0] in es;
      RowsNarrow(t, rows, x, bounds, es[1..]);
      KeyOfEntry(t, rows, x, es[0]);
      PathKeyInterval(t, x, bounds, rows[EntryPK(x, es[0])]);
    }
  }

  lemma KeyOfEntry(t: Table, rows: Rows, x: Path, e: Entry)
    requires Resolved(t, rows, x, [e])
    ensures EntryPK(x, e) in rows && |rows[EntryPK(x, e)]| == |t.columns|
    ensures e.key == PathKey(t, x, rows[EntryPK(x, e)])
  {
    assert e in [e];
  }

  /** What a scan delivers: each entry's row, decoded through the mask, up to the first failure. */
  function FetchAll(m: Store, t: Table, x: Path, es: seq<Entry>, mask: seq<bool>): Stream {
    if es == [] then Stream([], None)
    else
      match FetchRow(m, t, x, es[0].key, es[0].value, mask)
      case Err(e) => Fails(e)
      case Ok(row) => Cons(row, FetchAll(m, t, x, es[1..], mask))
  }

  function MaskAll(mask: seq<bool>, rows: seq<Row>): (r: seq<Row>)
    requires forall w :: w in rows ==> |w| == |mask|
    ensures |r| == |rows| && forall i :: 0 <= i < |rows| ==> r[i] == Masked(rows[i], mask)
  {
    if rows == [] then [] else [Masked(rows[0], mask)] + MaskAll(mask, rows[1..])
  }

  /** Over a store that represents the table no fetch fails. */
  lemma {:induction false} FetchesAll(m: Store, t: Table, rows: Rows, x: Path, es: seq<Entry>, mask: seq<bool>)
    requires Represents(m, t, rows) && Resolved(t, rows, x, es) && |mask| == |t.columns|
    ensures forall r :: r in RowsBehind(rows, x, es) ==> |r| == |mask|
    ensures FetchAll(m, t, x, es, mask) == Stream(MaskAll(mask, RowsBehind(rows, x, es)), None)
  {
    RowsBehindAre(t, rows, x, es);
    if es != [] {
      assert es[0] in es;
      FetchesOne(m, t, rows, x, es[0], mask);
      FetchesAll(m, t, rows, x, es[1..], mask);
    }
  }

  lemma FetchesOne(m: Store, t: Table, rows: Rows, x: Path, e: Entry, mask: seq<bool>)
    requires Represents(m, t, rows) && Resolved(t, rows, x, [e]) && |mask| == |t.columns|
    ensures EntryPK(x, e) in rows && |rows[EntryPK(x, e)]| == |mask|
    ensures FetchRow(m, t, x, e.key, e.value, mask) == Ok(Masked(rows[EntryPK(x, e)], mask))
  {
    assert e in [e];
    FetchesRow(m, t, rows, x, EVERYTHING, e, EntryPK(x, e), mask);
  }

  /** Rows in strictly ascending path order. */
  ghost predicate Ascends(t: Table, x: Path, rows: seq<Row>) {
    PathOk(t, x) && (forall r :: r in rows ==> |r| == |t.columns|) &&
    forall i, j :: 0 <= i < j < |rows| ==> PathOrder(t, x, rows[i], rows[j]) < 0
  }

  /** A scan returns its rows in the order of the path. */
  lemma ScanAscends(m: Store, t: Table, rows: Rows, x: Path, bounds: Range)
    requires Represents(m, t, rows) && PathOk(t, x)
    ensures Ascends(t, x, ScanRows(m, t, rows, x, bounds))
  {
    hide Represents, KeyPK, PathKey, PathOrder;
    var es := ScanEntries(m, t, x, bounds);
    ScanResolved(m, t, rows, x, bounds);
    RowsBehindAre(t, rows, x, es);
    forall i, j | 0 <= i < j < |es|
      ensures PathOrder(t, x, RowsBehind(rows, x, es)[i], RowsBehind(rows, x, es)[j]) < 0
    {
      hide StandsFor;
      assert es[i] in es && es[j] in es;
      KeyOfEntry(t, rows, x, es[i]);
      KeyOfEntry(t, rows, x, es[j]);
      assert Before(es[i].key, es[j].key);
      PathKeyOrder(t, x, rows[EntryPK(x, es[i])], rows[EntryPK(x, es[j])]);
    }
  }

  /** Rows that ascend are all different: no row comes before itself. */
  lemma AscendsDistinct(t: Table, x: Path, rows: seq<Row>, i: nat, j: nat)
    requires Ascends(t, x, rows) && i < j < |rows|
    ensures rows[i] != rows[j]
  {
    var r := rows[i];
    assert r in rows;
    ByteOrderSelf(r[t.pk], r[t.pk]);
    ByteOrderSelf(r[PathColumn(t, x)], r[PathColumn(t, x)]);
  }

  /** The row of every key turns up in a full scan, and every row it yields is the row of its key. */
  lemma FullScanRows(m: Store, t: Table, rows: Rows, x: Path, r: Row)
    requires Represents(m, t, rows) && PathOk(t, x)
    ensures r in ScanRows(m, t, rows, x, EVERYTHING) <==> t.pk < |r| && r[t.pk] in rows && rows[r[t.pk]] == r
  {
    hide KeyPK, PathKey;
    RepresentsTyped(m, t, rows);
    hide Represents;
    var es := ScanEntries(m, t, x, EVERYTHING);
    ScanResolved(m, t, rows, x, EVERYTHING);
    RowsBehindAre(t, rows, x, es);
    hide Resolved;
    if t.pk < |r| && r[t.pk] in rows && rows[r[t.pk]] == r {
      var e := RowIsScanned(m, t, rows, x, EVERYTHING, r[t.pk]);
      var i :| 0 <= i < |es| && es[i] == e;
      assert RowsBehind(rows, x, es)[i] == r;
    }
  }

  /** The full scan of a path is the table: every row of it, once, in path order. */
  lemma FullScanIsTable(m: Store, t: Table, rows: Rows, x: Path)
    requires Represents(m, t, rows) && PathOk(t, x)
    ensures Ascends(t, x, ScanRows(m, t, rows, x, EVERYTHING))
    ensures forall r :: r in ScanRows(m, t, rows, x, EVERYTHING) <==> t.pk < |r| && r[t.pk] in rows && rows[r[t.pk]] == r
    ensures forall i, j :: 0 <= i < j < |ScanRows(m, t, rows, x, EVERYTHING)| ==>
                             ScanRows(m, t, rows, x, EVERYTHING)[i] != ScanRows(m, t, rows, x, EVERYTHING)[j]
  {
    hide *;
    ScanAscends(m, t, rows, x, EVERYTHING);
    forall r ensures r in ScanRows(m, t, rows, x, EVERYTHING) <==> t.pk < |r| && r[t.pk] in rows && rows[r[t.pk]] == r {
      FullScanRows(m, t, rows, x, r);
    }
    var all := ScanRows(m, t, rows, x, EVERYTHING);
    forall i, j | 0 <= i < j < |all| ensures all[i] != all[j] {
      AscendsDistinct(t, x, all, i, j);
    }
  }

  /** An open scan over a view that stands still delivers what FetchAll says. */
  method NextFetched(s: Scan) returns (r: Result<Option<Row>>)
    requires s.it.Valid() && s.rw.Valid() && !s.done
    modifies s`done, s.it, s.it.base
    ensures s.it.Valid()
    ensures Delivers(old(FetchAll(s.rw.View(), s.table, s.path, s.it.Rest(), s.mask)), r,
                     FetchAll(s.rw.View(), s.table, s.path, s.it.Rest(), s.mask))
  {
    ghost var es, m := s.it.Rest(), s.rw.View();
    r := s.Next();
    assert s.rw.View() == m;
    if es != [] && FetchRow(m, s.table, s.path, es[0].key, es[0].value, s.mask).Ok? {
      ConsTail(FetchRow(m, s.table, s.path, es[0].key, es[0].value, s.mask).value,
               FetchAll(m, s.table, s.path, es[1..], s.mask));
    }
  }

  // ------------------------------------------------------------------
  // NULL below an open range
  // ------------------------------------------------------------------

  /** `k < 5` */
  function ExampleWhere(): Expr { Binary(LtOp, Expr.Column([], [0x6B]), Literal(Int(5))) }

  function ExamplePath(): AccessPath {
    var r := Range.Range(Unset, At(Int(5), false));
    AccessPath(Some(Example().indexes[0]), r, IndexCost(r), {0}, [0x6B])
  }

  lemma ExampleSarg(h: Host)
    ensures Sargable(h, Example(), ExampleWhere()) == Some(Sarg([0x6B], ExamplePath().bounds))
    ensures Example().ColumnIndex([0x6B]) == Some(1)
  {
    assert Example().ColumnIndex([0x6B]) == Some(1);
  }

  lemma ExampleCandidate(h: Host)
    ensures Candidate(h, Example(), [ExampleWhere()], ExamplePath().index) == Some(ExamplePath())
    ensures Residual([ExampleWhere()], ExamplePath().consumed) == []
  {
    var t, list, r := Example(), [ExampleWhere()], ExamplePath().bounds;
    ExampleSarg(h);
    hide Sargable, ExampleWhere;
    assert list[..0] == [];
    assert RangeOn(h, t, list, [0x6B]) == Some(r);
    assert OwnersOn(h, t, list, [0x6B]) == {0};
  }

  /** The planner has no other range to choose: nothing is said about the primary key, and there is one index. */
  lemma ExampleChosen(h: Host)
    ensures ExamplePath().cost < FullScan(Example()).cost
    ensures IsCandidate(h, Example(), [ExampleWhere()], ExamplePath())
    ensures Cheapest(h, Example(), [ExampleWhere()], ExamplePath())
    ensures FirstOfItsCost(h, Example(), [ExampleWhere()], ExamplePath())
  {
    var t, list, a := Example(), [ExampleWhere()], ExamplePath();
    ExampleCandidate(h);
    ExampleSarg(h);
    hide Sargable, ExampleWhere;
    assert a.index == Some(t.indexes[0]);
    assert list[..0] == [];
    assert RangeOn(h, t, list, [0x61]) == None;
    assert Candidate(h, t, list, None) == None;
    assert FirstIndex(h, t, list, a, 0);
    forall b | IsCandidate(h, t, list, b) ensures a.cost <= b.cost {
      if b != FullScan(t) && b.index.Some? {
        assert b.index == a.index;
      }
    }
  }

  /** That is the only path of its cost. */
  lemma ExampleOnly(h: Host, a: AccessPath)
    requires IsCandidate(h, Example(), [ExampleWhere()], a) && Cheapest(h, Example(), [ExampleWhere()], a)
    ensures a == ExamplePath()
  {
    ExampleChosen(h);
    ExampleCandidate(h);
    ExampleSarg(h);
    hide Sargable, ExampleWhere;
    assert [ExampleWhere()][..0] == [];
    assert RangeOn(h, Example(), [ExampleWhere()], [0x61]) == None;
  }

  lemma ExampleAnswers(h: Host)
    ensures !IsKept(h, Example(), [ExampleWhere()], [Int(1), Null])
  {
    var t, row := Example(), [Int(1), Null];
    ExampleSarg(h);
    SargMeans(h, t, ExampleWhere(), row);
    hide EvalPredicate, Sargable, ExampleWhere;
    KeepsWhenAllTrue(h, [ExampleWhere()], TableEnv(t), row);
  }

  lemma NothingKept(h: Host, t: Table, row: Row)
    ensures IsKept(h, t, [], row)
  {
  }

  /**
   * `k < 5` over an index on k: whatever cheapest path the planner picks is a range that starts at
   * NULL and consumes the predicate, so that a row comes back on which the clause is not TRUE.
   */
  lemma NullStrays(h: Host, a: AccessPath)
    requires IsCandidate(h, Example(), [ExampleWhere()], a) && Cheapest(h, Example(), [ExampleWhere()], a)
    ensures var t, list, row := Example(), [ExampleWhere()], [Int(1), Null];
            && WellFormed(t) && Typed(t, row) && PathOk(t, a.index)
            && Stray(t, a, row) && ByteWithin(a.bounds, PathValue(t, a.index, row))
            && IsKept(h, t, Residual(list, a.consumed), row) && !IsKept(h, t, list, row)
  {
    hide EvalPredicate, Sargable, Candidate, RangeOn, Cheapest, IsCandidate, ExampleWhere, IsKept, EvalFrom;
    var t, row := Example(), [Int(1), Null];
    ExampleOnly(h, a);
    ExampleCandidate(h);
    ExampleAnswers(h);
    NothingKept(h, t, row);
  }
}
