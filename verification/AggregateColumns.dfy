// What stands in each column of an aggregation's output (exec/aggregate.go), function by function, in
// terms of the rows of the group and the values its argument has on them.
module AggregateColumns {
  import opened Bytes
  import opened Values
  import opened KeyCodec
  import opened Ast
  import opened Eval
  import opened Parser
  import opened Streams
  import opened Semantics
  import opened Delivery
  import opened Aggregates

  // ------------------------------------------------------------------
  // The rows of a group and the values that count
  // ------------------------------------------------------------------

  /** The row has these group values, and they encode to the key. */
  ghost predicate BelongsTo(h: Host, groupBy: seq<Expr>, env: Env, row: Row, key: bytes) {
    exists values :: AllValues(h, groupBy, env, row, Ok(values)) && EncAll(values) == key
  }

  lemma KeyOfMeans(h: Host, groupBy: seq<Expr>, env: Env, row: Row, key: bytes)
    ensures KeyOf(h, groupBy, env, row) == Some(key) <==> BelongsTo(h, groupBy, env, row, key)
  {
    EvalAllMeans(h, groupBy, env, row);
    hide EvalAll, EvalExpr;
    if values :| AllValues(h, groupBy, env, row, Ok(values)) && EncAll(values) == key {
      ValuesUnique(h, groupBy, env, row, EvalAll(h, groupBy, env, row), values);
    }
  }

  lemma ValuesUnique(h: Host, exprs: seq<Expr>, env: Env, row: Row, r: Result<Row>, values: Row)
    requires AllValues(h, exprs, env, row, r) && AllValues(h, exprs, env, row, Ok(values))
    ensures r == Ok(values)
  {
    hide EvalExpr;
    if r.Ok? {
      assert r.value == values;
    }
  }

  lemma BucketHead(h: Host, groupBy: seq<Expr>, env: Env, rows: seq<Row>, key: bytes)
    requires rows != []
    ensures var more := Bucket(h, groupBy, env, rows[1..], key);
            Bucket(h, groupBy, env, rows, key) == if BelongsTo(h, groupBy, env, rows[0], key) then [rows[0]] + more else more
  {
    hide KeyOf, BelongsTo;
    KeyOfMeans(h, groupBy, env, rows[0], key);
  }

  /** A group's rows are the input rows that belong to it, in input order. */
  lemma {:induction false} BucketPicks(h: Host, groupBy: seq<Expr>, env: Env, rows: seq<Row>, key: bytes) returns (idx: seq<nat>)
    ensures Picks(idx, |rows|) && Picked(Bucket(h, groupBy, env, rows, key), rows, idx)
    ensures forall k: nat :: k in idx <==> k < |rows| && BelongsTo(h, groupBy, env, rows[k], key)
  {
    idx := [];
    if rows != [] {
      hide KeyOf, BelongsTo, Bucket, Picks, Picked, Onward;
      var rest := BucketPicks(h, groupBy, env, rows[1..], key);
      BucketHead(h, groupBy, env, rows, key);
      var keep := BelongsTo(h, groupBy, env, rows[0], key);
      idx := Onward(keep, rest);
      OnwardPicks(keep, rest, |rows| - 1);
      OnwardPicked(keep, Bucket(h, groupBy, env, rows[1..], key), rows, rest);
      forall k: nat ensures k in idx <==> k < |rows| && BelongsTo(h, groupBy, env, rows[k], key) {
        OnwardMembers(keep, rest, if k > 0 then k - 1 else 0);
        if 0 < k < |rows| {
          assert rows[1..][k - 1] == rows[k];
        }
      }
    } else {
      assert Bucket(h, groupBy, env, rows, key) == [];
    }
  }

  /** The values that are not NULL, in order. */
  lemma {:induction false} NonNullPicks(vs: seq<Value>) returns (idx: seq<nat>)
    ensures Picks(idx, |vs|) && Picked(NonNull(vs), vs, idx)
    ensures forall k: nat :: k in idx <==> k < |vs| && !vs[k].Null?
  {
    idx := [];
    if vs != [] {
      var rest := NonNullPicks(vs[1..]);
      var keep := !vs[0].Null?;
      idx := Onward(keep, rest);
      OnwardPicks(keep, rest, |vs| - 1);
      OnwardPicked(keep, NonNull(vs[1..]), vs, rest);
      hide Picks, Picked, Onward;
      forall k: nat ensures k in idx <==> k < |vs| && !vs[k].Null? {
        OnwardMembers(keep, rest, if k > 0 then k - 1 else 0);
        if 0 < k < |vs| {
          assert vs[1..][k - 1] == vs[k];
        }
      }
    }
  }

  // ------------------------------------------------------------------
  // The functions
  // ------------------------------------------------------------------

  /** sums adds up ws from its first value on, one after the other, as `+` computes. */
  ghost predicate RunningSums(h: Host, ws: seq<Value>, sums: seq<Value>) {
    && |sums| == |ws| > 0 && sums[0] == ws[0]
    && forall i :: 0 < i < |ws| ==> Computes(h, ArithOp.Add, sums[i - 1], ws[i], sums[i])
  }

  /** Float sums from 0.0 on. */
  ghost predicate RunningFloats(h: Host, ws: seq<Value>, sums: seq<bits64>) {
    && |sums| == |ws| + 1 && sums[0] == 0
    && forall i :: 0 <= i < |ws| ==> sums[i + 1] == h.add(sums[i], FloatOf(h, ws[i]))
  }

  /** What a call has to deliver over n rows on which its argument has the values vs. */
  ghost predicate ColumnIs(h: Host, call: AggCall, vs: seq<Value>, out: Value) {
    var present := NonNull(vs);
    if call.func == COUNT then out.Int? && Congruent(out.i, if call.arg.None? then |vs| else |present|)
    else if call.func == MIN then
      (out.Null? <==> present == []) && (!out.Null? ==> out in present && forall v :: v in present ==> !Earlier(v, out))
    else if call.func == MAX then
      (out.Null? <==> present == []) && (!out.Null? ==> out in present && forall v :: v in present ==> !Earlier(out, v))
    else if call.func == SUM then
      && (out.Null? <==> present == [])
      && (present != [] ==> exists sums :: RunningSums(h, present, sums) && out == sums[|sums| - 1])
      && (IntsOrNulls(vs) && present != [] ==> out.Int? && Congruent(out.i, IntTotal(vs)))
    else
      && call.func == AVG
      && (out.Null? <==> Congruent(|present|, 0))
      && (!out.Null? ==> exists sums, n: int64 :: RunningFloats(h, present, sums) && Congruent(n, |present|) &&
                                                  out == Float(h.div(sums[|present|], h.ofInt(n))))
  }

  lemma CongruentAdd(a: int, b: int, c: int)
    requires Congruent(a, b)
    ensures Congruent(a + c, b + c)
  {
  }

  lemma NoneIsNull(vs: seq<Value>)
    ensures forall v :: v in NonNull(vs) ==> !v.Null? && v in vs
  {
    var idx := NonNullPicks(vs);
    forall v | v in NonNull(vs) ensures !v.Null? && v in vs {
      var i :| 0 <= i < |NonNull(vs)| && NonNull(vs)[i] == v;
      assert idx[i] in idx;
    }
  }

  lemma CountColumn(h: Host, call: AggCall, vs: seq<Value>)
    requires call.func == COUNT
    ensures FoldFrom(h, NewAcc(call), vs).Ok? && ColumnIs(h, call, vs, Outcome(h, FoldFrom(h, NewAcc(call), vs).value))
  {
    CountMeans(h, call.arg.None?, 0, vs);
    WrapMeans(if call.arg.None? then |vs| else |NonNull(vs)|);
    hide FoldArgs, Wrap, Congruent, NonNull;
  }

  lemma NotEarlier(want: int, best: Value, vs: seq<Value>)
    requires Extreme(want, best, vs) && want in {-1, 1}
    ensures forall v :: v in NonNull(vs) ==> if want < 0 then !Earlier(v, best) else !Earlier(best, v)
  {
    NoneIsNull(vs);
    hide NonNull, Earlier, Order;
    forall v | v in NonNull(vs) ensures if want < 0 then !Earlier(v, best) else !Earlier(best, v) {
      OrderMeans(best, v);
      OrderRange(best, v);
    }
  }

  lemma ExtremeColumn(h: Host, call: AggCall, vs: seq<Value>)
    requires call.func == MIN || call.func == MAX
    ensures FoldFrom(h, NewAcc(call), vs).Ok? && ColumnIs(h, call, vs, Outcome(h, FoldFrom(h, NewAcc(call), vs).value))
  {
    var want := if call.func == MIN then -1 else 1;
    ExtremeMeans(h, want, Null, false, vs);
    var acc := FoldArgs(h, ExtremeAcc(want, Null, false), vs).value;
    hide FoldArgs, NonNull, Earlier, Extreme;
    if acc.found {
      NotEarlier(want, acc.best, vs);
    }
  }

  /** Running sums of the values present, from the total so far. */
  lemma {:induction false} SumRuns(h: Host, total: Value, vs: seq<Value>) returns (sums: seq<Value>)
    requires FoldArgs(h, SumAcc(total, true), vs).Ok? && total.IsNumeric()
    ensures RunningSums(h, [total] + NonNull(vs), sums) && sums[|sums| - 1].IsNumeric()
    ensures FoldArgs(h, SumAcc(total, true), vs) == Ok(SumAcc(sums[|sums| - 1], true))
    decreases |vs|
  {
    if vs == [] {
      sums := [total];
    } else if vs[0].Null? {
      sums := SumRuns(h, total, vs[1..]);
    } else {
      ArithMeans(h, ArithOp.Add, total, vs[0]);
      var next := Arith(h, ArithOp.Add, total, vs[0]).value;
      SumNumeric(h, total, vs[0]);
      hide Arith, Computes;
      var rest := SumRuns(h, next, vs[1..]);
      sums := [total] + rest;
      SumsCons(h, total, vs[0], next, NonNull(vs[1..]), rest);
    }
  }

  lemma SumNumeric(h: Host, a: Value, b: Value)
    requires a.IsNumeric() && b.IsNumeric()
    ensures Arith(h, ArithOp.Add, a, b).Ok? && Arith(h, ArithOp.Add, a, b).value.IsNumeric()
  {
  }

  lemma SumsCons(h: Host, total: Value, v: Value, next: Value, ws: seq<Value>, rest: seq<Value>)
    requires RunningSums(h, [next] + ws, rest) && Computes(h, ArithOp.Add, total, v, next)
    ensures RunningSums(h, [total] + ([v] + ws), [total] + rest)
  {
    hide Computes;
    var all, sums := [total] + ([v] + ws), [total] + rest;
    forall i | 0 < i < |all| ensures Computes(h, ArithOp.Add, sums[i - 1], all[i], sums[i]) {
      if i > 1 {
        assert all[i] == ([next] + ws)[i - 1];
      }
    }
  }

  /** The first value present starts the sum. */
  lemma {:induction false} SumStarts(h: Host, vs: seq<Value>) returns (sums: seq<Value>)
    requires FoldArgs(h, SumAcc(Null, false), vs).Ok?
    ensures NonNull(vs) == [] ==> FoldArgs(h, SumAcc(Null, false), vs) == Ok(SumAcc(Null, false))
    ensures NonNull(vs) != [] ==> RunningSums(h, NonNull(vs), sums) && sums[|sums| - 1].IsNumeric() &&
                                  FoldArgs(h, SumAcc(Null, false), vs) == Ok(SumAcc(sums[|sums| - 1], true))
    decreases |vs|
  {
    sums := [];
    if vs != [] {
      if vs[0].Null? {
        sums := SumStarts(h, vs[1..]);
      } else {
        sums := SumRuns(h, vs[0], vs[1..]);
      }
    }
  }

  lemma SumColumn(h: Host, call: AggCall, vs: seq<Value>)
    requires call.func == SUM && FoldFrom(h, NewAcc(call), vs).Ok?
    ensures ColumnIs(h, call, vs, Outcome(h, FoldFrom(h, NewAcc(call), vs).value))
  {
    var sums := SumStarts(h, vs);
    if IntsOrNulls(vs) {
      SumMeans(h, 0, false, vs);
      WrapMeans(IntTotal(vs));
    }
    hide FoldArgs, NonNull, RunningSums, Wrap, Congruent, IntsOrNulls, IntTotal;
  }

  lemma {:induction false} AvgRuns(h: Host, sum: bits64, n: int64, vs: seq<Value>) returns (sums: seq<bits64>)
    requires FoldArgs(h, AvgAcc(sum, n), vs).Ok?
    ensures |sums| == |NonNull(vs)| + 1 && sums[0] == sum
    ensures forall i :: 0 <= i < |NonNull(vs)| ==> sums[i + 1] == h.add(sums[i], FloatOf(h, NonNull(vs)[i]))
    ensures FoldArgs(h, AvgAcc(sum, n), vs) == Ok(AvgAcc(sums[|NonNull(vs)|], Wrap(n + |NonNull(vs)|)))
    decreases |vs|
  {
    sums := [sum];
    if vs != [] {
      if vs[0].Null? {
        sums := AvgRuns(h, sum, n, vs[1..]);
      } else {
        var next := h.add(sum, FloatOf(h, vs[0]));
        var rest := AvgRuns(h, next, Wrap(n + 1), vs[1..]);
        sums := [sum] + rest;
        WrapStep(n + 1, |NonNull(vs[1..])|);
        assert FoldArgs(h, AvgAcc(sum, n), vs) == FoldArgs(h, AvgAcc(next, Wrap(n + 1)), vs[1..]);
        hide FoldArgs, Wrap;
        forall i | 0 <= i < |NonNull(vs)| ensures sums[i + 1] == h.add(sums[i], FloatOf(h, NonNull(vs)[i])) {
          if i > 0 {
            assert NonNull(vs)[i] == NonNull(vs[1..])[i - 1];
          }
        }
      }
    }
  }

  lemma AvgColumn(h: Host, call: AggCall, vs: seq<Value>)
    requires call.func == AVG && FoldFrom(h, NewAcc(call), vs).Ok?
    ensures ColumnIs(h, call, vs, Outcome(h, FoldFrom(h, NewAcc(call), vs).value))
  {
    var sums := AvgRuns(h, 0, 0, vs);
    var n := Wrap(|NonNull(vs)|);
    WrapMeans(|NonNull(vs)|);
    WrapZero(|NonNull(vs)|);
    hide FoldArgs, NonNull, Wrap, Congruent;
    assert RunningFloats(h, NonNull(vs), sums);
  }

  lemma WrapZero(x: int)
    ensures Wrap(x) == 0 <==> Congruent(x, 0)
  {
  }

  /** Each call delivers what its function asks for, NewAcc and the fold notwithstanding. */
  lemma ColumnMeans(h: Host, call: AggCall, vs: seq<Value>)
    requires FoldFrom(h, NewAcc(call), vs).Ok?
    ensures ColumnIs(h, call, vs, Outcome(h, FoldFrom(h, NewAcc(call), vs).value))
  {
    if call.func == COUNT {
      CountColumn(h, call, vs);
    } else if call.func == MIN || call.func == MAX {
      ExtremeColumn(h, call, vs);
    } else if call.func == SUM {
      SumColumn(h, call, vs);
    } else {
      AvgColumn(h, call, vs);
    }
  }

  // ------------------------------------------------------------------
  // The output of an aggregation
  // ------------------------------------------------------------------

  /** vs are the values of the call's argument on the rows; COUNT(*) has none to look at. */
  ghost predicate ArgumentsAre(h: Host, call: AggCall, env: Env, rows: seq<Row>, vs: seq<Value>) {
    |vs| == |rows| && forall k :: 0 <= k < |rows| ==>
      if call.arg.None? then vs[k].Null? else EvalExpr(h, call.arg.value, env, rows[k]) == Ok(vs[k])
  }

  lemma TakeRowArgs(h: Host, groupBy: seq<Expr>, calls: seq<AggCall>, env: Env, groups: Groups, row: Row, i: nat)
    requires Shaped(groups, |calls|) && i < |calls| && TakeRow(h, groupBy, calls, env, groups, row).Ok?
    ensures ArgOf(h, calls[i], env, row).Ok?
  {
    hide ArgOf, AddTo, EvalAll, NewAccs;
  }

  lemma GatherStep(h: Host, groupBy: seq<Expr>, calls: seq<AggCall>, env: Env, groups: Groups, s: Stream)
    requires Shaped(groups, |calls|) && s.rows != [] && Gather(h, groupBy, calls, env, groups, s).Ok?
    ensures var t := TakeRow(h, groupBy, calls, env, groups, s.rows[0]);
            t.Ok? && Shaped(t.value, |calls|) && Gather(h, groupBy, calls, env, t.value, Tail(s)).Ok?
  {
    hide TakeRow, Shaped;
  }

  lemma {:induction false} GatherArgs(h: Host, groupBy: seq<Expr>, calls: seq<AggCall>, env: Env, groups: Groups,
                                      s: Stream, i: nat)
    requires Shaped(groups, |calls|) && i < |calls| && Gather(h, groupBy, calls, env, groups, s).Ok?
    ensures forall r :: r in s.rows ==> ArgOf(h, calls[i], env, r).Ok?
    decreases |s.rows|
  {
    hide TakeRow, Gather, ArgOf, Shaped;
    if s.rows != [] {
      GatherStep(h, groupBy, calls, env, groups, s);
      TakeRowArgs(h, groupBy, calls, env, groups, s.rows[0], i);
      GatherArgs(h, groupBy, calls, env, TakeRow(h, groupBy, calls, env, groups, s.rows[0]).value, Tail(s), i);
      assert s.rows == [s.rows[0]] + s.rows[1..];
    }
  }

  lemma {:induction false} ArgsAre(h: Host, call: AggCall, env: Env, rows: seq<Row>)
    requires forall r :: r in rows ==> ArgOf(h, call, env, r).Ok?
    ensures ArgumentsAre(h, call, env, rows, Args(h, call, env, rows))
  {
    if rows != [] {
      assert rows[0] in rows;
      ArgsAre(h, call, env, rows[1..]);
      hide EvalExpr;
      var vs := Args(h, call, env, rows);
      forall k | 0 <= k < |rows|
        ensures if call.arg.None? then vs[k].Null? else EvalExpr(h, call.arg.value, env, rows[k]) == Ok(vs[k])
      {
        if k > 0 {
          assert rows[k] == rows[1..][k - 1] && vs[k] == vs[1..][k - 1];
        }
      }
    }
  }

  /** One row of the output: the values all rows of the group have, then what each function asks for over them. */
  ghost predicate GroupDelivered(h: Host, groupBy: seq<Expr>, calls: seq<AggCall>, env: Env, rows: seq<Row>, key: bytes, out: Row) {
    && |out| == |groupBy| + |calls| && EncAll(out[..|groupBy|]) == key
    && (forall r :: r in Bucket(h, groupBy, env, rows, key) ==> AllValues(h, groupBy, env, r, Ok(out[..|groupBy|])))
    && forall i :: 0 <= i < |calls| ==> ColumnDelivered(h, calls[i], env, Bucket(h, groupBy, env, rows, key), out[|groupBy| + i])
  }

  ghost predicate ColumnDelivered(h: Host, call: AggCall, env: Env, rows: seq<Row>, out: Value) {
    exists vs :: ArgumentsAre(h, call, env, rows, vs) && ColumnIs(h, call, vs, out)
  }

  lemma BucketMembers(h: Host, groupBy: seq<Expr>, env: Env, rows: seq<Row>, key: bytes)
    ensures forall r :: r in Bucket(h, groupBy, env, rows, key) ==> r in rows && BelongsTo(h, groupBy, env, r, key)
  {
    hide BelongsTo, Bucket;
    var idx := BucketPicks(h, groupBy, env, rows, key);
    forall r | r in Bucket(h, groupBy, env, rows, key) ensures r in rows && BelongsTo(h, groupBy, env, r, key) {
      var i :| 0 <= i < |idx| && Bucket(h, groupBy, env, rows, key)[i] == r;
      assert idx[i] in idx;
    }
  }

  /** Whatever row of the group one looks at, its group values are those delivered. */
  lemma SameGroupValues(h: Host, groupBy: seq<Expr>, env: Env, row: Row, values: Row)
    requires BelongsTo(h, groupBy, env, row, EncAll(values)) && |values| == |groupBy|
    ensures AllValues(h, groupBy, env, row, Ok(values))
  {
    var own :| AllValues(h, groupBy, env, row, Ok(own)) && EncAll(own) == EncAll(values);
    if own != values {
      EncodeAllPrefixFree(own, values);
    }
  }

  lemma RowDelivered(h: Host, groupBy: seq<Expr>, calls: seq<AggCall>, env: Env, s: Stream, key: bytes, values: Row, out: Row)
    requires Gather(h, groupBy, calls, env, map[], s).Ok?
    requires IsGroupRow(h, groupBy, calls, env, s.rows, key, values, out)
    ensures GroupDelivered(h, groupBy, calls, env, s.rows, key, out)
  {
    var bucket := Bucket(h, groupBy, env, s.rows, key);
    BucketMembers(h, groupBy, env, s.rows, key);
    hide Gather, Bucket, FoldFrom, ColumnIs, ArgumentsAre, AllValues, BelongsTo, Outcome, NewAcc, EncAll;
    forall r | r in bucket ensures AllValues(h, groupBy, env, r, Ok(out[..|groupBy|])) {
      SameGroupValues(h, groupBy, env, r, values);
    }
    forall i | 0 <= i < |calls| ensures ColumnDelivered(h, calls[i], env, bucket, out[|groupBy| + i]) {
      GatherArgs(h, groupBy, calls, env, map[], s, i);
      ArgsAre(h, calls[i], env, bucket);
      ColumnMeans(h, calls[i], Args(h, calls[i], env, bucket));
    }
  }

  /**
   * The output of an aggregation without an error, one row for each key in ascending order: the group's
   * values, and per call the number of rows or values, the least, the greatest, the sum or the mean.
   */
  lemma AggregateDelivers(h: Host, groupBy: seq<Expr>, calls: seq<AggCall>, env: Env, s: Stream) returns (ks: seq<bytes>)
    requires AggregateS(h, groupBy, calls, env, s).end.None?
    ensures |AggregateS(h, groupBy, calls, env, s).rows| == |ks| && forall i, j :: 0 <= i < j < |ks| ==> Before(ks[i], ks[j])
    ensures forall k :: k in ks <==> (exists r :: r in s.rows && BelongsTo(h, groupBy, env, r, k)) || (groupBy == [] && k == [])
    ensures forall j :: 0 <= j < |ks| ==>
              GroupDelivered(h, groupBy, calls, env, s.rows, ks[j], AggregateS(h, groupBy, calls, env, s).rows[j])
  {
    hide Gather, IsGroupRow, GroupDelivered, Bucket, BelongsTo, WithDefault, Distinct, BucketTotal, KeyOf;
    var values;
    ks, values := AggregateIsPartition(h, groupBy, calls, env, s);
    forall j | 0 <= j < |ks|
      ensures GroupDelivered(h, groupBy, calls, env, s.rows, ks[j], AggregateS(h, groupBy, calls, env, s).rows[j])
    {
      RowDelivered(h, groupBy, calls, env, s, ks[j], values[j], AggregateS(h, groupBy, calls, env, s).rows[j]);
    }
    forall k ensures Bucket(h, groupBy, env, s.rows, k) != [] <==> exists r :: r in s.rows && BelongsTo(h, groupBy, env, r, k) {
      BucketWhen(h, groupBy, env, s.rows, k);
    }
  }

  lemma BucketWhen(h: Host, groupBy: seq<Expr>, env: Env, rows: seq<Row>, key: bytes)
    ensures Bucket(h, groupBy, env, rows, key) != [] <==> exists r :: r in rows && BelongsTo(h, groupBy, env, r, key)
  {
    hide BelongsTo, Bucket;
    var idx := BucketPicks(h, groupBy, env, rows, key);
    if r :| r in rows && BelongsTo(h, groupBy, env, r, key) {
      var k :| 0 <= k < |rows| && rows[k] == r;
      assert k in idx;
    }
    if Bucket(h, groupBy, env, rows, key) != [] {
      BucketMembers(h, groupBy, env, rows, key);
      assert Bucket(h, groupBy, env, rows, key)[0] in Bucket(h, groupBy, env, rows, key);
    }
  }
}
