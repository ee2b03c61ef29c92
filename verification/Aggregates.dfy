// Accumulators and hash aggregation (exec/aggregate.go).
module Aggregates {
  import opened Bytes
  import opened Values
  import opened KeyCodec
  import opened Ast
  import opened Eval
  import opened Parser
  import opened Storage
  import opened Streams
  import opened Operators

  // ------------------------------------------------------------------
  // Accumulators
  // ------------------------------------------------------------------

  /** No argument is COUNT(*). */
  datatype AggCall = AggCall(func: bytes, arg: Option<Expr>)

  datatype Acc =
    | CountAcc(all: bool, n: int64)
    | SumAcc(total: Value, any: bool)
    | AvgAcc(sum: bits64, n: int64)
    | ExtremeAcc(want: int, best: Value, found: bool)

  function NewAcc(call: AggCall): Result<Acc> {
    if call.func == COUNT then Ok(CountAcc(call.arg.None?, 0))
    else if call.func == SUM then Ok(SumAcc(Null, false))
    else if call.func == AVG then Ok(AvgAcc(0, 0))
    else if call.func == MIN then Ok(ExtremeAcc(-1, Null, false))
    else if call.func == MAX then Ok(ExtremeAcc(1, Null, false))
    else Err(NotFound)
  }

  /** Takes one argument in; everything but COUNT(*) passes NULL over. */
  function AddTo(h: Host, acc: Acc, v: Value): Result<Acc> {
    match acc
    case CountAcc(all, n) => Ok(if all || !v.Null? then CountAcc(all, Wrap(n + 1)) else acc)
    case SumAcc(total, any) =>
      if v.Null? then Ok(acc)
      else if !v.IsNumeric() then Err(TypeMismatch)
      else if !any then Ok(SumAcc(v, true))
      else
        var sum :- Arith(h, ArithOp.Add, total, v);
        Ok(SumAcc(sum, true))
    case AvgAcc(sum, n) =>
      if v.Null? then Ok(acc)
      else if !v.IsNumeric() then Err(TypeMismatch)
      else Ok(AvgAcc(h.add(sum, AsFloat(h, v)), Wrap(n + 1)))
    case ExtremeAcc(want, best, found) =>
      if v.Null? then Ok(acc)
      else if !found then Ok(ExtremeAcc(want, v, true))
      else
        var c := Order(v, best);
        Ok(if (want < 0 && c < 0) || (want > 0 && c > 0) then ExtremeAcc(want, v, true) else acc)
  }

  function Outcome(h: Host, acc: Acc): Value {
    match acc
    case CountAcc(_, n) => Int(n)
    case SumAcc(total, any) => if any then total else Null
    case AvgAcc(sum, n) => if n == 0 then Null else Float(h.div(sum, h.ofInt(n)))
    case ExtremeAcc(_, best, found) => if found then best else Null
  }

  function FoldArgs(h: Host, acc: Acc, vs: seq<Value>): Result<Acc>
    decreases |vs|
  {
    if vs == [] then Ok(acc)
    else
      var next :- AddTo(h, acc, vs[0]);
      FoldArgs(h, next, vs[1..])
  }

  // ------------------------------------------------------------------
  // What each accumulator computes
  // ------------------------------------------------------------------

  function NonNull(vs: seq<Value>): seq<Value> {
    if vs == [] then [] else if vs[0].Null? then NonNull(vs[1..]) else [vs[0]] + NonNull(vs[1..])
  }

  /** Wrapping a summand does not change the wrapped sum. */
  lemma WrapLeft(a: int, b: int)
    ensures Wrap(Wrap(a) + b) == Wrap(a + b)
  {
    var q := (a + TWO_63) / TWO_64;
    assert Wrap(a) == a - q * TWO_64;
    WrapPeriod(a + b, -q);
  }

  lemma WrapPeriod(x: int, k: int)
    ensures Wrap(x + k * TWO_64) == Wrap(x)
  {
  }

  lemma WrapStep(a: int, b: int)
    ensures Wrap(Wrap(a) + b) == Wrap(a + b) == Wrap(a + Wrap(b))
  {
    hide Wrap;
    WrapLeft(a, b);
    WrapLeft(b, a);
  }

  /** COUNT(*) is the number of rows and COUNT(x) the number of values present, as 64-bit numbers. */
  lemma {:induction false} CountMeans(h: Host, all: bool, n: int64, vs: seq<Value>)
    ensures FoldArgs(h, CountAcc(all, n), vs) == Ok(CountAcc(all, Wrap(n + if all then |vs| else |NonNull(vs)|)))
    decreases |vs|
  {
    if vs != [] {
      var m := if all || !vs[0].Null? then Wrap(n + 1) else n;
      CountMeans(h, all, m, vs[1..]);
      WrapStep(n + 1, if all then |vs| - 1 else |NonNull(vs[1..])|);
    }
  }

  /** The exact sum of the INT values. */
  function IntTotal(vs: seq<Value>): int {
    if vs == [] then 0 else (if vs[0].Int? then vs[0].i else 0) + IntTotal(vs[1..])
  }

  predicate IntsOrNulls(vs: seq<Value>) { forall v :: v in vs ==> v.Null? || v.Int? }

  /** SUM over INT values is their sum modulo 2^64, and NULL when there are none. */
  lemma {:induction false} SumMeans(h: Host, start: int, any: bool, vs: seq<Value>)
    requires IntsOrNulls(vs) && (!any ==> start == 0)
    ensures FoldArgs(h, SumAcc(if any then Int(Wrap(start)) else Null, any), vs) ==
            Ok(SumAcc(if any || NonNull(vs) != [] then Int(Wrap(start + IntTotal(vs))) else Null, any || NonNull(vs) != []))
    decreases |vs|
  {
    if vs != [] {
      assert vs[0] in vs;
      if vs[0].Null? {
        SumMeans(h, start, any, vs[1..]);
      } else {
        WrapStep(start, vs[0].i);
        assert Wrap(vs[0].i) == vs[0].i;
        SumMeans(h, start + vs[0].i, true, vs[1..]);
      }
    }
  }

  /** No value that counts beats this one. */
  predicate Extreme(want: int, best: Value, vs: seq<Value>) {
    forall v :: v in vs && !v.Null? ==> if want < 0 then Order(best, v) <= 0 else Order(best, v) >= 0
  }

  /** MIN and MAX return one of the values present, and none of them is smaller, or larger. */
  lemma {:induction false} ExtremeMeans(h: Host, want: int, start: Value, found: bool, vs: seq<Value>)
    requires want == -1 || want == 1
    requires found ==> !start.Null?
    ensures FoldArgs(h, ExtremeAcc(want, start, found), vs).Ok?
    ensures var acc := FoldArgs(h, ExtremeAcc(want, start, found), vs).value;
            && acc.ExtremeAcc? && acc.want == want && (acc.found <==> found || NonNull(vs) != [])
            && (acc.found ==> !acc.best.Null? && Extreme(want, acc.best, vs))
            && (acc.found ==> acc.best in NonNull(vs) || (found && acc.best == start))
            && (found ==> if want < 0 then Order(acc.best, start) <= 0 else Order(acc.best, start) >= 0)
    decreases |vs|
  {
    OrderRange(start, start);
    if vs != [] {
      var next := AddTo(h, ExtremeAcc(want, start, found), vs[0]).value;
      ExtremeMeans(h, want, next.best, next.found, vs[1..]);
      var acc := FoldArgs(h, ExtremeAcc(want, start, found), vs).value;
      assert vs == [vs[0]] + vs[1..];
      if next.found {
        ExtremeStep(want, start, found, vs[0], next.best, acc.best);
      }
    }
  }

  lemma ExtremeStep(want: int, start: Value, found: bool, v: Value, next: Value, best: Value)
    requires want == -1 || want == 1
    requires if v.Null? then found && next == start
             else if !found then next == v
             else next == if want * Order(v, start) > 0 then v else start
    requires if want < 0 then Order(best, next) <= 0 else Order(best, next) >= 0
    ensures !v.Null? ==> if want < 0 then Order(best, v) <= 0 else Order(best, v) >= 0
    ensures found ==> if want < 0 then Order(best, start) <= 0 else Order(best, start) >= 0
  {
    OrderRange(v, start);
    OrderRange(best, next);
    OrderRange(best, v);
    OrderRange(best, start);
    OrderRange(next, start);
    OrderRange(next, v);
    if want < 0 {
      if found { OrderChain(best, next, start); }
      if !v.Null? { OrderChain(best, next, v); }
    } else {
      if found { OrderChain(start, next, best); }
      if !v.Null? { OrderChain(v, next, best); }
    }
  }

  lemma OrderChain(a: Value, b: Value, c: Value)
    ensures Order(a, b) <= 0 && Order(b, c) <= 0 ==> Order(a, c) <= 0
  {
    if Order(a, b) <= 0 && Order(b, c) <= 0 {
      OrderTransitive(a, b, c);
    }
  }

  // ------------------------------------------------------------------
  // Hash aggregation
  // ------------------------------------------------------------------

  datatype Group = Group(values: Row, accs: seq<Acc>)

  type Groups = map<bytes, Group>

  function NewAccs(calls: seq<AggCall>): (r: Result<seq<Acc>>)
    ensures r.Ok? ==> |r.value| == |calls| && forall i :: 0 <= i < |calls| ==> NewAcc(calls[i]) == Ok(r.value[i])
  {
    if calls == [] then Ok([])
    else
      var init :- NewAccs(calls[..|calls| - 1]);
      var acc :- NewAcc(calls[|calls| - 1]);
      Ok(init + [acc])
  }

  function ArgOf(h: Host, call: AggCall, env: Env, row: Row): Result<Value> {
    if call.arg.None? then Ok(Null) else EvalExpr(h, call.arg.value, env, row)
  }

  /** One row into the accumulators of its group, in the order of the calls. */
  function AddAll(h: Host, accs: seq<Acc>, calls: seq<AggCall>, env: Env, row: Row): (r: Result<seq<Acc>>)
    requires |accs| == |calls|
    ensures r.Ok? ==> |r.value| == |calls|
    ensures r.Ok? ==> forall i :: 0 <= i < |calls| ==>
              ArgOf(h, calls[i], env, row).Ok? && AddTo(h, accs[i], ArgOf(h, calls[i], env, row).value) == Ok(r.value[i])
  {
    if calls == [] then Ok([])
    else
      var n := |calls| - 1;
      var init :- AddAll(h, accs[..n], calls[..n], env, row);
      var v :- ArgOf(h, calls[n], env, row);
      var acc :- AddTo(h, accs[n], v);
      Ok(init + [acc])
  }

  predicate Shaped(groups: Groups, n: nat) { forall k :: k in groups ==> |groups[k].accs| == n }

  function GroupFor(groups: Groups, calls: seq<AggCall>, key: bytes, values: Row): (r: Result<Group>)
    requires Shaped(groups, |calls|)
    ensures r.Ok? ==> |r.value.accs| == |calls|
  {
    if key in groups then Ok(groups[key])
    else
      var accs :- NewAccs(calls);
      Ok(Group(values, accs))
  }

  function TakeRow(h: Host, groupBy: seq<Expr>, calls: seq<AggCall>, env: Env, groups: Groups, row: Row): (r: Result<Groups>)
    requires Shaped(groups, |calls|)
    ensures r.Ok? ==> Shaped(r.value, |calls|)
  {
    var values :- EvalAll(h, groupBy, env, row);
    var g :- GroupFor(groups, calls, EncAll(values), values);
    var accs :- AddAll(h, g.accs, calls, env, row);
    Ok(groups[EncAll(values) := Group(g.values, accs)])
  }

  /** The whole input, row by row. */
  function Gather(h: Host, groupBy: seq<Expr>, calls: seq<AggCall>, env: Env, groups: Groups, s: Stream): (r: Result<Groups>)
    requires Shaped(groups, |calls|)
    ensures r.Ok? ==> Shaped(r.value, |calls|)
    decreases |s.rows|
  {
    if s.rows == [] then (if s.end.Some? then Err(s.end.value) else Ok(groups))
    else
      var next :- TakeRow(h, groupBy, calls, env, groups, s.rows[0]);
      Gather(h, groupBy, calls, env, next, Tail(s))
  }

  // ------------------------------------------------------------------
  // The partition it computes
  // ------------------------------------------------------------------

  function KeyOf(h: Host, groupBy: seq<Expr>, env: Env, row: Row): Option<bytes> {
    match EvalAll(h, groupBy, env, row)
    case Ok(values) => Some(EncAll(values))
    case Err(_) => None
  }

  /** The rows of one group, in input order. */
  function Bucket(h: Host, groupBy: seq<Expr>, env: Env, rows: seq<Row>, key: bytes): seq<Row> {
    if rows == [] then []
    else if KeyOf(h, groupBy, env, rows[0]) == Some(key) then [rows[0]] + Bucket(h, groupBy, env, rows[1..], key)
    else Bucket(h, groupBy, env, rows[1..], key)
  }

  /** What one call is given over a list of rows. */
  function Args(h: Host, call: AggCall, env: Env, rows: seq<Row>): (r: seq<Value>)
    ensures |r| == |rows|
  {
    if rows == [] then []
    else
      [if ArgOf(h, call, env, rows[0]).Ok? then ArgOf(h, call, env, rows[0]).value else Null] + Args(h, call, env, rows[1..])
  }

  ghost predicate KeyedByValues(groups: Groups, n: nat) {
    forall k :: k in groups ==> EncAll(groups[k].values) == k && |groups[k].values| == n
  }

  /** The accumulator a group's call starts from. */
  function StartAcc(groups: Groups, calls: seq<AggCall>, key: bytes, i: nat): Result<Acc>
    requires Shaped(groups, |calls|) && i < |calls|
  {
    if key in groups then Ok(groups[key].accs[i]) else NewAcc(calls[i])
  }

  /** Folding a list from a start that may have failed. */
  function FoldFrom(h: Host, start: Result<Acc>, vs: seq<Value>): Result<Acc> {
    var acc :- start;
    FoldArgs(h, acc, vs)
  }

  lemma FoldOne(h: Host, acc: Acc, v: Value, next: Acc)
    requires AddTo(h, acc, v) == Ok(next)
    ensures FoldFrom(h, Ok(acc), [v]) == Ok(next)
  {
    assert [v][1..] == [];
    assert FoldArgs(h, next, []) == Ok(next);
  }

  lemma TakeRowStep(h: Host, groupBy: seq<Expr>, calls: seq<AggCall>, env: Env, groups: Groups, row: Row, key: bytes, i: nat)
    requires Shaped(groups, |calls|) && i < |calls| && TakeRow(h, groupBy, calls, env, groups, row).Ok?
    ensures KeyOf(h, groupBy, env, row).Some?
    ensures var next := TakeRow(h, groupBy, calls, env, groups, row).value;
            if KeyOf(h, groupBy, env, row) == Some(key)
            then ArgOf(h, calls[i], env, row).Ok? &&
                 StartAcc(next, calls, key, i) == FoldFrom(h, StartAcc(groups, calls, key, i), [ArgOf(h, calls[i], env, row).value])
            else StartAcc(next, calls, key, i) == StartAcc(groups, calls, key, i)
  {
    if KeyOf(h, groupBy, env, row) == Some(key) {
      var values := EvalAll(h, groupBy, env, row).value;
      var g := GroupFor(groups, calls, key, values).value;
      var v := ArgOf(h, calls[i], env, row).value;
      var acc := AddAll(h, g.accs, calls, env, row).value[i];
      assert StartAcc(groups, calls, key, i) == Ok(g.accs[i]);
      assert AddTo(h, g.accs[i], v) == Ok(acc);
      FoldOne(h, g.accs[i], v, acc);
    }
  }

  lemma FoldCons(h: Host, start: Result<Acc>, v: Value, vs: seq<Value>)
    ensures FoldFrom(h, FoldFrom(h, start, [v]), vs) == FoldFrom(h, start, [v] + vs)
  {
    if start.Ok? {
      assert [v][1..] == [] && ([v] + vs)[1..] == vs;
      if AddTo(h, start.value, v).Ok? {
        assert FoldArgs(h, AddTo(h, start.value, v).value, []) == AddTo(h, start.value, v);
      }
    }
  }

  /** Each call of each group ends up as the fold of that group's rows, in input order. */
  lemma {:induction false} GatherFolds(h: Host, groupBy: seq<Expr>, calls: seq<AggCall>, env: Env, groups: Groups, s: Stream,
                                       key: bytes, i: nat)
    requires Shaped(groups, |calls|) && i < |calls| && Gather(h, groupBy, calls, env, groups, s).Ok?
    ensures StartAcc(Gather(h, groupBy, calls, env, groups, s).value, calls, key, i) ==
            FoldFrom(h, StartAcc(groups, calls, key, i), Args(h, calls[i], env, Bucket(h, groupBy, env, s.rows, key)))
    decreases |s.rows|
  {
    if s.rows == [] {
      NewAccFolds(h, StartAcc(groups, calls, key, i));
    } else {
      var next := TakeRow(h, groupBy, calls, env, groups, s.rows[0]).value;
      TakeRowStep(h, groupBy, calls, env, groups, s.rows[0], key, i);
      GatherFolds(h, groupBy, calls, env, next, Tail(s), key, i);
      var rest := Bucket(h, groupBy, env, s.rows[1..], key);
      if KeyOf(h, groupBy, env, s.rows[0]) == Some(key) {
        assert Bucket(h, groupBy, env, s.rows, key) == [s.rows[0]] + rest;
        assert ([s.rows[0]] + rest)[1..] == rest;
        hide TakeRow, Gather, FoldArgs, ArgOf;
        FoldCons(h, StartAcc(groups, calls, key, i), ArgOf(h, calls[i], env, s.rows[0]).value, Args(h, calls[i], env, rest));
      }
    }
  }

  lemma NewAccFolds(h: Host, start: Result<Acc>)
    ensures FoldFrom(h, start, []) == start
  {
  }

  lemma TakeRowKeys(h: Host, groupBy: seq<Expr>, calls: seq<AggCall>, env: Env, groups: Groups, row: Row)
    requires Shaped(groups, |calls|) && KeyedByValues(groups, |groupBy|) && TakeRow(h, groupBy, calls, env, groups, row).Ok?
    ensures KeyOf(h, groupBy, env, row).Some?
    ensures KeyedByValues(TakeRow(h, groupBy, calls, env, groups, row).value, |groupBy|)
    ensures TakeRow(h, groupBy, calls, env, groups, row).value.Keys == groups.Keys + {KeyOf(h, groupBy, env, row).value}
  {
  }

  lemma BucketHead(h: Host, groupBy: seq<Expr>, env: Env, rows: seq<Row>, k: bytes)
    requires rows != []
    ensures Bucket(h, groupBy, env, rows, k) != [] <==>
            KeyOf(h, groupBy, env, rows[0]) == Some(k) || Bucket(h, groupBy, env, rows[1..], k) != []
  {
  }

  /** A group exists exactly when some row belongs to it, and is filed under its own values. */
  lemma {:induction false} GatherKeys(h: Host, groupBy: seq<Expr>, calls: seq<AggCall>, env: Env, groups: Groups, s: Stream)
    requires Shaped(groups, |calls|) && KeyedByValues(groups, |groupBy|) && Gather(h, groupBy, calls, env, groups, s).Ok?
    ensures KeyedByValues(Gather(h, groupBy, calls, env, groups, s).value, |groupBy|)
    ensures forall r :: r in s.rows ==> KeyOf(h, groupBy, env, r).Some?
    ensures forall k :: k in Gather(h, groupBy, calls, env, groups, s).value <==>
                          k in groups || Bucket(h, groupBy, env, s.rows, k) != []
    decreases |s.rows|
  {
    if s.rows != [] {
      var next := TakeRow(h, groupBy, calls, env, groups, s.rows[0]).value;
      assert Gather(h, groupBy, calls, env, groups, s) == Gather(h, groupBy, calls, env, next, Tail(s));
      assert s.rows == [s.rows[0]] + s.rows[1..];
      hide Gather, TakeRow, Bucket, KeyOf, KeyedByValues, Shaped;
      TakeRowKeys(h, groupBy, calls, env, groups, s.rows[0]);
      GatherKeys(h, groupBy, calls, env, next, Tail(s));
      forall k ensures k in next || Bucket(h, groupBy, env, s.rows[1..], k) != [] <==>
                       k in groups || Bucket(h, groupBy, env, s.rows, k) != [] {
        BucketHead(h, groupBy, env, s.rows, k);
      }
    }
  }

  // ------------------------------------------------------------------
  // Conservation
  // ------------------------------------------------------------------

  predicate Distinct(ks: seq<bytes>) { forall i, j :: 0 <= i < j < |ks| ==> ks[i] != ks[j] }

  function BucketTotal(h: Host, groupBy: seq<Expr>, env: Env, rows: seq<Row>, ks: seq<bytes>): nat {
    if ks == [] then 0 else |Bucket(h, groupBy, env, rows, ks[0])| + BucketTotal(h, groupBy, env, rows, ks[1..])
  }

  /** A row counts once, in the bucket of its own key. */
  lemma {:induction false} BucketTotalCons(h: Host, groupBy: seq<Expr>, env: Env, rows: seq<Row>, ks: seq<bytes>)
    requires rows != [] && Distinct(ks)
    ensures BucketTotal(h, groupBy, env, rows, ks) == BucketTotal(h, groupBy, env, rows[1..], ks) +
            if KeyOf(h, groupBy, env, rows[0]).Some? && KeyOf(h, groupBy, env, rows[0]).value in ks then 1 else 0
  {
    if ks != [] {
      assert ks == [ks[0]] + ks[1..];
      BucketTotalCons(h, groupBy, env, rows, ks[1..]);
      if KeyOf(h, groupBy, env, rows[0]) == Some(ks[0]) {
        assert ks[0] !in ks[1..];
      }
    }
  }

  /** The buckets of all groups hold as many rows as came in. */
  lemma {:induction false} BucketsPartition(h: Host, groupBy: seq<Expr>, env: Env, rows: seq<Row>, ks: seq<bytes>)
    requires Distinct(ks)
    requires forall r :: r in rows ==> KeyOf(h, groupBy, env, r).Some? && KeyOf(h, groupBy, env, r).value in ks
    ensures BucketTotal(h, groupBy, env, rows, ks) == |rows|
  {
    if rows == [] {
      NoRowsNoTotal(h, groupBy, env, ks);
    } else {
      assert rows[0] in rows;
      BucketTotalCons(h, groupBy, env, rows, ks);
      BucketsPartition(h, groupBy, env, rows[1..], ks);
    }
  }

  lemma {:induction false} NoRowsNoTotal(h: Host, groupBy: seq<Expr>, env: Env, ks: seq<bytes>)
    ensures BucketTotal(h, groupBy, env, [], ks) == 0
  {
    if ks != [] {
      NoRowsNoTotal(h, groupBy, env, ks[1..]);
    }
  }

  /** The exact INT sums of the groups, added up. */
  function SumTotal(h: Host, groupBy: seq<Expr>, env: Env, rows: seq<Row>, call: AggCall, ks: seq<bytes>): int {
    if ks == [] then 0
    else IntTotal(Args(h, call, env, Bucket(h, groupBy, env, rows, ks[0]))) + SumTotal(h, groupBy, env, rows, call, ks[1..])
  }

  lemma {:induction false} SumTotalCons(h: Host, groupBy: seq<Expr>, env: Env, rows: seq<Row>, call: AggCall, ks: seq<bytes>)
    requires rows != [] && Distinct(ks)
    ensures SumTotal(h, groupBy, env, rows, call, ks) == SumTotal(h, groupBy, env, rows[1..], call, ks) +
            if KeyOf(h, groupBy, env, rows[0]).Some? && KeyOf(h, groupBy, env, rows[0]).value in ks
            then IntTotal(Args(h, call, env, [rows[0]])) else 0
  {
    if ks != [] {
      assert ks == [ks[0]] + ks[1..];
      SumTotalCons(h, groupBy, env, rows, call, ks[1..]);
      ArgsCons(h, call, env, rows[0], Bucket(h, groupBy, env, rows[1..], ks[0]));
      if KeyOf(h, groupBy, env, rows[0]) == Some(ks[0]) {
        assert ks[0] !in ks[1..];
      }
    }
  }

  lemma ArgsCons(h: Host, call: AggCall, env: Env, row: Row, rest: seq<Row>)
    ensures IntTotal(Args(h, call, env, [row] + rest)) == IntTotal(Args(h, call, env, [row])) + IntTotal(Args(h, call, env, rest))
  {
    assert ([row] + rest)[1..] == rest && [row][1..] == [];
    var a := if ArgOf(h, call, env, row).Ok? then ArgOf(h, call, env, row).value else Null;
    assert Args(h, call, env, [row] + rest) == [a] + Args(h, call, env, rest);
    assert Args(h, call, env, [row]) == [a] + [];
    assert ([a] + Args(h, call, env, rest))[1..] == Args(h, call, env, rest);
    assert IntTotal([a]) == if a.Int? then a.i else 0;
  }

  /** Group sums add up to the sum over everything. */
  lemma {:induction false} SumsPartition(h: Host, groupBy: seq<Expr>, env: Env, rows: seq<Row>, call: AggCall, ks: seq<bytes>)
    requires Distinct(ks)
    requires forall r :: r in rows ==> KeyOf(h, groupBy, env, r).Some? && KeyOf(h, groupBy, env, r).value in ks
    ensures SumTotal(h, groupBy, env, rows, call, ks) == IntTotal(Args(h, call, env, rows))
  {
    if rows == [] {
      NoRowsNoSum(h, groupBy, env, call, ks);
    } else {
      assert rows[0] in rows;
      SumTotalCons(h, groupBy, env, rows, call, ks);
      SumsPartition(h, groupBy, env, rows[1..], call, ks);
      ArgsCons(h, call, env, rows[0], rows[1..]);
      assert rows == [rows[0]] + rows[1..];
    }
  }

  lemma {:induction false} NoRowsNoSum(h: Host, groupBy: seq<Expr>, env: Env, call: AggCall, ks: seq<bytes>)
    ensures SumTotal(h, groupBy, env, [], call, ks) == 0
  {
    if ks != [] {
      NoRowsNoSum(h, groupBy, env, call, ks[1..]);
    }
  }

  // ------------------------------------------------------------------
  // The output
  // ------------------------------------------------------------------

  function KeyEntries(keys: set<bytes>): (em: Entries)
    ensures Keyed(em)
  {
    map k | k in keys :: Entry(k, [], false)
  }

  ghost predicate ListsKeys(ks: seq<bytes>, keys: set<bytes>) {
    && (forall i, j :: 0 <= i < j < |ks| ==> Before(ks[i], ks[j]))
    && (forall k :: k in ks <==> k in keys)
  }

  function KeysOf(es: seq<Entry>): (ks: seq<bytes>)
    ensures |ks| == |es|
  {
    seq(|es|, i requires 0 <= i < |es| => es[i].key)
  }

  /** The group keys in byte order. */
  ghost function SortedKeys(keys: set<bytes>): (ks: seq<bytes>)
    ensures ListsKeys(ks, keys)
  {
    var es := Sorted(KeyEntries(keys));
    forall k | k in keys ensures k in KeysOf(es) {
      assert KeyEntries(keys)[k] in es;
      var i :| 0 <= i < |es| && es[i] == KeyEntries(keys)[k];
      assert KeysOf(es)[i] == k;
    }
    forall k | k in KeysOf(es) ensures k in keys {
      var i :| 0 <= i < |es| && KeysOf(es)[i] == k;
      assert es[i] in es;
    }
    KeysOf(es)
  }

  /** sort.Strings over the keys in the order they were first seen. */
  method SortKeys(order: seq<bytes>, ghost keys: set<bytes>) returns (ks: seq<bytes>)
    requires forall k :: k in order <==> k in keys
    ensures ks == SortedKeys(keys)
  {
    var all := set k | k in order;
    assert all == keys;
    var es := SortEntries(KeyEntries(all));
    ks := KeysOf(es);
  }

  function Results(h: Host, accs: seq<Acc>): (r: Row)
    ensures |r| == |accs| && forall i :: 0 <= i < |accs| ==> r[i] == Outcome(h, accs[i])
  {
    seq(|accs|, i requires 0 <= i < |accs| => Outcome(h, accs[i]))
  }

  /** One row per key: the group's values, then the results of the calls. */
  function Output(h: Host, groups: Groups, ks: seq<bytes>): (r: seq<Row>)
    requires forall k :: k in ks ==> k in groups
    ensures |r| == |ks| && forall i :: 0 <= i < |ks| ==> r[i] == groups[ks[i]].values + Results(h, groups[ks[i]].accs)
  {
    if ks == [] then [] else [groups[ks[0]].values + Results(h, groups[ks[0]].accs)] + Output(h, groups, ks[1..])
  }

  /** An ungrouped aggregation has a group even without input. */
  function WithDefault(groupBy: seq<Expr>, calls: seq<AggCall>, groups: Groups): Result<Groups> {
    if groupBy == [] && groups == map[] then
      var accs :- NewAccs(calls);
      Ok(map[[] := Group([], accs)])
    else Ok(groups)
  }

  ghost function AggregateS(h: Host, groupBy: seq<Expr>, calls: seq<AggCall>, env: Env, s: Stream): Stream {
    match Gather(h, groupBy, calls, env, map[], s)
    case Err(e) => Fails(e)
    case Ok(groups) =>
      match WithDefault(groupBy, calls, groups)
      case Err(e) => Fails(e)
      case Ok(all) => Stream(Output(h, all, SortedKeys(all.Keys)), None)
  }

  class AggregateOp {
    const host: Host
    const input: Source
    const groupBy: seq<Expr>
    const calls: seq<AggCall>
    const env: Env
    var rows: seq<Row>
    var pos: nat
    var loaded: bool

    constructor (host: Host, input: Source, groupBy: seq<Expr>, calls: seq<AggCall>, env: Env)
      ensures this.input == input && Valid() && Rest() == AggregateS(host, groupBy, calls, env, input.rest)
    {
      this.host, this.input, this.groupBy, this.calls, this.env := host, input, groupBy, calls, env;
      rows, pos, loaded := [], 0, false;
    }

    ghost predicate Valid()
      reads this
    {
      pos <= |rows|
    }

    ghost function Rest(): Stream
      requires Valid()
      reads this, input
    {
      if loaded then Stream(rows[pos..], None) else AggregateS(host, groupBy, calls, env, input.rest)
    }

    method Next() returns (r: Result<Option<Row>>)
      requires Valid()
      modifies this, input
      ensures Valid() && Delivers(old(Rest()), r, Rest())
    {
      if !loaded {
        var failed := Load();
        if failed.Some? {
          return Err(failed.value);
        }
        pos, loaded := 0, true;
      }
      if pos >= |rows| {
        return Ok(None);
      }
      r := Ok(Some(rows[pos]));
      pos := pos + 1;
    }

    method Load() returns (failed: Option<Error>)
      modifies this`rows, input
      ensures match failed
              case Some(e) => rows == old(rows) && AggregateS(host, groupBy, calls, env, old(input.rest)) == Fails(e)
              case None => AggregateS(host, groupBy, calls, env, old(input.rest)) == Stream(rows, None)
    {
      hide AddAll, NewAccs, EvalAll, Results, SortedKeys;
      var groups: Groups := map[];
      var order: seq<bytes> := [];
      while true
        invariant Shaped(groups, |calls|) && rows == old(rows)
        invariant forall k :: k in order <==> k in groups
        invariant Gather(host, groupBy, calls, env, groups, input.rest) ==
                  Gather(host, groupBy, calls, env, map[], old(input.rest))
        decreases |input.rest.rows|
      {
        var next := input.Next();
        if next.Err? {
          return Some(next.error);
        }
        if next.value.None? {
          break;
        }
        var values := EvalRow(host, groupBy, env, next.value.value);
        if values.Err? {
          return Some(values.error);
        }
        var key := EncodeAll([], values.value);
        assert key == EncAll(values.value);
        var g: Group;
        if key in groups {
          g := groups[key];
        } else {
          var accs := NewAccs(calls);
          if accs.Err? {
            return Some(accs.error);
          }
          g := Group(values.value, accs.value);
          order := order + [key];
        }
        var accs := AddArguments(host, g.accs, calls, env, next.value.value);
        if accs.Err? {
          return Some(accs.error);
        }
        groups := groups[key := Group(g.values, accs.value)];
      }
      if |groupBy| == 0 && |groups| == 0 {
        var accs := NewAccs(calls);
        if accs.Err? {
          return Some(accs.error);
        }
        groups := groups[[] := Group([], accs.value)];
        order := order + [[]];
      }
      var ks := SortKeys(order, groups.Keys);
      rows := Output(host, groups, ks);
      failed := None;
    }
  }

  /** The inner loop over the calls. */
  method AddArguments(h: Host, accs: seq<Acc>, calls: seq<AggCall>, env: Env, row: Row) returns (r: Result<seq<Acc>>)
    requires |accs| == |calls|
    ensures r == AddAll(h, accs, calls, env, row)
  {
    hide AddTo, ArgOf;
    var out: seq<Acc> := [];
    assert accs[..|calls|] == accs && calls[..|calls|] == calls;
    for i := 0 to |calls|
      invariant AddAll(h, accs[..i], calls[..i], env, row) == Ok(out)
    {
      assert accs[..i + 1][..i] == accs[..i] && calls[..i + 1][..i] == calls[..i];
      var v := ArgOf(h, calls[i], env, row);
      if v.Err? {
        AddAllFails(h, accs, calls, env, row, i + 1);
        return Err(v.error);
      }
      var acc := AddTo(h, accs[i], v.value);
      if acc.Err? {
        AddAllFails(h, accs, calls, env, row, i + 1);
        return Err(acc.error);
      }
      out := out + [acc.value];
    }
    r := Ok(out);
  }

  lemma {:induction false} AddAllFails(h: Host, accs: seq<Acc>, calls: seq<AggCall>, env: Env, row: Row, i: nat)
    requires i <= |calls| == |accs| && AddAll(h, accs[..i], calls[..i], env, row).Err?
    ensures AddAll(h, accs, calls, env, row) == AddAll(h, accs[..i], calls[..i], env, row)
    decreases |calls|
  {
    if i == |calls| {
      assert accs[..i] == accs && calls[..i] == calls;
    } else {
      var n := |calls| - 1;
      assert accs[..n][..i] == accs[..i] && calls[..n][..i] == calls[..i];
      AddAllFails(h, accs[..n], calls[..n], env, row, i);
    }
  }

  // ------------------------------------------------------------------
  // Aggregation is the declarative partition
  // ------------------------------------------------------------------

  /** out is the row of one group: its values, then each call folded over the group's rows in input order. */
  ghost predicate IsGroupRow(h: Host, groupBy: seq<Expr>, calls: seq<AggCall>, env: Env, rows: seq<Row>, key: bytes,
                             values: Row, out: Row)
  {
    && EncAll(values) == key && |values| == |groupBy| && |out| == |groupBy| + |calls| && out[..|groupBy|] == values
    && forall i :: 0 <= i < |calls| ==>
         && FoldFrom(h, NewAcc(calls[i]), Args(h, calls[i], env, Bucket(h, groupBy, env, rows, key))).Ok?
         && out[|groupBy| + i] ==
            Outcome(h, FoldFrom(h, NewAcc(calls[i]), Args(h, calls[i], env, Bucket(h, groupBy, env, rows, key))).value)
  }

  lemma {:induction false} UngroupedBucket(h: Host, env: Env, rows: seq<Row>, key: bytes)
    ensures Bucket(h, [], env, rows, key) == if key == [] then rows else []
  {
    if rows != [] {
      UngroupedBucket(h, env, rows[1..], key);
      assert EvalAll(h, [], env, rows[0]) == Ok([]);
      assert EncAll([]) == [];
    }
  }

  lemma GroupCall(h: Host, groupBy: seq<Expr>, calls: seq<AggCall>, env: Env, s: Stream, groups: Groups,
                  all: Groups, key: bytes, i: nat)
    requires Gather(h, groupBy, calls, env, map[], s) == Ok(groups) && WithDefault(groupBy, calls, groups) == Ok(all)
    requires key in all && i < |calls|
    requires groups == map[] ==> Bucket(h, groupBy, env, s.rows, key) == []
    ensures |all[key].accs| == |calls|
    ensures FoldFrom(h, NewAcc(calls[i]), Args(h, calls[i], env, Bucket(h, groupBy, env, s.rows, key))) == Ok(all[key].accs[i])
  {
    GatherFolds(h, groupBy, calls, env, map[], s, key, i);
    NewAccFolds(h, NewAcc(calls[i]));
    hide Gather, FoldArgs, FoldFrom, Bucket, Args;
  }

  lemma GroupNamed(h: Host, groupBy: seq<Expr>, calls: seq<AggCall>, env: Env, s: Stream, groups: Groups, all: Groups, key: bytes)
    requires Gather(h, groupBy, calls, env, map[], s) == Ok(groups) && WithDefault(groupBy, calls, groups) == Ok(all)
    requires key in all && KeyedByValues(groups, |groupBy|)
    ensures |all[key].accs| == |calls| && EncAll(all[key].values) == key && |all[key].values| == |groupBy|
  {
    hide Gather;
  }

  lemma GroupRow(h: Host, groupBy: seq<Expr>, calls: seq<AggCall>, env: Env, s: Stream, groups: Groups, all: Groups, key: bytes)
    requires Gather(h, groupBy, calls, env, map[], s) == Ok(groups) && WithDefault(groupBy, calls, groups) == Ok(all)
    requires key in all && KeyedByValues(groups, |groupBy|)
    requires groups == map[] ==> Bucket(h, groupBy, env, s.rows, key) == []
    ensures |all[key].accs| == |calls|
    ensures IsGroupRow(h, groupBy, calls, env, s.rows, key, all[key].values, all[key].values + Results(h, all[key].accs))
  {
    hide Gather, FoldFrom, Bucket, Args, WithDefault, KeyedByValues, Outcome, NewAcc;
    GroupNamed(h, groupBy, calls, env, s, groups, all, key);
    forall i | 0 <= i < |calls|
      ensures FoldFrom(h, NewAcc(calls[i]), Args(h, calls[i], env, Bucket(h, groupBy, env, s.rows, key))) == Ok(all[key].accs[i])
    {
      GroupCall(h, groupBy, calls, env, s, groups, all, key, i);
    }
  }

  lemma KeysDistinct(ks: seq<bytes>)
    requires forall i, j :: 0 <= i < j < |ks| ==> Before(ks[i], ks[j])
    ensures Distinct(ks)
  {
    forall i, j | 0 <= i < j < |ks| ensures ks[i] != ks[j] {
      CmpRange(ks[i], ks[j]);
    }
  }

  /** The keys of the result: those with rows, and the empty one of an ungrouped query. */
  lemma PartitionKeys(h: Host, groupBy: seq<Expr>, calls: seq<AggCall>, env: Env, s: Stream, groups: Groups, ks: seq<bytes>)
    requires Gather(h, groupBy, calls, env, map[], s) == Ok(groups)
    requires WithDefault(groupBy, calls, groups).Ok?
    requires ks == SortedKeys(WithDefault(groupBy, calls, groups).value.Keys)
    ensures forall k :: k in ks <==> Bucket(h, groupBy, env, s.rows, k) != [] || (groupBy == [] && k == [])
  {
    hide Gather, Bucket, EvalAll, SortedKeys, NewAccs;
    GatherKeys(h, groupBy, calls, env, map[], s);
    forall k ensures k in ks <==> Bucket(h, groupBy, env, s.rows, k) != [] || (groupBy == [] && k == []) {
      if groupBy == [] {
        UngroupedBucket(h, env, s.rows, k);
        UngroupedBucket(h, env, s.rows, []);
      }
    }
  }

  /**
   * Without an error the output has one row per distinct group, in ascending byte order of the group
   * keys, and the groups share out all the input rows; an ungrouped aggregation has exactly one row,
   * input or not.
   */
  lemma AggregateIsPartition(h: Host, groupBy: seq<Expr>, calls: seq<AggCall>, env: Env, s: Stream)
    returns (ks: seq<bytes>, values: seq<Row>)
    requires AggregateS(h, groupBy, calls, env, s).end.None?
    ensures |AggregateS(h, groupBy, calls, env, s).rows| == |ks| == |values|
    ensures forall i, j :: 0 <= i < j < |ks| ==> Before(ks[i], ks[j])
    ensures forall k :: k in ks <==> Bucket(h, groupBy, env, s.rows, k) != [] || (groupBy == [] && k == [])
    ensures forall j :: 0 <= j < |ks| ==>
              IsGroupRow(h, groupBy, calls, env, s.rows, ks[j], values[j], AggregateS(h, groupBy, calls, env, s).rows[j])
    ensures Distinct(ks) && BucketTotal(h, groupBy, env, s.rows, ks) == |s.rows|
    ensures forall r :: r in s.rows ==> KeyOf(h, groupBy, env, r).Some? && KeyOf(h, groupBy, env, r).value in ks
  {
    hide Gather, Bucket, Results, IsGroupRow, EvalAll, SortedKeys, NewAccs;
    var groups := Gather(h, groupBy, calls, env, map[], s).value;
    var all := WithDefault(groupBy, calls, groups).value;
    ks := SortedKeys(all.Keys);
    values := GroupValues(all, ks);
    GatherKeys(h, groupBy, calls, env, map[], s);
    PartitionKeys(h, groupBy, calls, env, s, groups, ks);
    forall j | 0 <= j < |ks|
      ensures IsGroupRow(h, groupBy, calls, env, s.rows, ks[j], values[j], AggregateS(h, groupBy, calls, env, s).rows[j])
    {
      assert ks[j] in ks;
      GroupRow(h, groupBy, calls, env, s, groups, all, ks[j]);
    }
    KeysDistinct(ks);
    forall r | r in s.rows ensures KeyOf(h, groupBy, env, r).Some? && KeyOf(h, groupBy, env, r).value in ks {
      OwnBucket(h, groupBy, env, s.rows, r);
    }
    BucketsPartition(h, groupBy, env, s.rows, ks);
  }

  function GroupValues(groups: Groups, ks: seq<bytes>): (r: seq<Row>)
    requires forall k :: k in ks ==> k in groups
    ensures |r| == |ks| && forall i :: 0 <= i < |ks| ==> r[i] == groups[ks[i]].values
  {
    if ks == [] then [] else [groups[ks[0]].values] + GroupValues(groups, ks[1..])
  }

  lemma {:induction false} OwnBucket(h: Host, groupBy: seq<Expr>, env: Env, rows: seq<Row>, r: Row)
    requires r in rows && KeyOf(h, groupBy, env, r).Some?
    ensures Bucket(h, groupBy, env, rows, KeyOf(h, groupBy, env, r).value) != []
  {
    assert rows == [rows[0]] + rows[1..];
    if rows[0] != r {
      OwnBucket(h, groupBy, env, rows[1..], r);
    }
  }

  /** Keys in ascending order are group tuples in ascending order exactly on tuples that agree, such as plain ones. */
  lemma GroupsAscend(a: Row, b: Row)
    requires |a| == |b| && Before(EncAll(a), EncAll(b))
    ensures TupleOrder(a, b) < 0 <==> TupleAgree(a, b)
    ensures PlainRow(a) && PlainRow(b) ==> TupleOrder(a, b) < 0
  {
    CmpRange(EncAll(a), EncAll(b));
    TupleOrderRange(a, b);
    EncodeAllOrder(a, b);
    if PlainRow(a) && PlainRow(b) {
      forall i | 0 <= i < |a| ensures Agree(a[i], b[i]) {
        PlainEqual(a[i], b[i]);
      }
      AgreeingTuples(a, b);
    }
  }

  // ------------------------------------------------------------------
  // Group sums and the ungrouped sum
  // ------------------------------------------------------------------

  /** What SUM returns, a missing sum counting nothing. */
  function SumOf(h: Host, vs: seq<Value>): int {
    match FoldArgs(h, SumAcc(Null, false), vs)
    case Ok(SumAcc(total, any)) => if any && total.Int? then total.i else 0
    case _ => 0
  }

  lemma SumOfInts(h: Host, vs: seq<Value>)
    requires IntsOrNulls(vs)
    ensures SumOf(h, vs) == Wrap(IntTotal(vs))
  {
    SumMeans(h, 0, false, vs);
    NoInts(vs);
  }

  lemma {:induction false} NoInts(vs: seq<Value>)
    requires IntsOrNulls(vs)
    ensures NonNull(vs) == [] ==> IntTotal(vs) == 0
  {
    if vs != [] {
      assert vs[0] in vs;
      NoInts(vs[1..]);
    }
  }

  function GroupSums(h: Host, groupBy: seq<Expr>, env: Env, rows: seq<Row>, call: AggCall, ks: seq<bytes>): int {
    if ks == [] then 0
    else SumOf(h, Args(h, call, env, Bucket(h, groupBy, env, rows, ks[0]))) + GroupSums(h, groupBy, env, rows, call, ks[1..])
  }

  lemma {:induction false} BucketArgs(h: Host, groupBy: seq<Expr>, env: Env, rows: seq<Row>, call: AggCall, key: bytes)
    requires IntsOrNulls(Args(h, call, env, rows))
    ensures IntsOrNulls(Args(h, call, env, Bucket(h, groupBy, env, rows, key)))
  {
    if rows != [] {
      var all := Args(h, call, env, rows);
      assert all[0] in all && all[1..] == Args(h, call, env, rows[1..]);
      BucketArgs(h, groupBy, env, rows[1..], call, key);
      assert ([rows[0]] + Bucket(h, groupBy, env, rows[1..], key))[1..] == Bucket(h, groupBy, env, rows[1..], key);
    }
  }

  lemma {:induction false} GroupSumsWrap(h: Host, groupBy: seq<Expr>, env: Env, rows: seq<Row>, call: AggCall, ks: seq<bytes>)
    requires IntsOrNulls(Args(h, call, env, rows))
    ensures Wrap(GroupSums(h, groupBy, env, rows, call, ks)) == Wrap(SumTotal(h, groupBy, env, rows, call, ks))
  {
    if ks != [] {
      GroupSumsWrap(h, groupBy, env, rows, call, ks[1..]);
      var mine := Args(h, call, env, Bucket(h, groupBy, env, rows, ks[0]));
      BucketArgs(h, groupBy, env, rows, call, ks[0]);
      SumOfInts(h, mine);
      hide Wrap, IntTotal;
      WrapStep(IntTotal(mine), GroupSums(h, groupBy, env, rows, call, ks[1..]));
      WrapStep(IntTotal(mine), SumTotal(h, groupBy, env, rows, call, ks[1..]));
    }
  }

  /** Over INT arguments the groups' SUMs add up to the ungrouped SUM, modulo 2^64. */
  lemma GroupSumsAddUp(h: Host, groupBy: seq<Expr>, env: Env, rows: seq<Row>, call: AggCall, ks: seq<bytes>)
    requires IntsOrNulls(Args(h, call, env, rows)) && Distinct(ks)
    requires forall r :: r in rows ==> KeyOf(h, groupBy, env, r).Some? && KeyOf(h, groupBy, env, r).value in ks
    ensures Wrap(GroupSums(h, groupBy, env, rows, call, ks)) == SumOf(h, Args(h, call, env, rows))
  {
    GroupSumsWrap(h, groupBy, env, rows, call, ks);
    SumsPartition(h, groupBy, env, rows, call, ks);
    SumOfInts(h, Args(h, call, env, rows));
  }

  // ------------------------------------------------------------------
  // The groups' COUNT(*)
  // ------------------------------------------------------------------

  /** The INTs in one column of an output, added up. */
  function ColumnTotal(rows: seq<Row>, c: nat): int {
    if rows == [] then 0
    else (if c < |rows[0]| && rows[0][c].Int? then rows[0][c].i else 0) + ColumnTotal(rows[1..], c)
  }

  predicate CountsRows(call: AggCall) { call.func == COUNT && call.arg.None? }

  /** A group's COUNT(*) is the number of its rows, as a 64-bit number. */
  lemma GroupCount(h: Host, groupBy: seq<Expr>, calls: seq<AggCall>, env: Env, rows: seq<Row>, key: bytes,
                   values: Row, out: Row, i: nat)
    requires IsGroupRow(h, groupBy, calls, env, rows, key, values, out) && i < |calls| && CountsRows(calls[i])
    ensures |out| == |groupBy| + |calls| && out[|groupBy| + i] == Int(Wrap(|Bucket(h, groupBy, env, rows, key)|))
  {
    hide Bucket, Args, FoldArgs, Wrap;
    CountMeans(h, true, 0, Args(h, calls[i], env, Bucket(h, groupBy, env, rows, key)));
  }

  lemma {:induction false} CountTotals(h: Host, groupBy: seq<Expr>, env: Env, rows: seq<Row>, ks: seq<bytes>,
                                       outs: seq<Row>, c: nat)
    requires |ks| == |outs|
    requires forall j :: 0 <= j < |ks| ==> c < |outs[j]| && outs[j][c] == Int(Wrap(|Bucket(h, groupBy, env, rows, ks[j])|))
    ensures Wrap(ColumnTotal(outs, c)) == Wrap(BucketTotal(h, groupBy, env, rows, ks))
  {
    hide Bucket, Wrap;
    if ks != [] {
      var mine := |Bucket(h, groupBy, env, rows, ks[0])|;
      CountTotals(h, groupBy, env, rows, ks[1..], outs[1..], c);
      WrapStep(mine, ColumnTotal(outs[1..], c));
      WrapStep(mine, BucketTotal(h, groupBy, env, rows, ks[1..]));
    }
  }

  /** The COUNT(*) results of all groups add up to the number of input rows, modulo 2^64. */
  lemma CountsAddUp(h: Host, groupBy: seq<Expr>, calls: seq<AggCall>, env: Env, s: Stream, i: nat)
    requires AggregateS(h, groupBy, calls, env, s).end.None? && i < |calls| && CountsRows(calls[i])
    ensures Wrap(ColumnTotal(AggregateS(h, groupBy, calls, env, s).rows, |groupBy| + i)) == Wrap(|s.rows|)
  {
    hide AggregateS, IsGroupRow, CountsRows, Wrap, Bucket, ColumnTotal, BucketTotal;
    var outs := AggregateS(h, groupBy, calls, env, s).rows;
    var ks, values := AggregateIsPartition(h, groupBy, calls, env, s);
    forall j | 0 <= j < |ks|
      ensures |groupBy| + i < |outs[j]| && outs[j][|groupBy| + i] == Int(Wrap(|Bucket(h, groupBy, env, s.rows, ks[j])|))
    {
      GroupCount(h, groupBy, calls, env, s.rows, ks[j], values[j], outs[j], i);
    }
    CountTotals(h, groupBy, env, s.rows, ks, outs, |groupBy| + i);
  }
}
