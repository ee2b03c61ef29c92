// What the operators of exec/operators.go deliver, as functions from stream to stream.
module Streams {
  import opened Bytes
  import opened Values
  import opened KeyCodec
  import opened Ast
  import opened Eval
  import opened Sorting

  /** The rows an operator still delivers, and the error, if any, that comes after them. */
  datatype Stream = Stream(rows: seq<Row>, end: Option<Error>)

  function Fails(e: Error): Stream { Stream([], Some(e)) }

  function Cons(row: Row, s: Stream): Stream { Stream([row] + s.rows, s.end) }

  function Tail(s: Stream): Stream
    requires s.rows != []
  {
    Stream(s.rows[1..], s.end)
  }

  /** One call of Next: the head of the stream, its error, or its end. */
  predicate Delivers(was: Stream, r: Result<Option<Row>>, now: Stream) {
    if was.rows != [] then r == Ok(Some(was.rows[0])) && now == Tail(was)
    else if was.end.Some? then r == Err(was.end.value)
    else r == Ok(None) && now == was
  }

  datatype SortKey = SortKey(expr: Expr, desc: bool)

  function KeyExprs(keys: seq<SortKey>): (r: seq<Expr>)
    ensures |r| == |keys|
  {
    seq(|keys|, i requires 0 <= i < |keys| => keys[i].expr)
  }

  function Directions(keys: seq<SortKey>): (r: seq<bool>)
    ensures |r| == |keys|
  {
    seq(|keys|, i requires 0 <= i < |keys| => keys[i].desc)
  }

  /** Expressions left to right, up to the first that fails. */
  function EvalAll(h: Host, exprs: seq<Expr>, env: Env, row: Row): (r: Result<Row>)
    ensures r.Ok? ==> |r.value| == |exprs|
  {
    if exprs == [] then Ok([])
    else
      var init :- EvalAll(h, exprs[..|exprs| - 1], env, row);
      var v :- EvalExpr(h, exprs[|exprs| - 1], env, row);
      Ok(init + [v])
  }

  // ------------------------------------------------------------------
  // The operators
  // ------------------------------------------------------------------

  function FilterS(h: Host, pred: Expr, env: Env, s: Stream): Stream
    decreases |s.rows|
  {
    if s.rows == [] then s
    else
      match EvalPredicate(h, pred, env, s.rows[0])
      case Err(e) => Fails(e)
      case Ok(b) =>
        var rest := FilterS(h, pred, env, Tail(s));
        if b.True? then Cons(s.rows[0], rest) else rest
  }

  function ProjectS(h: Host, exprs: seq<Expr>, env: Env, s: Stream): Stream
    decreases |s.rows|
  {
    if s.rows == [] then s
    else
      match EvalAll(h, exprs, env, s.rows[0])
      case Err(e) => Fails(e)
      case Ok(out) => Cons(out, ProjectS(h, exprs, env, Tail(s)))
  }

  /** Rows are the same when their encodings are. */
  function DistinctS(seen: set<bytes>, s: Stream): Stream
    decreases |s.rows|
  {
    if s.rows == [] then s
    else if EncAll(s.rows[0]) in seen then DistinctS(seen, Tail(s))
    else Cons(s.rows[0], DistinctS(seen + {EncAll(s.rows[0])}, Tail(s)))
  }

  /** Skips first, then stops after count rows without looking further; a negative count never stops. */
  function LimitS(count: int, skip: int, s: Stream): Stream
    decreases |s.rows|
  {
    if skip > 0 then (if s.rows == [] then s else LimitS(count, skip - 1, Tail(s)))
    else if count == 0 then Stream([], None)
    else if s.rows == [] then s
    else Cons(s.rows[0], LimitS(if count < 0 then count else count - 1, skip, Tail(s)))
  }

  /** Every row with its sort keys, numbered as it arrives. */
  function ItemsOf(h: Host, keys: seq<SortKey>, env: Env, s: Stream, num: nat): (r: Result<seq<Item>>)
    ensures r.Ok? ==> Fits(Directions(keys), r.value) && |r.value| == |s.rows|
    ensures r.Ok? ==> forall i :: 0 <= i < |r.value| ==> r.value[i].num == num + i && r.value[i].row == s.rows[i]
    decreases |s.rows|
  {
    if s.rows == [] then (if s.end.Some? then Err(s.end.value) else Ok([]))
    else
      var ks :- EvalAll(h, KeyExprs(keys), env, s.rows[0]);
      var rest :- ItemsOf(h, keys, env, Tail(s), num + 1);
      Ok([Item(s.rows[0], ks, num)] + rest)
  }

  /** Attaches items already read to the outcome of reading the rest. */
  function Onto(seen: seq<Item>, more: Result<seq<Item>>): Result<seq<Item>> {
    match more
    case Ok(items) => Ok(seen + items)
    case Err(e) => Err(e)
  }

  lemma ItemsStep(h: Host, keys: seq<SortKey>, env: Env, s: Stream, num: nat)
    requires s.rows != []
    ensures ItemsOf(h, keys, env, s, num) ==
            match EvalAll(h, KeyExprs(keys), env, s.rows[0])
            case Err(e) => Err(e)
            case Ok(ks) => Onto([Item(s.rows[0], ks, num)], ItemsOf(h, keys, env, Tail(s), num + 1))
  {
  }

  function RowsOf(items: seq<Item>): (r: seq<Row>)
    ensures |r| == |items|
  {
    seq(|items|, i requires 0 <= i < |items| => items[i].row)
  }

  /** The whole input sorted; with a limit, only the start of that. */
  function SortS(h: Host, keys: seq<SortKey>, limit: int, env: Env, s: Stream): Stream {
    match ItemsOf(h, keys, env, s, 0)
    case Err(e) => Fails(e)
    case Ok(items) => Stream(RowsOf(TopN(Directions(keys), limit, items)), None)
  }

  // ------------------------------------------------------------------
  // Cutting off early
  // ------------------------------------------------------------------

  lemma TakeTail(n: nat, s: seq<Row>)
    requires s != [] && n > 0
    ensures Take(n, s) != [] && Take(n, s)[0] == s[0] && Take(n, s)[1..] == Take(n - 1, s[1..])
  {
  }

  /** A limit that stops within the first n rows of its input never sees the others. */
  lemma {:induction false} LimitReadsPrefix(count: nat, skip: int, n: nat, s: Stream)
    requires n >= count + (if skip > 0 then skip else 0) && s.end.None?
    ensures LimitS(count, skip, Stream(Take(n, s.rows), None)) == LimitS(count, skip, s)
    decreases |s.rows|
  {
    if s.rows != [] && n > 0 {
      TakeTail(n, s.rows);
      if skip > 0 {
        LimitReadsPrefix(count, skip - 1, n - 1, Tail(s));
      } else if count > 0 {
        LimitReadsPrefix(count - 1, skip, n - 1, Tail(s));
      }
    }
  }

  lemma TakeNothing(n: nat, s: seq<Row>)
    ensures s == [] || n == 0 ==> Take(n, s) == []
  {
  }

  /** The same with a projection in between, errors included. */
  lemma {:induction false} LimitProjectReadsPrefix(h: Host, exprs: seq<Expr>, env: Env, count: nat, skip: int, n: nat, s: Stream)
    requires n >= count + (if skip > 0 then skip else 0) && s.end.None?
    ensures LimitS(count, skip, ProjectS(h, exprs, env, Stream(Take(n, s.rows), None))) ==
            LimitS(count, skip, ProjectS(h, exprs, env, s))
    decreases |s.rows|
  {
    hide EvalAll, Take;
    TakeNothing(n, s.rows);
    if s.rows != [] && n > 0 {
      TakeTail(n, s.rows);
      if skip > 0 {
        LimitProjectReadsPrefix(h, exprs, env, count, skip - 1, n - 1, Tail(s));
      } else if count > 0 {
        LimitProjectReadsPrefix(h, exprs, env, count - 1, skip, n - 1, Tail(s));
      }
      if EvalAll(h, exprs, env, s.rows[0]).Ok? {
        var out := EvalAll(h, exprs, env, s.rows[0]).value;
        ConsTail(out, ProjectS(h, exprs, env, Tail(Stream(Take(n, s.rows), None))));
        ConsTail(out, ProjectS(h, exprs, env, Tail(s)));
      }
    }
  }

  lemma ConsTail(row: Row, s: Stream)
    ensures Cons(row, s).rows != [] && Tail(Cons(row, s)) == s && Cons(row, s).rows[0] == row
  {
  }

  lemma LimitCount(count: int, skip: int, s: Stream)
    requires skip <= 0 && s.end.None?
    ensures |LimitS(count, skip, s).rows| == if 0 <= count < |s.rows| then count else |s.rows|
    decreases |s.rows|
  {
    if s.rows != [] && count != 0 {
      LimitCount(if count < 0 then count else count - 1, skip, Tail(s));
    }
  }

  lemma TopNTakes(desc: seq<bool>, limit: nat, items: seq<Item>)
    requires Fits(desc, items)
    ensures RowsOf(TopN(desc, limit, items)) == Take(limit, RowsOf(TopN(desc, -1, items)))
  {
  }

  lemma SortCut(h: Host, keys: seq<SortKey>, n: nat, env: Env, s: Stream)
    requires ItemsOf(h, keys, env, s, 0).Ok?
    ensures SortS(h, keys, n, env, s) == Stream(Take(n, SortS(h, keys, -1, env, s).rows), None)
    ensures SortS(h, keys, -1, env, s).end == None && |SortS(h, keys, -1, env, s).rows| == |s.rows|
  {
    TopNTakes(Directions(keys), n, ItemsOf(h, keys, env, s, 0).value);
  }

  lemma SortIgnoresLimitOnError(h: Host, keys: seq<SortKey>, n: int, env: Env, s: Stream)
    requires ItemsOf(h, keys, env, s, 0).Err? || n < 0
    ensures SortS(h, keys, n, env, s) == SortS(h, keys, -1, env, s)
  {
  }

  /** A cut below a negative offset loses rows as soon as there are more of them than the cut. */
  lemma PushdownLoses(count: nat, offset: int, n: nat, full: Stream)
    requires full.end.None? && offset < 0 && n == count + offset && n < |full.rows|
    ensures LimitS(count, offset, Stream(Take(n, full.rows), None)) != LimitS(count, offset, full)
  {
    LimitCount(count, offset, full);
    LimitCount(count, offset, Stream(Take(n, full.rows), None));
  }

  lemma WrapSum(count: int64, offset: int64)
    requires count >= 0
    ensures Wrap(count + offset) < 0 || Wrap(count + offset) == count + offset
    ensures Wrap(count + offset) < 0 <==> count + offset < 0 || count + offset >= TWO_63
  {
  }

  /**
   * Pushing count+offset, as the 64-bit sum it is, into the sort: the planner taken alone. It changes
   * nothing under the Limit, unless evaluating the sort keys succeeds and a negative offset makes the
   * sum too small for the rows there are.
   */
  lemma PushdownExact(h: Host, keys: seq<SortKey>, count: int64, offset: int64, env: Env, s: Stream)
    requires count >= 0
    ensures LimitS(count, offset, SortS(h, keys, Wrap(count + offset), env, s)) ==
            LimitS(count, offset, SortS(h, keys, -1, env, s)) <==>
            (offset >= 0 || count + offset < 0 || |s.rows| <= count + offset || ItemsOf(h, keys, env, s, 0).Err?)
  {
    hide SortS, LimitS, Wrap, ItemsOf, Take;
    var n := Wrap(count + offset);
    WrapSum(count, offset);
    if ItemsOf(h, keys, env, s, 0).Err? || n < 0 {
      SortIgnoresLimitOnError(h, keys, n, env, s);
    } else {
      SortCut(h, keys, n, env, s);
      if offset >= 0 || |s.rows| <= n {
        PushdownKeeps(count, offset, n, SortS(h, keys, -1, env, s));
      } else {
        PushdownLoses(count, offset, n, SortS(h, keys, -1, env, s));
      }
    }
  }

  lemma PushdownKeeps(count: nat, offset: int, n: nat, full: Stream)
    requires full.end.None? && (n >= |full.rows| || (offset >= 0 && n == count + offset))
    ensures LimitS(count, offset, Stream(Take(n, full.rows), None)) == LimitS(count, offset, full)
  {
    if n < |full.rows| {
      LimitReadsPrefix(count, offset, n, full);
    }
  }

  /**
   * The offsets the parser lets through are not negative (parser/parser.go:331-333), so whatever the
   * sum wraps to, the pushed-down limit changes nothing.
   */
  lemma PushdownKeepsResult(h: Host, keys: seq<SortKey>, count: int64, offset: int64, env: Env, s: Stream)
    requires count >= 0 && offset >= 0
    ensures LimitS(count, offset, SortS(h, keys, Wrap(count + offset), env, s)) ==
            LimitS(count, offset, SortS(h, keys, -1, env, s))
  {
    PushdownExact(h, keys, count, offset, env, s);
  }
}
