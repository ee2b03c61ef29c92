// What each operator delivers, row by row, in terms of the rows that come in: which of them, in which
// order, and up to which error. The operators of exec/operators.go are proved against the streams.
module Delivery {
  import opened Bytes
  import opened Values
  import opened KeyCodec
  import opened Ast
  import opened Eval
  import opened Conditions
  import opened Sorting
  import opened Streams
  import opened Schema
  import opened Select

  // ------------------------------------------------------------------
  // Picking rows out in order
  // ------------------------------------------------------------------

  /** Ascending positions of some rows. */
  predicate Picks(idx: seq<nat>, n: nat) {
    (forall i :: 0 <= i < |idx| ==> idx[i] < n) && (forall i, j :: 0 <= i < j < |idx| ==> idx[i] < idx[j])
  }

  predicate Picked<T(==)>(out: seq<T>, rows: seq<T>, idx: seq<nat>) {
    |out| == |idx| && forall i :: 0 <= i < |idx| ==> idx[i] < |rows| && out[i] == rows[idx[i]]
  }

  /** The positions picked in a tail, seen from the whole, with the head's or without. */
  function Onward(head: bool, idx: seq<nat>): (r: seq<nat>)
    ensures |r| == |idx| + if head then 1 else 0
    ensures forall i :: 0 <= i < |r| ==> r[i] == if !head then idx[i] + 1 else if i == 0 then 0 else idx[i - 1] + 1
  {
    seq(|idx| + if head then 1 else 0, i requires 0 <= i < |idx| + if head then 1 else 0 =>
      if !head then idx[i] + 1 else if i == 0 then 0 else idx[i - 1] + 1)
  }

  lemma OnwardMembers(head: bool, idx: seq<nat>, k: nat)
    ensures k + 1 in Onward(head, idx) <==> k in idx
    ensures 0 in Onward(head, idx) <==> head
  {
    var r := Onward(head, idx);
    if k in idx {
      var i :| 0 <= i < |idx| && idx[i] == k;
      assert r[if head then i + 1 else i] == k + 1;
    }
    if k + 1 in r {
      var i :| 0 <= i < |r| && r[i] == k + 1;
      assert idx[if head then i - 1 else i] == k;
    }
    if head {
      assert r[0] == 0;
    }
  }

  lemma OnwardPicks(head: bool, idx: seq<nat>, n: nat)
    requires Picks(idx, n)
    ensures Picks(Onward(head, idx), n + 1)
  {
    var r := Onward(head, idx);
    forall i, j | 0 <= i < j < |r| ensures r[i] < r[j] {
    }
  }

  lemma OnwardPicked<T>(head: bool, out: seq<T>, rows: seq<T>, idx: seq<nat>)
    requires rows != [] && Picked(out, rows[1..], idx)
    ensures Picked(if head then [rows[0]] + out else out, rows, Onward(head, idx))
  {
    var r := Onward(head, idx);
    var all := if head then [rows[0]] + out else out;
    forall i | 0 <= i < |r| ensures r[i] < |rows| && all[i] == rows[r[i]] {
      if !head || i > 0 {
        var k := idx[if head then i - 1 else i];
        assert rows[1..][k] == rows[k + 1];
      }
    }
  }

  // ------------------------------------------------------------------
  // Filter and Project
  // ------------------------------------------------------------------

  /** Filter: of the rows before the first without an answer, in order, exactly those that satisfy the condition. */
  ghost predicate Filtered(h: Host, pred: Expr, env: Env, s: Stream, out: Stream, n: nat, idx: seq<nat>) {
    && n <= |s.rows| && Picks(idx, n) && Picked(out.rows, s.rows, idx)
    && (forall k :: 0 <= k < n ==> HasAnswer(h, pred, env, s.rows[k]) && (k in idx <==> Satisfied(h, pred, env, s.rows[k])))
    && (if n == |s.rows| then out.end == s.end
        else !HasAnswer(h, pred, env, s.rows[n]) && out.end.Some? && EvalPredicate(h, pred, env, s.rows[n]) == Err(out.end.value))
  }

  lemma FilterDone(h: Host, pred: Expr, env: Env, s: Stream)
    requires s.rows == [] || !HasAnswer(h, pred, env, s.rows[0])
    ensures Filtered(h, pred, env, s, FilterS(h, pred, env, s), 0, [])
  {
    if s.rows != [] {
      ConditionMeans(h, pred, env, s.rows[0]);
    }
    hide EvalPredicate, HasAnswer, Satisfied, Refuted;
  }

  lemma {:induction false} FilterDelivers(h: Host, pred: Expr, env: Env, s: Stream) returns (n: nat, idx: seq<nat>)
    ensures Filtered(h, pred, env, s, FilterS(h, pred, env, s), n, idx)
    decreases |s.rows|
  {
    hide EvalPredicate, HasAnswer, Satisfied, Refuted, Filtered, FilterS;
    if s.rows == [] || !HasAnswer(h, pred, env, s.rows[0]) {
      n, idx := 0, [];
      FilterDone(h, pred, env, s);
    } else {
      var m, rest := FilterDelivers(h, pred, env, Tail(s));
      var keep := Satisfied(h, pred, env, s.rows[0]);
      FilterHead(h, pred, env, s);
      FilteredMore(h, pred, env, s, FilterS(h, pred, env, Tail(s)), m, rest);
      n, idx := m + 1, Onward(keep, rest);
    }
  }

  lemma FilterHead(h: Host, pred: Expr, env: Env, s: Stream)
    requires s.rows != [] && HasAnswer(h, pred, env, s.rows[0])
    ensures var more := FilterS(h, pred, env, Tail(s));
            FilterS(h, pred, env, s) == if Satisfied(h, pred, env, s.rows[0]) then Cons(s.rows[0], more) else more
  {
    ConditionMeans(h, pred, env, s.rows[0]);
    hide EvalPredicate, HasAnswer, Satisfied, Refuted;
  }

  lemma FilteredMore(h: Host, pred: Expr, env: Env, s: Stream, more: Stream, m: nat, rest: seq<nat>)
    requires s.rows != [] && HasAnswer(h, pred, env, s.rows[0]) && Filtered(h, pred, env, Tail(s), more, m, rest)
    ensures var keep := Satisfied(h, pred, env, s.rows[0]);
            Filtered(h, pred, env, s, if keep then Cons(s.rows[0], more) else more, m + 1,
                     Onward(keep, rest))
  {
    hide EvalPredicate, HasAnswer, Satisfied, Picks, Picked, Onward;
    var keep := Satisfied(h, pred, env, s.rows[0]);
    var all := Onward(keep, rest);
    OnwardPicks(keep, rest, m);
    OnwardPicked(keep, more.rows, s.rows, rest);
    forall k | 0 <= k < m + 1
      ensures HasAnswer(h, pred, env, s.rows[k]) && (k in all <==> Satisfied(h, pred, env, s.rows[k]))
    {
      if k > 0 {
        assert Tail(s).rows[k - 1] == s.rows[k];
        OnwardMembers(keep, rest, k - 1);
      } else {
        OnwardMembers(keep, rest, 0);
      }
    }
  }

  /** Expressions left to right: all their values, or the error of the first that fails. */
  ghost predicate AllValues(h: Host, exprs: seq<Expr>, env: Env, row: Row, r: Result<Row>) {
    match r
    case Ok(out) => |out| == |exprs| && forall i :: 0 <= i < |exprs| ==> EvalExpr(h, exprs[i], env, row) == Ok(out[i])
    case Err(e) => exists i :: FailsAt(h, exprs, env, row, i, e)
  }

  ghost predicate FailsAt(h: Host, exprs: seq<Expr>, env: Env, row: Row, i: nat, e: Error) {
    i < |exprs| && EvalExpr(h, exprs[i], env, row) == Err(e) && forall j :: 0 <= j < i ==> EvalExpr(h, exprs[j], env, row).Ok?
  }

  lemma {:induction false} EvalAllMeans(h: Host, exprs: seq<Expr>, env: Env, row: Row)
    ensures AllValues(h, exprs, env, row, EvalAll(h, exprs, env, row))
  {
    if exprs != [] {
      hide EvalExpr;
      var n := |exprs| - 1;
      EvalAllMeans(h, exprs[..n], env, row);
      assert forall i :: 0 <= i < n ==> exprs[..n][i] == exprs[i];
      var before, r := EvalAll(h, exprs[..n], env, row), EvalAll(h, exprs, env, row);
      if before.Err? {
        var i :| FailsAt(h, exprs[..n], env, row, i, before.error);
        assert FailsAt(h, exprs, env, row, i, r.error);
      } else if r.Err? {
        assert FailsAt(h, exprs, env, row, n, r.error);
      }
    }
  }

  /** Project: each row's expressions, up to the first row on which one of them fails. */
  ghost predicate Projected(h: Host, exprs: seq<Expr>, env: Env, s: Stream, out: Stream) {
    && |out.rows| <= |s.rows|
    && (forall k :: 0 <= k < |out.rows| ==> AllValues(h, exprs, env, s.rows[k], Ok(out.rows[k])))
    && (if |out.rows| == |s.rows| then out.end == s.end
        else out.end.Some? && AllValues(h, exprs, env, s.rows[|out.rows|], Err(out.end.value)))
  }

  lemma {:induction false} ProjectDelivers(h: Host, exprs: seq<Expr>, env: Env, s: Stream)
    ensures Projected(h, exprs, env, s, ProjectS(h, exprs, env, s))
    decreases |s.rows|
  {
    hide AllValues, EvalAll;
    if s.rows != [] {
      EvalAllMeans(h, exprs, env, s.rows[0]);
      ProjectDelivers(h, exprs, env, Tail(s));
      if EvalAll(h, exprs, env, s.rows[0]).Ok? {
        ProjectedMore(h, exprs, env, s, EvalAll(h, exprs, env, s.rows[0]).value, ProjectS(h, exprs, env, Tail(s)));
      }
    }
  }

  lemma ProjectedMore(h: Host, exprs: seq<Expr>, env: Env, s: Stream, out: Row, more: Stream)
    requires s.rows != [] && AllValues(h, exprs, env, s.rows[0], Ok(out)) && Projected(h, exprs, env, Tail(s), more)
    ensures Projected(h, exprs, env, s, Cons(out, more))
  {
    hide AllValues;
    assert forall k :: 0 < k < |s.rows| ==> s.rows[k] == Tail(s).rows[k - 1];
  }

  // ------------------------------------------------------------------
  // Limit and Distinct
  // ------------------------------------------------------------------

  function AtLeastZero(n: int): nat { if n < 0 then 0 else n }

  /** The rows from a position on, count of them at most, a negative count setting no bound. */
  function Cut(count: int, from: nat, s: Stream): Stream {
    if |s.rows| < from then Stream([], s.end)
    else if count < 0 || |s.rows| - from < count then Stream(s.rows[from..], s.end)
    else Stream(s.rows[from..from + count], None)
  }

  lemma CutTail(count: int, from: nat, s: Stream)
    requires s.rows != [] && from > 0
    ensures Cut(count, from, s) == Cut(count, from - 1, Tail(s))
  {
    if |s.rows| >= from {
      assert s.rows[from..] == Tail(s).rows[from - 1..];
      if 0 <= count <= |s.rows| - from {
        assert s.rows[from..from + count] == Tail(s).rows[from - 1..from - 1 + count];
      }
    }
  }

  lemma CutHead(count: int, s: Stream)
    requires s.rows != [] && count != 0
    ensures Cut(count, 0, s) == Cons(s.rows[0], Cut(if count < 0 then count else count - 1, 0, Tail(s)))
  {
    if count < 0 || |s.rows| < count {
      assert s.rows[0..] == [s.rows[0]] + Tail(s).rows[0..];
    } else {
      assert s.rows[0..count] == [s.rows[0]] + Tail(s).rows[0..count - 1];
    }
  }

  /** Limit: the rows from position max(skip, 0) on; an error of the input shows only if it is reached. */
  lemma {:induction false} LimitDelivers(count: int, skip: int, s: Stream)
    ensures LimitS(count, skip, s) == Cut(count, AtLeastZero(skip), s)
    decreases |s.rows|
  {
    hide Cut;
    if s.rows == [] || (skip <= 0 && count == 0) {
      CutNothing(count, AtLeastZero(skip), s);
    } else if skip > 0 {
      LimitDelivers(count, skip - 1, Tail(s));
      CutTail(count, skip, s);
    } else {
      LimitDelivers(if count < 0 then count else count - 1, skip, Tail(s));
      CutHead(count, s);
    }
  }

  lemma CutNothing(count: int, from: nat, s: Stream)
    ensures from == 0 && count == 0 ==> Cut(count, from, s) == Stream([], None)
    ensures s.rows == [] && (from > 0 || count != 0) ==> Cut(count, from, s) == s
  {
  }

  /** A row whose encoding neither is among those seen nor belongs to an earlier row. */
  ghost predicate IsFirst(seen: set<bytes>, rows: seq<Row>, k: nat) {
    && k < |rows| && EncAll(rows[k]) !in seen
    && forall j :: 0 <= j < k ==> EncAll(rows[j]) != EncAll(rows[k])
  }

  lemma FirstInTail(seen: set<bytes>, rows: seq<Row>, k: nat)
    requires rows != []
    ensures EncAll(rows[0]) in seen ==> (IsFirst(seen, rows[1..], k) <==> IsFirst(seen, rows, k + 1))
    ensures IsFirst(seen + {EncAll(rows[0])}, rows[1..], k) <==> IsFirst(seen, rows, k + 1)
    ensures IsFirst(seen, rows, 0) <==> EncAll(rows[0]) !in seen
  {
    hide EncAll;
    if k < |rows| - 1 {
      assert rows[1..][k] == rows[k + 1];
      assert forall j :: 0 <= j < k ==> rows[1..][j] == rows[j + 1];
      if IsFirst(seen + {EncAll(rows[0])}, rows[1..], k) {
        forall j | 0 <= j < k + 1 ensures EncAll(rows[j]) != EncAll(rows[k + 1]) {
          if j > 0 {
            assert rows[1..][j - 1] == rows[j];
          }
        }
      }
      if EncAll(rows[0]) in seen && IsFirst(seen, rows[1..], k) {
        forall j | 0 <= j < k + 1 ensures EncAll(rows[j]) != EncAll(rows[k + 1]) {
          if j > 0 {
            assert rows[1..][j - 1] == rows[j];
          }
        }
      }
    }
  }

  /** Distinct: the first row of every encoding, in input order, and nothing else. */
  lemma {:induction false} DistinctDelivers(seen: set<bytes>, s: Stream) returns (idx: seq<nat>)
    ensures Picks(idx, |s.rows|) && Picked(DistinctS(seen, s).rows, s.rows, idx) && DistinctS(seen, s).end == s.end
    ensures forall k: nat :: k in idx <==> IsFirst(seen, s.rows, k)
    decreases |s.rows|
  {
    idx := [];
    if s.rows != [] {
      hide EncAll;
      var keep := EncAll(s.rows[0]) !in seen;
      var more := if keep then seen + {EncAll(s.rows[0])} else seen;
      var rest := DistinctDelivers(more, Tail(s));
      idx := Onward(keep, rest);
      OnwardPicks(keep, rest, |s.rows| - 1);
      OnwardPicked(keep, DistinctS(more, Tail(s)).rows, s.rows, rest);
      hide Picks, Picked, Onward;
      forall k: nat ensures k in idx <==> IsFirst(seen, s.rows, k) {
        if k > 0 {
          FirstInTail(seen, s.rows, k - 1);
          OnwardMembers(keep, rest, k - 1);
        } else {
          FirstInTail(seen, s.rows, 0);
          OnwardMembers(keep, rest, 0);
        }
      }
    }
  }

  /** So no two rows delivered have one encoding, and every row that came in has one of its encoding delivered. */
  lemma DistinctIsDistinct(s: Stream)
    ensures var out := DistinctS({}, s).rows;
            && (forall i, j :: 0 <= i < j < |out| ==> EncAll(out[i]) != EncAll(out[j]))
            && (forall r :: r in s.rows ==> exists i :: 0 <= i < |out| && EncAll(out[i]) == EncAll(r))
  {
    var idx := DistinctDelivers({}, s);
    hide EncAll, DistinctS;
    var out := DistinctS({}, s).rows;
    forall i, j | 0 <= i < j < |out| ensures EncAll(out[i]) != EncAll(out[j]) {
      assert IsFirst({}, s.rows, idx[j]) by {
        assert idx[j] in idx;
      }
    }
    forall r | r in s.rows ensures exists i :: 0 <= i < |out| && EncAll(out[i]) == EncAll(r) {
      var k :| 0 <= k < |s.rows| && s.rows[k] == r;
      var f := FirstOf(s.rows, k);
      assert f in idx;
      var i :| 0 <= i < |idx| && idx[i] == f;
      assert out[i] == s.rows[f];
    }
  }

  lemma {:induction false} FirstOf(rows: seq<Row>, k: nat) returns (f: nat)
    requires k < |rows|
    ensures IsFirst({}, rows, f) && EncAll(rows[f]) == EncAll(rows[k])
  {
    hide EncAll;
    if j :| 0 <= j < k && EncAll(rows[j]) == EncAll(rows[k]) {
      f := FirstOf(rows, j);
    } else {
      f := k;
    }
  }

  // ------------------------------------------------------------------
  // Sort
  // ------------------------------------------------------------------

  /** The value of one sort key on a row. */
  function KeyValue(h: Host, key: SortKey, env: Env, row: Row): Value {
    if EvalExpr(h, key.expr, env, row).Ok? then EvalExpr(h, key.expr, env, row).value else Null
  }

  /** Key k is the first on which the rows differ, and it puts a before b: above it under DESC, below it otherwise. */
  ghost predicate KeyDecides(h: Host, keys: seq<SortKey>, env: Env, a: Row, b: Row, k: nat) {
    && k < |keys|
    && (forall j :: 0 <= j < k ==> Order(KeyValue(h, keys[j], env, a), KeyValue(h, keys[j], env, b)) == 0)
    && if keys[k].desc then Order(KeyValue(h, keys[k], env, a), KeyValue(h, keys[k], env, b)) > 0
       else Order(KeyValue(h, keys[k], env, a), KeyValue(h, keys[k], env, b)) < 0
  }

  /** ORDER BY puts row a, which came in as number m, before row b, which came in as number n. */
  ghost predicate Precedes(h: Host, keys: seq<SortKey>, env: Env, a: Row, m: nat, b: Row, n: nat) {
    || (exists k :: KeyDecides(h, keys, env, a, b, k))
    || (m < n && forall k :: 0 <= k < |keys| ==> Order(KeyValue(h, keys[k], env, a), KeyValue(h, keys[k], env, b)) == 0)
  }

  /** perm rearranges n positions. */
  predicate Rearranges(perm: seq<nat>, n: nat) {
    |perm| == n && (forall i :: 0 <= i < n ==> perm[i] < n) && forall i, j :: 0 <= i < j < n ==> perm[i] != perm[j]
  }

  lemma {:induction false} ItemKeys(h: Host, keys: seq<SortKey>, env: Env, s: Stream, num: nat, i: nat)
    requires ItemsOf(h, keys, env, s, num).Ok? && i < |s.rows|
    ensures |ItemsOf(h, keys, env, s, num).value| == |s.rows|
    ensures var x := ItemsOf(h, keys, env, s, num).value[i];
            x.row == s.rows[i] && x.num == num + i && EvalAll(h, KeyExprs(keys), env, s.rows[i]) == Ok(x.keys)
    decreases i
  {
    hide EvalAll;
    if i > 0 {
      ItemKeys(h, keys, env, Tail(s), num + 1, i - 1);
    }
  }

  lemma KeyValues(h: Host, keys: seq<SortKey>, env: Env, row: Row, vs: Row)
    requires EvalAll(h, KeyExprs(keys), env, row) == Ok(vs)
    ensures |vs| == |keys| && forall k :: 0 <= k < |keys| ==> KeyValue(h, keys[k], env, row) == vs[k]
  {
    EvalAllMeans(h, KeyExprs(keys), env, row);
    hide EvalExpr, EvalAll;
  }

  /** The order of items is the order of the rows they stand for. */
  lemma ItemsPrecede(h: Host, keys: seq<SortKey>, env: Env, a: Item, b: Item)
    requires |a.keys| == |b.keys| == |keys| && ComesBefore(Directions(keys), a, b)
    requires forall k :: 0 <= k < |keys| ==> KeyValue(h, keys[k], env, a.row) == a.keys[k]
    requires forall k :: 0 <= k < |keys| ==> KeyValue(h, keys[k], env, b.row) == b.keys[k]
    ensures Precedes(h, keys, env, a.row, a.num, b.row, b.num)
  {
    hide KeyValue, Order;
    if i: nat :| DecidesAt(Directions(keys), a.keys, b.keys, i) {
      assert Directions(keys)[i] == keys[i].desc;
      assert KeyDecides(h, keys, env, a.row, b.row, i);
    }
  }

  lemma SortOfOk(h: Host, keys: seq<SortKey>, env: Env, s: Stream)
    requires ItemsOf(h, keys, env, s, 0).Ok?
    ensures Fits(Directions(keys), ItemsOf(h, keys, env, s, 0).value)
    ensures SortS(h, keys, -1, env, s) == Stream(RowsOf(Sort(Directions(keys), ItemsOf(h, keys, env, s, 0).value)), None)
  {
  }

  /** The arrival numbers of a sorted list of numbered items. */
  function Numbers(items: seq<Item>): (r: seq<nat>)
    ensures |r| == |items| && forall i :: 0 <= i < |items| ==> r[i] == items[i].num
  {
    seq(|items|, i requires 0 <= i < |items| => items[i].num)
  }

  lemma NumbersRearrange(desc: seq<bool>, items: seq<Item>)
    requires Fits(desc, items) && forall i :: 0 <= i < |items| ==> items[i].num == i
    ensures Numbered(items) && Rearranges(Numbers(Sort(desc, items)), |items|)
    ensures forall x :: x in Sort(desc, items) ==> x in items
  {
    var sorted := Sort(desc, items);
    SortMultiset(desc, items);
    SortInOrder(desc, items);
    forall x | x in sorted ensures x in items {
      assert x in multiset(sorted) && x in multiset(items);
    }
    forall i | 0 <= i < |sorted| ensures sorted[i].num < |items| {
      assert sorted[i] in sorted;
    }
    forall i, j | 0 <= i < j < |sorted| ensures sorted[i].num != sorted[j].num {
      assert Less(desc, sorted[i], sorted[j]);
      SameNumber(desc, items, sorted, i, j);
    }
  }

  lemma SameNumber(desc: seq<bool>, items: seq<Item>, sorted: seq<Item>, i: nat, j: nat)
    requires Fits(desc, items) && Fits(desc, sorted) && (forall k :: 0 <= k < |items| ==> items[k].num == k)
    requires (forall x :: x in sorted ==> x in items) && i < j < |sorted| && Less(desc, sorted[i], sorted[j])
    ensures sorted[i].num != sorted[j].num
  {
    assert sorted[i] in items && sorted[j] in items;
    if sorted[i].num == sorted[j].num {
      assert sorted[i] == sorted[j];
      CmpKeysFlip(desc, sorted[i].keys, sorted[i].keys);
    }
  }

  ghost predicate KeysHold(h: Host, keys: seq<SortKey>, env: Env, row: Row) {
    forall k :: 0 <= k < |keys| ==> EvalExpr(h, keys[k].expr, env, row).Ok?
  }

  /** Row n is the first on which a key fails, and e is the error of the first that does. */
  ghost predicate KeysFailAt(h: Host, keys: seq<SortKey>, env: Env, rows: seq<Row>, n: nat, e: Error) {
    n < |rows| && AllValues(h, KeyExprs(keys), env, rows[n], Err(e)) && forall k :: 0 <= k < n ==> KeysHold(h, keys, env, rows[k])
  }

  /** A sort that fails: on the first key that has no value, or with the error its input ends in. */
  ghost predicate SortError(h: Host, keys: seq<SortKey>, env: Env, s: Stream, e: Error) {
    || (exists n :: KeysFailAt(h, keys, env, s.rows, n, e))
    || ((forall k :: 0 <= k < |s.rows| ==> KeysHold(h, keys, env, s.rows[k])) && s.end == Some(e))
  }

  lemma KeysHoldMeans(h: Host, keys: seq<SortKey>, env: Env, row: Row)
    ensures var r := EvalAll(h, KeyExprs(keys), env, row);
            (r.Ok? ==> KeysHold(h, keys, env, row)) && (r.Err? ==> AllValues(h, KeyExprs(keys), env, row, r))
  {
    EvalAllMeans(h, KeyExprs(keys), env, row);
    hide EvalExpr, EvalAll;
    assert forall k :: 0 <= k < |keys| ==> KeyExprs(keys)[k] == keys[k].expr;
  }

  lemma {:induction false} ItemsError(h: Host, keys: seq<SortKey>, env: Env, s: Stream, num: nat)
    ensures var r := ItemsOf(h, keys, env, s, num);
            if r.Err? then SortError(h, keys, env, s, r.error)
            else s.end == None && forall k :: 0 <= k < |s.rows| ==> KeysHold(h, keys, env, s.rows[k])
    decreases |s.rows|
  {
    if s.rows != [] {
      KeysHoldMeans(h, keys, env, s.rows[0]);
      ItemsError(h, keys, env, Tail(s), num + 1);
      ItemsStep(h, keys, env, s, num);
      var mine, more := EvalAll(h, KeyExprs(keys), env, s.rows[0]), ItemsOf(h, keys, env, Tail(s), num + 1);
      hide ItemsOf, EvalAll, KeysHold, AllValues;
      assert forall k :: 0 < k < |s.rows| ==> s.rows[k] == Tail(s).rows[k - 1];
      if mine.Err? {
        assert KeysFailAt(h, keys, env, s.rows, 0, mine.error);
      } else if more.Err? {
        ErrorInTail(h, keys, env, s, more.error);
      }
    }
  }

  lemma ErrorInTail(h: Host, keys: seq<SortKey>, env: Env, s: Stream, e: Error)
    requires s.rows != [] && KeysHold(h, keys, env, s.rows[0]) && SortError(h, keys, env, Tail(s), e)
    ensures SortError(h, keys, env, s, e)
  {
    hide KeysHold, AllValues;
    assert forall k :: 0 < k < |s.rows| ==> s.rows[k] == Tail(s).rows[k - 1];
    if n: nat :| KeysFailAt(h, keys, env, Tail(s).rows, n, e) {
      assert KeysFailAt(h, keys, env, s.rows, n + 1, e);
    }
  }

  /** What came out of a sort, and how perm rearranged it. */
  ghost predicate InKeyOrder(h: Host, keys: seq<SortKey>, env: Env, s: Stream, out: Stream, perm: seq<nat>) {
    if out.end.Some? then out.rows == [] && SortError(h, keys, env, s, out.end.value)
    else
      && s.end == None && (forall k :: 0 <= k < |s.rows| ==> KeysHold(h, keys, env, s.rows[k]))
      && Rearranges(perm, |s.rows|) && |out.rows| == |s.rows|
      && (forall i :: 0 <= i < |out.rows| ==> out.rows[i] == s.rows[perm[i]])
      && forall i, j :: 0 <= i < j < |out.rows| ==> Precedes(h, keys, env, out.rows[i], perm[i], out.rows[j], perm[j])
  }

  /**
   * Sort: the rows that came in, rearranged so that every earlier one precedes every later one; it
   * fails exactly if the input ends in an error or a key fails on some row.
   */
  lemma SortDelivers(h: Host, keys: seq<SortKey>, env: Env, s: Stream) returns (perm: seq<nat>)
    ensures InKeyOrder(h, keys, env, s, SortS(h, keys, -1, env, s), perm)
  {
    hide Precedes, ItemsOf, KeyValue, EvalAll, KeysHold, SortError, Rearranges;
    ItemsError(h, keys, env, s, 0);
    perm := [];
    if ItemsOf(h, keys, env, s, 0).Ok? {
      SortOfOk(h, keys, env, s);
      perm := SortPermutes(h, keys, env, s);
    }
  }

  lemma SortPermutes(h: Host, keys: seq<SortKey>, env: Env, s: Stream) returns (perm: seq<nat>)
    requires ItemsOf(h, keys, env, s, 0).Ok?
    ensures var out := SortS(h, keys, -1, env, s).rows;
            && Rearranges(perm, |s.rows|) && |out| == |s.rows| && (forall i :: 0 <= i < |out| ==> out[i] == s.rows[perm[i]])
            && forall i, j :: 0 <= i < j < |out| ==> Precedes(h, keys, env, out[i], perm[i], out[j], perm[j])
  {
    hide Precedes, ItemsOf, KeyValue, EvalAll;
    var desc, items := Directions(keys), ItemsOf(h, keys, env, s, 0).value;
    SortOfOk(h, keys, env, s);
    hide SortS;
    NumbersRearrange(desc, items);
    SortedComesBefore(desc, items);
    var sorted := Sort(desc, items);
    perm := Numbers(sorted);
    hide Sort, ComesBefore;
    forall i | 0 <= i < |sorted|
      ensures perm[i] < |s.rows| && sorted[i].row == s.rows[perm[i]] && |sorted[i].keys| == |keys|
      ensures forall k :: 0 <= k < |keys| ==> KeyValue(h, keys[k], env, sorted[i].row) == sorted[i].keys[k]
    {
      assert sorted[i] in items;
      ItemKeys(h, keys, env, s, 0, sorted[i].num);
      KeyValues(h, keys, env, sorted[i].row, sorted[i].keys);
    }
    forall i, j | 0 <= i < j < |sorted|
      ensures Precedes(h, keys, env, sorted[i].row, perm[i], sorted[j].row, perm[j])
    {
      ItemsPrecede(h, keys, env, sorted[i], sorted[j]);
    }
  }

  // ------------------------------------------------------------------
  // The SELECT list
  // ------------------------------------------------------------------

  /** What one item stands for. */
  function Written(t: Table, item: SelectItem): seq<Expr> {
    if item.AllColumns? then ColumnRefs(t.columns) else [item.expr]
  }

  /** Each item stands where it was written, a star as all the columns of the table in order. */
  lemma {:induction false} ExpandedAt(t: Table, before: seq<SelectItem>, item: SelectItem, after: seq<SelectItem>)
    ensures Expanded(t, before + [item] + after) ==
            Expanded(t, before) + Written(t, item) + Expanded(t, after)
    ensures Expanded(t, []) == []
  {
    hide ColumnRefs, Expanded;
    NothingExpanded(t);
    if after == [] {
      assert before + [item] + after == before + [item];
      ExpandedLast(t, before, item);
      assert Expanded(t, before) + Written(t, item) + [] == Expanded(t, before) + Written(t, item);
    } else {
      var n := |after| - 1;
      ExpandedAt(t, before, item, after[..n]);
      ExpandedLast(t, after[..n], after[n]);
      ExpandedLast(t, before + [item] + after[..n], after[n]);
      assert after == after[..n] + [after[n]];
      assert before + [item] + after == before + [item] + after[..n] + [after[n]];
    }
  }

  lemma NothingExpanded(t: Table)
    ensures Expanded(t, []) == []
  {
  }

  lemma ExpandedLast(t: Table, before: seq<SelectItem>, item: SelectItem)
    ensures Expanded(t, before + [item]) == Expanded(t, before) + Written(t, item)
  {
    hide ColumnRefs;
    assert (before + [item])[..|before|] == before;
  }
}
