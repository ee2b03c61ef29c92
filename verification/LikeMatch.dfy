// LIKE: the single-backtrack greedy matcher of types/ops.go.
module LikeMatch {

  type Rune = int

  type Runes = seq<Rune>

  const PERCENT: Rune := 0x25
  const UNDERSCORE: Rune := 0x5F

  /** LIKE without ESCAPE (section 8.5 of ISO/IEC 9075-2:2003). */
  predicate SqlLike(t: Runes, p: Runes)
    decreases |p|, |t|
  {
    if p == [] then t == []
    else if p[0] == PERCENT then SqlLike(t, p[1..]) || (t != [] && SqlLike(t[1..], p))
    else t != [] && Fits(p[0], t[0]) && SqlLike(t[1..], p[1..])
  }

  /** One pattern rune against one text rune, before '%' is considered. */
  predicate Fits(p: Rune, t: Rune) { p == UNDERSCORE || p == t }

  /** What the code decides: a '%' facing a '%' of the text is an ordinary character. */
  predicate CodeLike(t: Runes, p: Runes)
    decreases |p|, |t|, 0
  {
    if p == [] then t == []
    else if t != [] && Fits(p[0], t[0]) then CodeLike(t[1..], p[1..])
    else p[0] == PERCENT && SomeSuffix(t, p[1..])
  }

  /** The pattern matches some suffix of the text. */
  predicate SomeSuffix(t: Runes, p: Runes)
    decreases |p|, |t|, 1
  {
    CodeLike(t, p) || (t != [] && SomeSuffix(t[1..], p))
  }

  lemma {:induction false} SuffixAt(t: Runes, k: nat, p: Runes)
    requires k <= |t| && CodeLike(t[k..], p)
    ensures SomeSuffix(t, p)
  {
    if k == 0 {
      assert t[0..] == t;
    } else {
      assert t[1..][k - 1..] == t[k..];
      SuffixAt(t[1..], k - 1, p);
    }
  }

  lemma {:induction false} SuffixWitness(t: Runes, p: Runes) returns (k: nat)
    requires SomeSuffix(t, p)
    ensures k <= |t| && CodeLike(t[k..], p)
  {
    if CodeLike(t, p) {
      assert t[0..] == t;
      k := 0;
    } else {
      k := SuffixWitness(t[1..], p);
      assert t[1..][k..] == t[k + 1..];
      k := k + 1;
    }
  }

  /** q[..j] stands rune by rune on t[m..m+j]. */
  ghost predicate Aligned(t: Runes, m: nat, q: Runes, j: nat) {
    m + j <= |t| && j <= |q| && forall i :: 0 <= i < j ==> Fits(q[i], t[m + i])
  }

  lemma AlignedTail(t: Runes, m: nat, q: Runes, j: nat)
    requires Aligned(t, m, q, j) && j > 0
    ensures Aligned(t, m + 1, q[1..], j - 1)
  {
    forall i | 0 <= i < j - 1 ensures Fits(q[1..][i], t[m + 1 + i]) {
      assert Fits(q[i + 1], t[m + (i + 1)]);
    }
  }

  /**
   * The aligned attempt reaches its end no later than any attempt that starts further right,
   * so whatever such an attempt can still match, a suffix of what is left here matches too.
   */
  lemma {:induction false} NoLaterAttemptBetter(t: Runes, m: nat, q: Runes, j: nat, k: nat) returns (l: nat)
    requires Aligned(t, m, q, j) && m <= k <= |t|
    requires CodeLike(t[k..], q)
    ensures m + j <= l <= |t| && CodeLike(t[l..], q[j..])
    decreases j
  {
    if j == 0 {
      assert q[0..] == q;
      l := k;
    } else {
      AlignedTail(t, m, q, j);
      assert Fits(q[0], t[m + 0]);
      assert q[1..][j - 1..] == q[j..];
      if k < |t| && Fits(q[0], t[k]) {
        assert t[k..][1..] == t[k + 1..];
        l := NoLaterAttemptBetter(t, m + 1, q[1..], j - 1, k + 1);
      } else {
        var n := SuffixWitness(t[k..], q[1..]);
        assert t[k..][n..] == t[k + n..];
        l := NoLaterAttemptBetter(t, m + 1, q[1..], j - 1, k + n);
      }
    }
  }

  lemma SuffixFurther(t: Runes, k: nat, l: nat, p: Runes)
    requires k <= l <= |t| && SomeSuffix(t[l..], p)
    ensures SomeSuffix(t[k..], p)
  {
    var n := SuffixWitness(t[l..], p);
    assert t[l..][n..] == t[l + n..] == t[k..][l + n - k..];
    SuffixAt(t[k..], l + n - k, p);
  }

  lemma LaterAttempt(t: Runes, m: nat, q: Runes, j: nat) returns (l: nat)
    requires Aligned(t, m, q, j) && m < |t| && SomeSuffix(t[m + 1..], q)
    ensures m + j <= l <= |t| && CodeLike(t[l..], q[j..])
  {
    var n := SuffixWitness(t[m + 1..], q);
    assert t[m + 1..][n..] == t[m + 1 + n..];
    l := NoLaterAttemptBetter(t, m, q, j, m + 1 + n);
  }

  lemma PercentMatches(t: Runes, p: Runes)
    requires p != [] && p[0] == PERCENT && CodeLike(t, p)
    ensures SomeSuffix(t, p[1..])
  {
    if t != [] && Fits(p[0], t[0]) {
      assert SomeSuffix(t[1..], p[1..]);
    }
  }

  /** Reaching a '%' with an aligned attempt makes every other pending attempt redundant. */
  lemma CommitToLastStar(t: Runes, m: nat, q: Runes, j: nat)
    requires Aligned(t, m, q, j) && m < |t| && SomeSuffix(t[m + 1..], q)
    requires j < |q| && q[j] == PERCENT
    ensures SomeSuffix(t[m + j..], q[j + 1..])
  {
    hide SomeSuffix, CodeLike, Aligned;
    var l := LaterAttempt(t, m, q, j);
    PercentMatches(t[l..], q[j..]);
    assert q[j..][1..] == q[j + 1..];
    SuffixFurther(t, m + j, l, q[j + 1..]);
  }

  /** The same at the end of the text. */
  lemma CommitAtEnd(t: Runes, m: nat, q: Runes)
    requires m < |t| && Aligned(t, m, q, |t| - m) && SomeSuffix(t[m + 1..], q)
    ensures CodeLike(t[|t|..], q[|t| - m..])
  {
    var l := LaterAttempt(t, m, q, |t| - m);
  }

  /** The answer still open: the attempt under way, or the last '%' swallowing more. */
  ghost predicate Pending(t: Runes, p: Runes, ti: nat, pi: nat, star: int, mark: nat)
    requires ti <= |t| && pi <= |p| && -1 <= star < |p| && mark <= |t|
  {
    CodeLike(t[ti..], p[pi..]) || (star >= 0 && mark < |t| && SomeSuffix(t[mark + 1..], p[star + 1..]))
  }

  /** The loop invariant: the open answer is the whole answer, and the attempt is aligned. */
  ghost predicate Scanning(t: Runes, p: Runes, ti: nat, pi: nat, star: int, mark: nat) {
    && mark <= ti <= |t| && -1 <= star < pi <= |p|
    && (star >= 0 ==> ti - mark == pi - (star + 1) && Aligned(t, mark, p[star + 1..], ti - mark))
    && CodeLike(t, p) == Pending(t, p, ti, pi, star, mark)
  }

  lemma ScanStart(t: Runes, p: Runes)
    ensures Scanning(t, p, 0, 0, -1, 0)
  {
    assert t[0..] == t && p[0..] == p;
  }

  lemma StepMatch(t: Runes, p: Runes, ti: nat, pi: nat, star: int, mark: nat)
    requires Scanning(t, p, ti, pi, star, mark)
    requires ti < |t| && pi < |p| && Fits(p[pi], t[ti])
    ensures Scanning(t, p, ti + 1, pi + 1, star, mark)
  {
    assert t[ti..][1..] == t[ti + 1..] && p[pi..][1..] == p[pi + 1..];
  }

  lemma StepStar(t: Runes, p: Runes, ti: nat, pi: nat, star: int, mark: nat)
    requires Scanning(t, p, ti, pi, star, mark)
    requires ti < |t| && pi < |p| && p[pi] == PERCENT && !Fits(p[pi], t[ti])
    ensures Scanning(t, p, ti, pi + 1, pi, ti)
  {
    assert t[ti..][1..] == t[ti + 1..] && p[pi..][1..] == p[pi + 1..];
    assert CodeLike(t[ti..], p[pi..]) == SomeSuffix(t[ti..], p[pi + 1..]);
    assert SomeSuffix(t[ti..], p[pi + 1..]) == Pending(t, p, ti, pi + 1, pi, ti);
    if star >= 0 && SomeSuffix(t[mark + 1..], p[star + 1..]) {
      CommitToLastStar(t, mark, p[star + 1..], ti - mark);
      assert p[star + 1..][ti - mark + 1..] == p[pi + 1..];
    }
  }

  lemma StepBack(t: Runes, p: Runes, ti: nat, pi: nat, star: int, mark: nat)
    requires Scanning(t, p, ti, pi, star, mark)
    requires ti < |t| && (pi < |p| ==> !Fits(p[pi], t[ti]) && p[pi] != PERCENT)
    ensures star >= 0 ==> Scanning(t, p, mark + 1, star + 1, star, mark + 1)
    ensures star < 0 ==> !CodeLike(t, p)
  {
    if star >= 0 && mark + 1 < |t| {
      assert t[mark + 1..][1..] == t[mark + 2..];
    }
  }

  lemma StepEnd(t: Runes, p: Runes, pi: nat, star: int, mark: nat)
    requires Scanning(t, p, |t|, pi, star, mark)
    ensures CodeLike(t, p) == CodeLike(t[|t|..], p[pi..])
  {
    if star >= 0 && mark < |t| && SomeSuffix(t[mark + 1..], p[star + 1..]) {
      CommitAtEnd(t, mark, p[star + 1..]);
      assert p[star + 1..][|t| - mark..] == p[pi..];
    }
  }

  /** The loop decides CodeLike, on every input, in at most (|text|+1)(|pattern|+1) turns. */
  method Match(text: Runes, pat: Runes) returns (matched: bool, ghost turns: nat)
    ensures matched == CodeLike(text, pat)
    ensures turns <= (|text| + 1) * (|pat| + 1)
  {
    var ti, pi := 0, 0;
    var star, mark := -1, 0;
    turns := 0;
    ScanStart(text, pat);
    while ti < |text|
      invariant Scanning(text, pat, ti, pi, star, mark)
      invariant turns <= Spent(mark, pat) + pi
      decreases |text| - mark, |pat| - pi
    {
      turns := turns + 1;
      if pi < |pat| && (pat[pi] == UNDERSCORE || pat[pi] == text[ti]) {
        StepMatch(text, pat, ti, pi, star, mark);
        ti, pi := ti + 1, pi + 1;
      } else if pi < |pat| && pat[pi] == PERCENT {
        StepStar(text, pat, ti, pi, star, mark);
        SpentGrows(mark, ti, pat);
        star := pi;
        pi := pi + 1;
        mark := ti;
      } else {
        StepBack(text, pat, ti, pi, star, mark);
        SpentGrows(mark, |text|, pat);
        if star < 0 {
          return false, turns;
        }
        pi := star + 1;
        mark := mark + 1;
        ti := mark;
      }
    }
    StepEnd(text, pat, pi, star, mark);
    SpentGrows(mark, |text|, pat);
    matched := OnlyPercents(text[|text|..], pat, pi);
  }

  /** The closing loop: what is left of the pattern must be '%' and nothing else. */
  method OnlyPercents(end: Runes, pat: Runes, from: nat) returns (matched: bool)
    requires end == [] && from <= |pat|
    ensures matched == CodeLike(end, pat[from..])
  {
    var pi := from;
    while pi < |pat| && pat[pi] == PERCENT
      invariant pi <= |pat|
      invariant CodeLike(end, pat[from..]) == CodeLike(end, pat[pi..])
    {
      assert pat[pi..][1..] == pat[pi + 1..];
      pi := pi + 1;
    }
    matched := pi == |pat|;
  }

  /** Turns paid for by the times the last '%' has moved on. */
  ghost function Spent(mark: nat, p: Runes): nat { mark * (|p| + 1) }

  lemma SpentGrows(a: nat, b: nat, p: Runes)
    requires a <= b
    ensures Spent(a, p) <= Spent(b, p)
    ensures Spent(a + 1, p) == Spent(a, p) + |p| + 1
    ensures (b + 1) * (|p| + 1) == Spent(b, p) + |p| + 1
  {
  }

  // ------------------------------------------------------------------
  // Against the standard
  // ------------------------------------------------------------------

  lemma {:induction false} SqlLikeSuffix(t: Runes, k: nat, p: Runes)
    requires p != [] && p[0] == PERCENT && k <= |t| && SqlLike(t[k..], p[1..])
    ensures SqlLike(t, p)
    decreases k
  {
    if k == 0 {
      assert t[0..] == t;
    } else {
      assert t[1..][k - 1..] == t[k..];
      SqlLikeSuffix(t[1..], k - 1, p);
    }
  }

  /** The code never accepts what the standard rejects. */
  lemma {:induction false} CodeLikeSound(t: Runes, p: Runes)
    requires CodeLike(t, p)
    ensures SqlLike(t, p)
    decreases |p|
  {
    if p != [] {
      if t != [] && Fits(p[0], t[0]) {
        CodeLikeSound(t[1..], p[1..]);
        if p[0] == PERCENT {
          SqlLikeSuffix(t, 1, p);
        }
      } else {
        var k := SuffixWitness(t, p[1..]);
        CodeLikeSound(t[k..], p[1..]);
        SqlLikeSuffix(t, k, p);
      }
    }
  }

  /** Without '%' in the text the code accepts everything the standard accepts. */
  lemma {:induction false} CodeLikeComplete(t: Runes, p: Runes)
    requires PERCENT !in t && SqlLike(t, p)
    ensures CodeLike(t, p)
    decreases |p|, |t|
  {
    if p != [] {
      if p[0] == PERCENT {
        if SqlLike(t, p[1..]) {
          CodeLikeComplete(t, p[1..]);
        } else {
          CodeLikeComplete(t[1..], p);
          if t[1..] != [] {
            assert t[1] in t;
          }
          assert SomeSuffix(t[1..], p[1..]);
        }
        if t != [] {
          assert t[0] in t;
        }
      } else {
        CodeLikeComplete(t[1..], p[1..]);
      }
    }
  }

  function Blanks(n: nat): Runes { seq(n, i => UNDERSCORE) }

  lemma {:induction false} BlanksMatchLength(t: Runes, n: nat)
    ensures CodeLike(t, Blanks(n)) <==> |t| == n
    ensures SqlLike(t, Blanks(n)) <==> |t| == n
  {
    if n > 0 && t != [] {
      assert Blanks(n)[1..] == Blanks(n - 1);
      BlanksMatchLength(t[1..], n - 1);
    }
  }

  /** The pattern that goes wrong on a text with '%' at position i. */
  function Trap(t: Runes, i: nat): Runes
    requires i < |t|
  {
    Blanks(i) + [PERCENT] + Blanks(|t| - i)
  }

  lemma {:induction false} TrapSprings(t: Runes, i: nat)
    requires i < |t| && t[i] == PERCENT
    ensures SqlLike(t, Trap(t, i)) && !CodeLike(t, Trap(t, i))
    decreases i
  {
    var p := Trap(t, i);
    if i == 0 {
      assert p[1..] == Blanks(|t|);
      BlanksMatchLength(t, |t|);
      BlanksMatchLength(t[1..], |t|);
    } else {
      assert p[1..] == Trap(t[1..], i - 1);
      TrapSprings(t[1..], i - 1);
    }
  }

  /** The text `%` against the pattern `%_`. */
  lemma PercentMissed()
    ensures SqlLike([PERCENT], [PERCENT, UNDERSCORE]) && !CodeLike([PERCENT], [PERCENT, UNDERSCORE])
  {
    assert Trap([PERCENT], 0) == [PERCENT, UNDERSCORE];
    TrapSprings([PERCENT], 0);
  }

  /** The matcher agrees with the standard on every pattern exactly when the text has no '%'. */
  lemma LikeExact(t: Runes)
    ensures (forall p :: CodeLike(t, p) == SqlLike(t, p)) <==> PERCENT !in t
  {
    if PERCENT in t {
      var i :| 0 <= i < |t| && t[i] == PERCENT;
      TrapSprings(t, i);
    } else {
      forall p ensures CodeLike(t, p) == SqlLike(t, p) {
        if CodeLike(t, p) {
          CodeLikeSound(t, p);
        } else if SqlLike(t, p) {
          CodeLikeComplete(t, p);
        }
      }
    }
  }
}
