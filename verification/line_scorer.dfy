/** The line scorer of the border remover: given a binary skeleton mask, an
    axis and an inside-out scan range, find the row or column that most
    likely is the panel's frame line. */
module LineScorer {

  /** A single-channel mask: `cells` holds the rows, each `width` cells wide. */
  datatype Mask = Mask(cells: seq<seq<int>>, width: nat) {
    ghost predicate Valid() {
      forall j :: 0 <= j < |cells| ==> |cells[j]| == width
    }

    function Height(): nat {
      |cells|
    }
  }

  /** A Python `range(start, stop, step)`; the scorer is only ever given step 1 or -1. */
  datatype ScanRange = ScanRange(start: int, stop: int, step: int) {
    ghost predicate Valid() {
      step == 1 || step == -1
    }
  }

  function Abs(n: int): nat {
    if n < 0 then -n else n
  }

  /** `|stop - start|`, the `total_span` of the scan. */
  function Span(r: ScanRange): (s: nat)
    ensures s == r.stop - r.start || s == r.start - r.stop
    ensures s == 0 <==> r.start == r.stop
  {
    Abs(r.stop - r.start)
  }

  /** Number of indices the range produces: never more than the span, and
      the whole span when the range is nonempty. */
  function Len(r: ScanRange): (n: nat)
    requires r.Valid()
    ensures n <= Span(r)
    ensures n > 0 ==> n == Span(r)
  {
    if r.step == 1 then
      (if r.start < r.stop then r.stop - r.start else 0)
    else
      (if r.stop < r.start then r.start - r.stop else 0)
  }

  /** The k-th index the range produces; its progress from `start` is `k`. */
  function Elem(r: ScanRange, k: int): (i: int)
    ensures r.Valid() && 0 <= k ==> Abs(i - r.start) == k
  {
    if r.step == 1 then r.start + k else r.start - k
  }

  /** Membership in the range, stated without reference to iteration order. */
  predicate InRange(r: ScanRange, i: int)
    requires r.Valid()
    ensures InRange(r, i) ==> Abs(i - r.start) < Span(r)
  {
    if r.step == 1 then r.start <= i < r.stop else r.stop < i <= r.start
  }

  lemma InRangeIffElem(r: ScanRange, i: int)
    requires r.Valid()
    ensures InRange(r, i) <==> exists k :: 0 <= k < Len(r) && i == Elem(r, k)
  {
    if InRange(r, i) {
      var k := if r.step == 1 then i - r.start else r.start - i;
      assert 0 <= k < Len(r) && i == Elem(r, k);
    }
  }

  /** Whether index `i` names a row (axis 1) or a column (any other axis) of the mask. */
  predicate LineIndex(mask: Mask, axis: int, i: int) {
    if axis == 1 then 0 <= i < mask.Height() else 0 <= i < mask.width
  }

  /** Every index the range produces names a line of the mask. */
  ghost predicate LinesInBounds(mask: Mask, axis: int, r: ScanRange)
    requires r.Valid()
  {
    forall i :: InRange(r, i) ==> LineIndex(mask, axis, i)
  }

  /** Number of non-zero cells of a line (`np.count_nonzero`). */
  function CountNonzero(s: seq<int>): (c: nat)
    ensures c <= |s|
    ensures c == 0 <==> forall j :: 0 <= j < |s| ==> s[j] == 0
    ensures c == |s| <==> forall j :: 0 <= j < |s| ==> s[j] != 0
  {
    if s == [] then 0
    else CountNonzero(s[..|s| - 1]) + (if s[|s| - 1] != 0 then 1 else 0)
  }

  /** The positions of the non-zero cells of a line. */
  ghost function NonzeroPositions(s: seq<int>): set<int> {
    set j | 0 <= j < |s| && s[j] != 0
  }

  /** Dropping the last cell drops its position, if it was non-zero. */
  lemma NonzeroPositionsOfPrefix(s: seq<int>)
    requires s != []
    ensures NonzeroPositions(s) ==
      NonzeroPositions(s[..|s| - 1]) + (if s[|s| - 1] != 0 then {|s| - 1} else {})
  {
    var n := |s| - 1;
    forall j | j in NonzeroPositions(s)
      ensures j in NonzeroPositions(s[..n]) + (if s[n] != 0 then {n} else {})
    {
      if j < n {
        assert s[..n][j] == s[j];
      }
    }
  }

  lemma {:induction false} CountNonzeroIsCardinality(s: seq<int>)
    ensures CountNonzero(s) == |NonzeroPositions(s)|
  {
    if s != [] {
      var n := |s| - 1;
      CountNonzeroIsCardinality(s[..n]);
      NonzeroPositionsOfPrefix(s);
      assert n !in NonzeroPositions(s[..n]);
    }
  }

  /** Column `i` of the mask, top to bottom (`mask[:, i]`). */
  function Column(mask: Mask, i: int): (col: seq<int>)
    requires mask.Valid() && 0 <= i < mask.width
    ensures |col| == mask.Height()
    ensures forall j :: 0 <= j < |col| ==> col[j] == mask.cells[j][i]
  {
    seq(mask.Height(), j requires 0 <= j < mask.Height() => mask.cells[j][i])
  }

  /** The continuity score: non-zero cells of row `i` (axis 1) or column `i` (otherwise). */
  function LineCount(mask: Mask, axis: int, i: int): (c: nat)
    requires mask.Valid() && LineIndex(mask, axis, i)
    ensures c <= if axis == 1 then mask.width else mask.Height()
    ensures axis == 1 ==> (c == 0 <==> forall k :: 0 <= k < mask.width ==> mask.cells[i][k] == 0)
    ensures axis != 1 ==> (c == 0 <==> forall j :: 0 <= j < mask.Height() ==> mask.cells[j][i] == 0)
  {
    if axis == 1 then CountNonzero(mask.cells[i]) else CountNonzero(Column(mask, i))
  }

  /** The combined score in exact arithmetic: `count * (span + progress)`. */
  function CombinedScore(count: nat, progress: nat, span: nat): (c: nat)
    ensures count * span <= c
    ensures span > 0 ==> (c == 0 <==> count == 0)
  {
    count * (span + progress)
  }

  /** The position weight `progress / total_span`. */
  function PositionWeight(progress: nat, span: nat): (w: real)
    requires span > 0
    ensures w * (span as real) == progress as real
    ensures 0.0 <= w && (progress < span ==> w < 1.0)
  {
    (progress as real) / (span as real)
  }

  /** The score as the source computes it: `continuity_score * (1 + position_weight)`. */
  function WeightedScore(count: nat, progress: nat, span: nat): (v: real)
    requires span > 0
    ensures count as real <= v
    ensures progress == 0 ==> v == count as real
  {
    (count as real) * (1.0 + PositionWeight(progress, span))
  }

  /** The exact score is the weighted score scaled by the span ... */
  lemma CombinedScoreIsScaledWeightedScore(count: nat, progress: nat, span: nat)
    requires span > 0
    ensures CombinedScore(count, progress, span) as real == WeightedScore(count, progress, span) * (span as real)
  {
    var c, p, s := count as real, progress as real, span as real;
    assert CombinedScore(count, progress, span) as real == c * (s + p);
    assert (p / s) * s == p;
    assert (1.0 + p / s) * s == s + p;
    assert WeightedScore(count, progress, span) * s == c * ((1.0 + p / s) * s);
  }

  /** ... so, within one scan, comparing exact scores orders candidates exactly as
      the weighted scores do. */
  lemma CombinedScoreOrder(c1: nat, p1: nat, c2: nat, p2: nat, span: nat)
    requires span > 0
    ensures CombinedScore(c1, p1, span) <= CombinedScore(c2, p2, span)
        <==> WeightedScore(c1, p1, span) <= WeightedScore(c2, p2, span)
  {
    CombinedScoreIsScaledWeightedScore(c1, p1, span);
    CombinedScoreIsScaledWeightedScore(c2, p2, span);
    ScaleOrder(CombinedScore(c1, p1, span), CombinedScore(c2, p2, span),
               WeightedScore(c1, p1, span), WeightedScore(c2, p2, span), span as real);
  }

  lemma ScaleOrder(x1: int, x2: int, a: real, b: real, s: real)
    requires s > 0.0 && x1 as real == a * s && x2 as real == b * s
    ensures x1 <= x2 <==> a <= b
  {
  }

  /** The score of index `i` within the scan `r`: zero exactly for a line
      without non-zero cells, and otherwise at least the span. */
  function Score(mask: Mask, axis: int, r: ScanRange, i: int): (c: nat)
    requires mask.Valid() && LineIndex(mask, axis, i) && Span(r) > 0
    ensures c == 0 <==> LineCount(mask, axis, i) == 0
    ensures c > 0 ==> Span(r) <= c
  {
    CombinedScore(LineCount(mask, axis, i), Abs(i - r.start), Span(r))
  }

  /** Progress along a range is the visit position, so the weight starts at 0,
      never decreases along the range and stays below 1. */
  lemma PositionWeightMonotone(r: ScanRange, k1: int, k2: int)
    requires r.Valid() && 0 <= k1 <= k2 < Len(r)
    ensures Span(r) > 0
    ensures PositionWeight(Abs(Elem(r, 0) - r.start), Span(r)) == 0.0
    ensures 0.0 <= PositionWeight(Abs(Elem(r, k1) - r.start), Span(r))
                <= PositionWeight(Abs(Elem(r, k2) - r.start), Span(r)) < 1.0
  {
    var s := Span(r) as real;
    assert Abs(Elem(r, k1) - r.start) == k1;
    assert Abs(Elem(r, k2) - r.start) == k2;
    assert k2 < Span(r);
    DivMonotone(k1 as real, k2 as real, s);
    DivBelowOne(k2 as real, s);
  }

  lemma DivMonotone(a: real, b: real, s: real)
    requires 0.0 <= a <= b && s > 0.0
    ensures 0.0 <= a / s <= b / s
  {
  }

  lemma DivBelowOne(a: real, s: real)
    requires 0.0 <= a < s
    ensures a / s < 1.0
  {
  }

  /** The scores of the range's candidates, in visiting order. */
  function Scores(mask: Mask, axis: int, r: ScanRange): (s: seq<nat>)
    requires mask.Valid() && r.Valid() && LinesInBounds(mask, axis, r)
    ensures |s| == Len(r)
    ensures forall k :: 0 <= k < |s| ==> s[k] == Score(mask, axis, r, Elem(r, k))
  {
    seq(Len(r), k requires 0 <= k < Len(r) => Score(mask, axis, r, Elem(r, k)))
  }

  /** The position of the maximum among the first `n` entries of `s`; on ties,
      the last such position. */
  function LastArgMax(s: seq<int>, n: int): (k: nat)
    requires 0 < n <= |s|
    ensures k < n
    ensures forall j :: 0 <= j < n ==> s[j] <= s[k]
    ensures forall j :: k < j < n ==> s[j] < s[k]
  {
    if n == 1 then 0
    else
      var k := LastArgMax(s, n - 1);
      if s[n - 1] >= s[k] then n - 1 else k
  }

  /** A position with the maximal value and nothing as large after it is the last arg-max. */
  lemma LastArgMaxUnique(s: seq<int>, n: int, p: int)
    requires 0 <= p < n <= |s|
    requires forall j :: 0 <= j < n ==> s[j] <= s[p]
    requires forall j :: p < j < n ==> s[j] < s[p]
    ensures LastArgMax(s, n) == p
  {
    var q := LastArgMax(s, n);
    assert s[q] <= s[p] && s[p] <= s[q];
  }

  /** The index `_find_best_border_line` returns. */
  function BestLine(mask: Mask, axis: int, r: ScanRange): (b: int)
    requires mask.Valid() && r.Valid() && LinesInBounds(mask, axis, r)
    ensures Span(r) == 0 || Len(r) == 0 ==> b == r.start
    ensures Len(r) > 0 ==> InRange(r, b) && LineIndex(mask, axis, b)
  {
    if Span(r) == 0 || Len(r) == 0 then r.start
    else Elem(r, LastArgMax(Scores(mask, axis, r), Len(r)))
  }

  /** The candidate at visit position `p` is the one returned exactly when no
      candidate scores higher and every later candidate scores strictly lower:
      ties go to the later-visited (more exterior) index. */
  lemma BestLineCharacterization(mask: Mask, axis: int, r: ScanRange, p: int)
    requires mask.Valid() && r.Valid() && LinesInBounds(mask, axis, r)
    requires 0 <= p < Len(r)
    ensures Elem(r, p) == BestLine(mask, axis, r) <==>
      (forall k :: 0 <= k < Len(r) ==>
         Score(mask, axis, r, Elem(r, k)) <= Score(mask, axis, r, Elem(r, p))) &&
      (forall k :: p < k < Len(r) ==>
         Score(mask, axis, r, Elem(r, k)) < Score(mask, axis, r, Elem(r, p)))
  {
    var s := Scores(mask, axis, r);
    var q := LastArgMax(s, Len(r));
    if Elem(r, p) == BestLine(mask, axis, r) {
      assert p == q;
    }
    if (forall k :: 0 <= k < Len(r) ==> s[k] <= s[p]) && (forall k :: p < k < Len(r) ==> s[k] < s[p]) {
      LastArgMaxUnique(s, Len(r), p);
    }
  }

  /** Every candidate scores at most the returned index. */
  lemma BestLineIsMaximal(mask: Mask, axis: int, r: ScanRange, i: int)
    requires mask.Valid() && r.Valid() && LinesInBounds(mask, axis, r)
    requires InRange(r, i)
    ensures InRange(r, BestLine(mask, axis, r))
    ensures Score(mask, axis, r, i) <= Score(mask, axis, r, BestLine(mask, axis, r))
  {
    var k := if r.step == 1 then i - r.start else r.start - i;
    assert 0 <= k < Len(r) && i == Elem(r, k);
    assert Scores(mask, axis, r)[k] == Score(mask, axis, r, i);
  }

  /** Where the mask is not read (zero span), the result does not depend on it. */
  lemma BestLineIgnoresMaskOnZeroSpan(m1: Mask, m2: Mask, a1: int, a2: int, r: ScanRange)
    requires m1.Valid() && m2.Valid() && r.Valid()
    requires LinesInBounds(m1, a1, r) && LinesInBounds(m2, a2, r)
    requires Span(r) == 0
    ensures BestLine(m1, a1, r) == BestLine(m2, a2, r) == r.start
  {
  }

  /** The k-th candidate of a range is a line of the mask, and its entry in
      `Scores` is its combined score. */
  lemma ScoreOfCandidate(mask: Mask, axis: int, r: ScanRange, k: int)
    requires mask.Valid() && r.Valid() && LinesInBounds(mask, axis, r)
    requires 0 <= k < Len(r)
    ensures InRange(r, Elem(r, k)) && LineIndex(mask, axis, Elem(r, k))
    ensures Scores(mask, axis, r)[k] ==
      CombinedScore(LineCount(mask, axis, Elem(r, k)), Abs(Elem(r, k) - r.start), Span(r))
  {
    assert InRange(r, Elem(r, k));
  }

  /** The state of the running maximum after the first `k` entries: `-1`
      before any entry, then the last arg-max `top` and its value. */
  ghost predicate RunningMax(s: seq<nat>, k: nat, top: nat, maxScore: int) {
    k <= |s| &&
    (k == 0 ==> maxScore == -1) &&
    (k > 0 ==> top == LastArgMax(s, k) && maxScore == s[top])
  }

  /** Keeping entry `k` exactly when it is at least the running maximum
      advances the running maximum by one entry. */
  lemma RunningMaxStep(s: seq<nat>, k: nat, top: nat, maxScore: int)
    requires RunningMax(s, k, top, maxScore) && k < |s|
    ensures s[k] >= maxScore ==> RunningMax(s, k + 1, k, s[k])
    ensures s[k] < maxScore ==> RunningMax(s, k + 1, top, maxScore)
  {
  }

  /** A running maximum over the whole scan ends on the index `BestLine` returns. */
  lemma RunningMaxEndsOnBestLine(mask: Mask, axis: int, r: ScanRange, top: nat, maxScore: int)
    requires mask.Valid() && r.Valid() && LinesInBounds(mask, axis, r)
    requires Span(r) > 0 && RunningMax(Scores(mask, axis, r), Len(r), top, maxScore)
    ensures BestLine(mask, axis, r) == if Len(r) == 0 then r.start else Elem(r, top)
  {
  }

  /** The body of the scan for the k-th candidate `i`: its continuity score,
      its progress from `start`, and the two combined over `total_span`. */
  method CandidateScore(mask: Mask, axis: int, r: ScanRange, span: nat, k: int) returns (score: nat)
    requires mask.Valid() && r.Valid() && LinesInBounds(mask, axis, r)
    requires span == Span(r) && 0 <= k < Len(r)
    ensures score == Scores(mask, axis, r)[k]
  {
    var i := Elem(r, k);
    ScoreOfCandidate(mask, axis, r, k);
    var continuity := LineCount(mask, axis, i);
    var progress := Abs(i - r.start);
    score := CombinedScore(continuity, progress, span);
  }

  /** `_find_best_border_line`: walk the range, keep a running best with `>=`. */
  method FindBestBorderLine(mask: Mask, axis: int, r: ScanRange) returns (best: int)
    requires mask.Valid() && r.Valid() && LinesInBounds(mask, axis, r)
    ensures best == BestLine(mask, axis, r)
  {
    best := r.start;
    var maxScore: int := -1;
    var span := Abs(r.stop - r.start);
    if span == 0 {
      return;
    }
    ghost var s := Scores(mask, axis, r);
    ghost var top: nat := 0;
    var n := Len(r);
    var k := 0;
    while k < n
      invariant k <= n && RunningMax(s, k, top, maxScore)
      invariant best == if k == 0 then r.start else Elem(r, top)
    {
      var i := Elem(r, k);
      var score := CandidateScore(mask, axis, r, span, k);
      RunningMaxStep(s, k, top, maxScore);
      if score >= maxScore {
        maxScore, best := score, i;
        top := k;
      }
      k := k + 1;
    }
    RunningMaxEndsOnBestLine(mask, axis, r, top, maxScore);
  }
}
