/**
 levenshtein_less_equal_internal as a function of its arguments, for all integer
 penalties, and the exact condition on the penalties under which its answers are right.
 */
module EditBounded {
  import opened EditScript
  import opened EditMatrix
  import opened EditWindow

  // ----- the decisions before the first row -----

  /** Either the bound is impossibly tight, or the rows are computed with these settings. */
  datatype Plan = Hopeless | Go(c: Costs, maxD: int, stop: nat)

  function PlanFor(c: Costs, m: nat, n: nat, bound: int): (p: Plan)
    ensures p.Go? ==> p.stop <= m + 1 && Reaching(m, n, 0, p.stop, 0) && (p.maxD < 0 ==> p.stop == m + 1)
  {
    var minTheoD := Residual(c, n - m);
    if bound < 0 then Go(c, bound, m + 1)
    else if minTheoD > bound then Hopeless
    else if bound >= minTheoD + Min(m, n) * Clamped(c).sub then Go(Clamped(c), -1, m + 1)
    else if c.ins + c.del > 0 then Go(Clamped(c), bound, StopFor(c, m, n, bound - minTheoD))
    else Go(Clamped(c), bound, m + 1)
  }

  function StopFor(c: Costs, m: nat, n: nat, slackD: nat): (stop: nat)
    requires c.ins + c.del > 0
    ensures stop <= m + 1 && Reaching(m, n, 0, stop, 0)
  {
    var stop := BestColumn(n - m) + slackD / (c.ins + c.del) + 1;
    if stop > m then m + 1 else stop
  }

  /** The window is not empty and includes the column from which the rests are equally long. */
  ghost predicate Reaching(m: nat, n: nat, start: nat, stop: nat, j: nat) {
    start < stop && j - (n - m) < stop
  }

  // ----- one row -----

  /** The window [start, |row|) of a row; columns before start hold the marker. */
  datatype Window = Window(start: nat, row: seq<int>) {
    function At(maxD: int, k: nat): int
      requires k < |row|
    {
      if k < start then maxD + 1 else row[k]
    }
  }

  function FirstRow(c: Costs, n: nat): (row: seq<int>)
    ensures |row| == n && forall k :: 0 <= k < n ==> row[k] == k * c.del
  {
    if n == 0 then [] else FirstRow(c, n - 1) + [(n - 1) * c.del]
  }

  /** The first k cells of row j, computed from the window above. */
  function Filled(s: string, t: string, c: Costs, maxD: int, w: Window, j: nat, k: nat): (row: seq<int>)
    requires k <= |w.row| <= |s| + 1 && 0 < j <= |t|
    ensures |row| == k
  {
    if k == 0 then []
    else
      var row := Filled(s, t, c, maxD, w, j, k - 1);
      row + [Fresh(s, t, c, maxD, w, j, row)]
  }

  /** The next cell of row j: columns given up keep their marker, and column 0 is all insertions. */
  function Fresh(s: string, t: string, c: Costs, maxD: int, w: Window, j: nat, row: seq<int>): int
    requires |row| < |w.row| <= |s| + 1 && 0 < j <= |t|
  {
    var i := |row|;
    if i < w.start then maxD + 1
    else if i == 0 then j * c.ins
    else Min(Min(w.At(maxD, i) + c.ins, row[i-1] + c.del), w.At(maxD, i - 1) + SubCost(c, s[i-1], t[j-1]))
  }

  /** A marked column is added on the right, unless the window is at the right end. */
  function Widened(s: string, maxD: int, w: Window): (w': Window)
    requires |w.row| <= |s| + 1
    ensures w'.start == w.start && |w.row| <= |w'.row| <= |s| + 1
    ensures |w'.row| == |s| + 1 || |w'.row| == |w.row| + 1
  {
    if |w.row| < |s| + 1 then Window(w.start, w.row + [maxD + 1]) else w
  }

  /** Does the cell read as leading to an answer within the bound?  zp is the column with nothing due. */
  predicate Within(c: Costs, maxD: int, row: seq<int>, zp: int, k: nat)
    requires k < |row|
  {
    row[k] + Residual(c, k - zp) <= maxD
  }

  function SlidStop(c: Costs, maxD: int, row: seq<int>, zp: int, stop: nat): (r: nat)
    requires stop <= |row|
    ensures r <= stop && (r > 0 ==> Within(c, maxD, row, zp, r - 1))
    ensures forall k :: r <= k < stop ==> !Within(c, maxD, row, zp, k)
  {
    if stop == 0 || Within(c, maxD, row, zp, stop - 1) then stop else SlidStop(c, maxD, row, zp, stop - 1)
  }

  function SlidStart(c: Costs, maxD: int, row: seq<int>, zp: int, start: nat, stop: nat): (r: nat)
    requires stop <= |row|
    ensures start <= r && (start <= stop ==> r <= stop) && (r < stop ==> Within(c, maxD, row, zp, r))
    ensures forall k :: start <= k < r && k < stop ==> !Within(c, maxD, row, zp, k)
    decreases stop - start
  {
    if start >= stop || Within(c, maxD, row, zp, start) then start else SlidStart(c, maxD, row, zp, start + 1, stop)
  }

  /** The window of row j, from that of the row above. */
  function NextWindow(s: string, t: string, c: Costs, maxD: int, w: Window, j: nat): (w': Window)
    requires |w.row| <= |s| + 1 && 0 < j <= |t|
    ensures |w'.row| <= |s| + 1
  {
    var wide := Widened(s, maxD, w);
    Slid(|s|, |t|, c, maxD, w.start, Filled(s, t, c, maxD, wide, j, |wide.row|), j)
  }

  function Slid(m: nat, n: nat, c: Costs, maxD: int, start: nat, row: seq<int>, j: nat): (w: Window)
    ensures |w.row| <= |row|
  {
    if maxD < 0 then Window(start, row)
    else
      var zp := j - (n - m);
      var stop := SlidStop(c, maxD, row, zp, |row|);
      Window(SlidStart(c, maxD, row, zp, start, stop), row[..stop])
  }

  // ----- the column with nothing due stays in the window -----

  /** From start on no cell exceeds its left neighbour by more than x. */
  ghost predicate Sloping(row: seq<int>, start: nat, x: int) {
    forall i :: start < i < |row| ==> row[i] <= row[i-1] + x
  }

  lemma {:induction false} FilledSlopes(s: string, t: string, c: Costs, maxD: int, w: Window, j: nat, k: nat)
    requires k <= |w.row| <= |s| + 1 && 0 < j <= |t|
    ensures Sloping(Filled(s, t, c, maxD, w, j, k), w.start, c.del)
  {
    if k > 0 {
      FilledSlopes(s, t, c, maxD, w, j, k - 1);
      assert Filled(s, t, c, maxD, w, j, k)[..k-1] == Filled(s, t, c, maxD, w, j, k - 1);
    }
  }

  lemma {:induction false} SlopeSum(row: seq<int>, a: nat, b: nat, x: int)
    requires a <= b < |row| && Sloping(row, a, x)
    ensures row[b] <= row[a] + (b - a) * x
  {
    if a < b {
      SlopeSum(row, a, b - 1, x);
      MulStep(b - a, x);
    }
  }

  lemma SlidReaches(m: nat, n: nat, c: Costs, maxD: int, start: nat, row: seq<int>, j: nat)
    requires Reaching(m, n, start, |row|, j) && Sloping(row, start, c.del)
    ensures var w := Slid(m, n, c, maxD, start, row, j); w.start < |w.row| ==> Reaching(m, n, w.start, |w.row|, j)
  {
    var w, zp := Slid(m, n, c, maxD, start, row, j), j - (n - m);
    var stop := |w.row|;
    if 0 <= maxD && w.start < stop <= zp {
      assert Within(c, maxD, row, zp, stop - 1) && !Within(c, maxD, row, zp, zp);
      SlopeSum(row, stop - 1, zp, c.del);
    }
  }

  lemma NextReaches(s: string, t: string, c: Costs, maxD: int, w: Window, j: nat)
    requires |w.row| <= |s| + 1 && 0 < j <= |t| && Reaching(|s|, |t|, w.start, |w.row|, j - 1)
    ensures var w' := NextWindow(s, t, c, maxD, w, j); w'.start < |w'.row| ==> Reaching(|s|, |t|, w'.start, |w'.row|, j)
  {
    var wide := Widened(s, maxD, w);
    var row := Filled(s, t, c, maxD, wide, j, |wide.row|);
    FilledSlopes(s, t, c, maxD, wide, j, |wide.row|);
    SlidReaches(|s|, |t|, c, maxD, w.start, row, j);
  }

  // ----- the whole routine -----

  /** The answer, once the window of row j - 1 is known. */
  function Rows(s: string, t: string, c: Costs, maxD: int, w: Window, j: nat): int
    requires 0 < j <= |t| + 1 && |w.row| <= |s| + 1 && Reaching(|s|, |t|, w.start, |w.row|, j - 1)
    decreases |t| - j
  {
    if j > |t| then w.row[|s|]
    else
      NextReaches(s, t, c, maxD, w, j);
      var w' := NextWindow(s, t, c, maxD, w, j);
      if w'.start >= |w'.row| then maxD + 1 else Rows(s, t, c, maxD, w', j + 1)
  }

  function Bounded(s: string, t: string, costs: Costs, bound: int): int {
    if s == [] then |t| * costs.ins
    else if t == [] then |s| * costs.del
    else
      match PlanFor(costs, |s|, |t|, bound)
      case Hopeless => bound + 1
      case Go(c, maxD, stop) => Rows(s, t, c, maxD, Window(0, FirstRow(c, stop)), 1)
  }

  // ----- the early exit -----

  /** The penalties for which giving up early is right. */
  ghost predicate EarlyExitSafe(c: Costs) {
    c.Balanced() || (c.ins <= 0 && c.del <= 0)
  }

  /**
   min_theo_d is a lower bound of the distance wherever the early exit relies on it, for
   exactly these penalties.
   */
  lemma EarlyExitExact(c: Costs)
    ensures (forall s, t, bound :: ExitSound(c, s, t, bound)) <==> EarlyExitSafe(c)
  {
    if EarlyExitSafe(c) {
      forall s, t, bound ensures ExitSound(c, s, t, bound) {
        EarlyExitRight(c, s, t, bound);
      }
    } else {
      var s, t, bound := EarlyExitWrong(c);
      assert !ExitSound(c, s, t, bound);
    }
  }

  /** If the routine gives up at once, the distance is over the bound. */
  ghost predicate ExitSound(c: Costs, s: string, t: string, bound: int) {
    s != [] && t != [] && PlanFor(c, |s|, |t|, bound) == Hopeless ==> bound < EditDistance(c, s, t)
  }

  lemma EarlyExitRight(c: Costs, s: string, t: string, bound: int)
    requires EarlyExitSafe(c)
    ensures ExitSound(c, s, t, bound)
  {
    if c.Balanced() {
      EstimateAtLeastStart(c, s, t, |s|, |t|);
    } else {
      ResidualNegative(c, |t| - |s|);
    }
  }

  lemma ResidualNegative(c: Costs, k: int)
    requires c.ins <= 0 && c.del <= 0
    ensures Residual(c, k) <= 0
  {
  }

  /** For all other penalties an input with its bound: the plan is hopeless, the distance within the bound. */
  lemma EarlyExitWrong(c: Costs) returns (s: string, t: string, bound: int)
    requires !EarlyExitSafe(c)
    ensures 0 < |s| <= 2 && 0 < |t| <= 2 && 0 <= bound < Residual(c, |t| - |s|)
    ensures PlanFor(c, |s|, |t|, bound) == Hopeless && EditDistance(c, s, t) <= bound
  {
    if c.ins > 0 {
      s, t, bound := "a", "bb", c.ins - 1;
    } else {
      s, t, bound := "bb", "a", c.del - 1;
    }
    SmallCells(c, s, t);
  }

  /** The routes through the cells of such small matrices. */
  lemma SmallCells(c: Costs, s: string, t: string)
    requires s != [] && t != []
    ensures Cell(c, s, t, 1, 1) <= SubCost(c, s[0], t[0]) && Cell(c, s, t, 1, 1) <= c.ins + c.del
    ensures |s| > 1 ==> Cell(c, s, t, 2, 1) <= Cell(c, s, t, 1, 1) + c.del
    ensures |t| > 1 ==> Cell(c, s, t, 1, 2) <= Cell(c, s, t, 1, 1) + c.ins
  {
    assert Cell(c, s, t, 0, 0) == 0 && Cell(c, s, t, 0, 1) == c.ins && Cell(c, s, t, 1, 0) == c.del;
    Edges(c, s, t, 1, 1);
    if |s| > 1 { Edges(c, s, t, 2, 1); }
    if |t| > 1 { Edges(c, s, t, 1, 2); }
  }

  // ----- when the marker is over the bound for good -----

  /** Every cell of the window may stand for its cell of row j; every cell outside is over the bound. */
  ghost predicate WindowStands(c: Costs, s: string, t: string, maxD: int, w: Window, j: nat)
    requires j <= |t|
  {
    && w.start <= |w.row| <= |s| + 1 && Outside(c, s, t, maxD, w.start, |w.row|, j)
    && RowStands(c, s, t, maxD, w.row, w.start, j)
  }

  ghost predicate RowStands(c: Costs, s: string, t: string, maxD: int, row: seq<int>, start: nat, j: nat)
    requires |row| <= |s| + 1 && j <= |t|
  {
    forall k {:trigger row[k]} :: start <= k < |row| ==> Stands(c, s, t, maxD, k, j, row[k])
  }

  /** The penalties for which the marker max_d + 1 never reads as within the bound. */
  ghost predicate Marked(c: Costs, maxD: int) { 0 <= maxD ==> c.NonNegative() }

  lemma AtStands(c: Costs, s: string, t: string, maxD: int, w: Window, j: nat, k: nat)
    requires Marked(c, maxD) && j <= |t| && WindowStands(c, s, t, maxD, w, j) && k < |w.row|
    ensures Stands(c, s, t, maxD, k, j, w.At(maxD, k))
  {
    if k < w.start { MarkerStands(c, s, t, maxD, k, j); }
  }

  lemma MarkerStands(c: Costs, s: string, t: string, maxD: int, k: nat, j: nat)
    requires Marked(c, maxD) && k <= |s| && j <= |t| && Over(c, s, t, maxD, k, j)
    ensures Stands(c, s, t, maxD, k, j, maxD + 1)
  {
    SentinelStands(c, s, t, maxD, k, j, maxD + 1);
  }

  lemma WidenedStands(c: Costs, s: string, t: string, maxD: int, w: Window, j: nat)
    requires Marked(c, maxD) && j < |t| && WindowStands(c, s, t, maxD, w, j)
    ensures var wide := Widened(s, maxD, w);
      WindowStands(c, s, t, maxD, wide, j) && Outside(c, s, t, maxD, w.start, |wide.row|, j + 1)
  {
    if 0 <= maxD {
      FrontierMoves(c, s, t, maxD, w.start, |w.row|, j);
    } else {
      assert !Over(c, s, t, maxD, 0, j) && !Over(c, s, t, maxD, |s|, j);
    }
    if |w.row| < |s| + 1 { MarkerStands(c, s, t, maxD, |w.row|, j); }
  }

  lemma {:induction false} FilledStands(c: Costs, s: string, t: string, maxD: int, w: Window, j: nat, k: nat)
    requires Marked(c, maxD) && j < |t| && WindowStands(c, s, t, maxD, w, j) && k <= |w.row|
    requires Outside(c, s, t, maxD, w.start, |w.row|, j + 1)
    ensures RowStands(c, s, t, maxD, Filled(s, t, c, maxD, w, j + 1, k), 0, j + 1)
  {
    if k > 0 {
      FilledStands(c, s, t, maxD, w, j, k - 1);
      FreshStands(c, s, t, maxD, w, j, k - 1, Filled(s, t, c, maxD, w, j + 1, k - 1));
    }
  }

  lemma FreshStands(c: Costs, s: string, t: string, maxD: int, w: Window, j: nat, i: nat, row: seq<int>)
    requires Marked(c, maxD) && j < |t| && WindowStands(c, s, t, maxD, w, j) && i < |w.row| && |row| == i
    requires Outside(c, s, t, maxD, w.start, |w.row|, j + 1) && RowStands(c, s, t, maxD, row, 0, j + 1)
    ensures Stands(c, s, t, maxD, i, j + 1, Fresh(s, t, c, maxD, w, j + 1, row))
  {
    if i < w.start {
      MarkerStands(c, s, t, maxD, i, j + 1);
    } else if i == 0 {
      BorderCells(c, s, t, 0, j + 1);
    } else {
      AtStands(c, s, t, maxD, w, j, i);
      AtStands(c, s, t, maxD, w, j, i - 1);
      InnerStands(c, s, t, maxD, i, j, w.At(maxD, i), row[i-1], w.At(maxD, i - 1));
    }
  }

  lemma InnerStands(c: Costs, s: string, t: string, maxD: int, i: nat, j: nat, up: int, left: int, diag: int)
    requires Marked(c, maxD) && 0 < i <= |s| && j < |t|
    requires Stands(c, s, t, maxD, i, j, up) && Stands(c, s, t, maxD, i - 1, j + 1, left)
      && Stands(c, s, t, maxD, i - 1, j, diag)
    ensures Stands(c, s, t, maxD, i, j + 1, Min(Min(up + c.ins, left + c.del), diag + SubCost(c, s[i-1], t[j])))
  {
    NextStands(c, s, t, maxD, i, j + 1, up, left, diag);
  }

  lemma SlidStands(c: Costs, s: string, t: string, maxD: int, start: nat, row: seq<int>, j: nat)
    requires j <= |t| && start <= |row| <= |s| + 1
    requires RowStands(c, s, t, maxD, row, 0, j) && Outside(c, s, t, maxD, start, |row|, j)
    ensures var w := Slid(|s|, |t|, c, maxD, start, row, j);
      w.start < |w.row| ==> WindowStands(c, s, t, maxD, w, j) && (0 <= maxD ==> !Over(c, s, t, maxD, w.start, j))
    ensures var w := Slid(|s|, |t|, c, maxD, start, row, j);
      w.start >= |w.row| && 0 <= maxD ==> forall k :: 0 <= k <= |s| ==> Over(c, s, t, maxD, k, j)
  {
    var w, zp := Slid(|s|, |t|, c, maxD, start, row, j), j - (|t| - |s|);
    if 0 <= maxD {
      forall k | 0 <= k < |row| ensures Over(c, s, t, maxD, k, j) <==> !Within(c, maxD, row, zp, k) {
        ReadsOver(c, s, t, maxD, k, j, row[k]);
      }
    }
  }

  /** What the bounded routine may answer for a true distance d; negative means unbounded. */
  ghost predicate WithinBound(maxD: int, d: int, answer: int) {
    if 0 <= maxD < d then maxD < answer else answer == d
  }

  lemma {:induction false} RowsRight(c: Costs, s: string, t: string, maxD: int, w: Window, j: nat)
    requires Marked(c, maxD) && s != [] && t != [] && 0 < j <= |t| + 1
    requires WindowStands(c, s, t, maxD, w, j - 1) && Reaching(|s|, |t|, w.start, |w.row|, j - 1)
    requires 0 <= maxD && 1 < j ==> !Over(c, s, t, maxD, w.start, j - 1)
    ensures WithinBound(maxD, EditDistance(c, s, t), Rows(s, t, c, maxD, w, j))
    ensures 0 <= maxD < EditDistance(c, s, t) ==> Rows(s, t, c, maxD, w, j) == maxD + 1
    decreases |t| - j
  {
    if j > |t| {
      LastRight(c, s, t, maxD, w);
    } else {
      NextReaches(s, t, c, maxD, w, j);
      NextRight(c, s, t, maxD, w, j);
      var w' := NextWindow(s, t, c, maxD, w, j);
      if w'.start >= |w'.row| {
        HopelessRow(c, s, t, maxD, j);
      } else {
        RowsRight(c, s, t, maxD, w', j + 1);
      }
    }
  }

  lemma LastRight(c: Costs, s: string, t: string, maxD: int, w: Window)
    requires WindowStands(c, s, t, maxD, w, |t|) && w.start < |w.row| == |s| + 1
    requires 0 <= maxD ==> !Over(c, s, t, maxD, w.start, |t|)
    ensures w.row[|s|] == EditDistance(c, s, t) && (0 <= maxD ==> w.row[|s|] <= maxD)
  {
    if 0 <= maxD { LastRowHope(c, s, t, maxD, w.start); }
    assert Stands(c, s, t, maxD, |s|, |t|, w.row[|s|]);
  }

  lemma NextRight(c: Costs, s: string, t: string, maxD: int, w: Window, j: nat)
    requires Marked(c, maxD) && 0 < j <= |t| && WindowStands(c, s, t, maxD, w, j - 1) && w.start < |w.row|
    ensures var w' := NextWindow(s, t, c, maxD, w, j);
      w'.start < |w'.row| ==> WindowStands(c, s, t, maxD, w', j) && (0 <= maxD ==> !Over(c, s, t, maxD, w'.start, j))
    ensures var w' := NextWindow(s, t, c, maxD, w, j);
      w'.start >= |w'.row| ==> 0 <= maxD && forall k :: 0 <= k <= |s| ==> Over(c, s, t, maxD, k, j)
  {
    var wide := Widened(s, maxD, w);
    WidenedStands(c, s, t, maxD, w, j - 1);
    FilledStands(c, s, t, maxD, wide, j - 1, |wide.row|);
    SlidStands(c, s, t, maxD, w.start, Filled(s, t, c, maxD, wide, j, |wide.row|), j);
  }

  // ----- the exact condition -----

  /**
   The penalties for which the bounded routine is right: with non-negative ones the window
   works; with the others the window must never be used and the early exit must be safe.
   */
  ghost predicate BoundUsable(c: Costs) {
    || c.NonNegative()
    || (c.ins <= 0 && c.del <= 0)
    || (c.Balanced() && (c.ins + c.del == 0 || c.sub == 0))
  }

  lemma PlanRight(c: Costs, s: string, t: string, bound: int)
    requires BoundUsable(c) && s != [] && t != [] && PlanFor(c, |s|, |t|, bound).Go?
    ensures var p := PlanFor(c, |s|, |t|, bound);
      && Marked(p.c, p.maxD) && EditDistance(p.c, s, t) == EditDistance(c, s, t)
      && Outside(p.c, s, t, p.maxD, 0, p.stop, 0)
      && (p.maxD == bound || (p.maxD < 0 <= bound && (c.NonNegative() ==> EditDistance(c, s, t) <= bound)))
  {
    var p := PlanFor(c, |s|, |t|, bound);
    ClampKeepsCells(c, s, t, |s|, |t|);
    if 0 <= bound {
      if c.NonNegative() {
        TheoreticalBounds(Clamped(c), s, t);
        if p.maxD == bound && c.ins + c.del > 0 {
          FirstStopOutside(c, s, t, bound);
        }
      } else {
        NotAbove(Min(|s|, |t|), Clamped(c).sub);
      }
    }
  }

  lemma NotAbove(k: nat, x: int)
    requires x <= 0
    ensures k * x <= 0
  {
  }

  lemma FirstStopOutside(c: Costs, s: string, t: string, bound: int)
    requires c.NonNegative() && c.ins + c.del > 0 && s != [] && Residual(c, |t| - |s|) <= bound
    ensures Outside(Clamped(c), s, t, bound, 0, StopFor(c, |s|, |t|, bound - Residual(c, |t| - |s|)), 0)
  {
    var w := c.ins + c.del;
    ResidualSign(c, |t| - |s|);
    InitialOutside(Clamped(c), s, t, bound, BestColumn(|t| - |s|) + (bound - Residual(c, |t| - |s|)) / w + 1);
  }

  /** Within the bound the answer is the distance; else it is over the bound, by one unless penalties are negative. */
  lemma BoundedRight(c: Costs, s: string, t: string, bound: int)
    requires BoundUsable(c)
    ensures WithinBound(bound, EditDistance(c, s, t), Bounded(s, t, c, bound))
    ensures c.NonNegative() && s != [] && t != [] && 0 <= bound < EditDistance(c, s, t)
      ==> Bounded(s, t, c, bound) == bound + 1
  {
    if s == [] || t == [] {
      BorderCells(c, s, t, |s|, |t|);
    } else {
      EarlyExitRight(c, s, t, bound);
      var p := PlanFor(c, |s|, |t|, bound);
      if p.Go? {
        PlanRight(c, s, t, bound);
        FirstRowStands(p.c, s, t, p.maxD, p.stop);
        RowsRight(p.c, s, t, p.maxD, Window(0, FirstRow(p.c, p.stop)), 1);
      }
    }
  }

  lemma FirstRowStands(c: Costs, s: string, t: string, maxD: int, stop: nat)
    requires stop <= |s| + 1 && Outside(c, s, t, maxD, 0, stop, 0)
    ensures WindowStands(c, s, t, maxD, Window(0, FirstRow(c, stop)), 0)
  {
    forall k | 0 <= k < stop ensures Cell(c, s, t, k, 0) == k * c.del {
      BorderCells(c, s, t, k, 0);
    }
  }

  // ----- and its failures -----

  /** For penalties not usable an input is answered wrongly. */
  lemma BoundedWrong(c: Costs) returns (s: string, t: string, bound: int)
    requires !BoundUsable(c)
    ensures 0 < |s| <= 2 && 0 < |t| <= 2
    ensures !WithinBound(bound, EditDistance(c, s, t), Bounded(s, t, c, bound))
  {
    if !EarlyExitSafe(c) {
      s, t, bound := EarlyExitWrong(c);
    } else if c.ins < 0 {
      s, t, bound := "a", "b", 0;
      MarkerOnTheRight(c);
    } else {
      s, t, bound := "aa", "aa", 0;
      MarkerOnTheLeft(c);
    }
  }

  /** The marker planted right of the window plus a negative ins_c comes out at or below the bound. */
  lemma MarkerOnTheRight(c: Costs)
    requires c.ins < 0 < c.ins + c.del && 0 < c.sub
    ensures Bounded("a", "b", c, 0) <= 0 < EditDistance(c, "a", "b")
  {
    var s, t := "a", "b";
    assert Cell(c, s, t, 0, 0) == 0 && Cell(c, s, t, 0, 1) == c.ins && Cell(c, s, t, 1, 0) == c.del;
    assert EditDistance(c, s, t) == Min(c.ins + c.del, c.sub);
    var k := Clamped(c);
    assert PlanFor(c, 1, 1, 0) == Go(k, 0, 1);
    var w := Window(0, FirstRow(k, 1));
    var wide := Widened(s, 0, w);
    assert wide.row == [0, 1];
    var row := Filled(s, t, k, 0, wide, 1, 2);
    FirstTwoCells(s, t, k, wide);
    assert row == [c.ins, Min(Min(1 + c.ins, c.ins + c.del), k.sub)];
    assert Slid(1, 1, k, 0, 0, row, 1) == Window(1, row) by { OneColumnGone(k, row); }
  }

  lemma FirstTwoCells(s: string, t: string, c: Costs, w: Window)
    requires s != [] && t != [] && w == Window(0, [0, 1])
    ensures Filled(s, t, c, 0, w, 1, 2) == [c.ins, Min(Min(1 + c.ins, c.ins + c.del), SubCost(c, s[0], t[0]))]
  {
    assert Filled(s, t, c, 0, w, 1, 0) == [];
    assert Filled(s, t, c, 0, w, 1, 1) == [c.ins];
  }

  /** In both runs row 1 keeps its second column and gives up the first. */
  lemma OneColumnGone(c: Costs, row: seq<int>)
    requires |row| == 2 && row[1] <= 0 < row[0] + c.del
    ensures Slid(2, 2, c, 0, 0, row, 1) == Slid(1, 1, c, 0, 0, row, 1) == Window(1, row)
  {
    assert Within(c, 0, row, 1, 1) && !Within(c, 0, row, 1, 0);
    assert row[..2] == row;
  }

  /** So does the marker left of the window plus a negative del_c. */
  lemma MarkerOnTheLeft(c: Costs)
    requires c.del < 0 < c.ins + c.del && 0 < c.sub
    ensures Bounded("aa", "aa", c, 0) < 0 == EditDistance(c, "aa", "aa")
  {
    var s, k := "aa", Clamped(c);
    SquareOfTwo(c, s);
    assert PlanFor(c, 2, 2, 0) == Go(k, 0, 1);
    var w := Window(0, FirstRow(k, 1));
    var wide := Widened(s, 0, w);
    assert wide.row == [0, 1];
    var row := Filled(s, s, k, 0, wide, 1, 2);
    FirstTwoCells(s, s, k, wide);
    assert row == [c.ins, 0];
    OneColumnGone(k, row);
    var w1 := Window(1, row);
    assert NextWindow(s, s, k, 0, w, 1) == w1;
    var wide1 := Widened(s, 0, w1);
    assert wide1.row == [c.ins, 0, 1];
    var row2 := Filled(s, s, k, 0, wide1, 2, 3);
    assert Filled(s, s, k, 0, wide1, 2, 0) == [] && Filled(s, s, k, 0, wide1, 2, 1) == [1];
    assert Filled(s, s, k, 0, wide1, 2, 2) == [1, 1 + c.del];
    assert row2 == [1, 1 + c.del, 1 + c.del + c.del];
    assert Within(k, 0, row2, 2, 2) && Within(k, 0, row2, 2, 1);
    assert row2[..3] == row2;
    assert NextWindow(s, s, k, 0, w1, 2) == Window(1, row2);
  }

  lemma SquareOfTwo(c: Costs, s: string)
    requires |s| == 2 && s[0] == s[1] && 0 < c.ins + c.del && 0 < c.sub
    ensures EditDistance(c, s, s) == 0
  {
    assert Cell(c, s, s, 0, 0) == 0 && Cell(c, s, s, 0, 1) == c.ins && Cell(c, s, s, 1, 0) == c.del;
    assert Cell(c, s, s, 0, 2) == 2 * c.ins && Cell(c, s, s, 2, 0) == 2 * c.del;
    assert Cell(c, s, s, 1, 1) == 0 && Cell(c, s, s, 1, 2) == c.ins && Cell(c, s, s, 2, 1) == c.del;
  }

  /** The bounded routine answers every call rightly for exactly the usable penalties. */
  lemma BoundedExact(c: Costs)
    ensures (forall s, t, bound :: WithinBound(bound, EditDistance(c, s, t), Bounded(s, t, c, bound)))
      <==> BoundUsable(c)
  {
    if BoundUsable(c) {
      forall s, t, bound ensures WithinBound(bound, EditDistance(c, s, t), Bounded(s, t, c, bound)) {
        BoundedRight(c, s, t, bound);
      }
    } else {
      var s, t, bound := BoundedWrong(c);
    }
  }
}
