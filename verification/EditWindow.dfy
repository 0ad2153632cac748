/**
 The argument behind the bounded routine: which cells of the matrix can still lead to
 an answer within the bound, and what a row may hold in place of the others.
 */
module EditWindow {
  import opened EditScript
  import opened EditMatrix

  /** The least price of making the untransformed rests equally long. */
  function Residual(c: Costs, netInserts: int): int {
    if netInserts > 0 then netInserts * c.ins else -netInserts * c.del
  }

  /** Insertions, net of deletions, still due in cell (i, j). */
  ghost function Due(s: string, t: string, i: int, j: int): int {
    (|t| - j) - (|s| - i)
  }

  /** Value of a cell plus the least price of finishing from it. */
  ghost function Estimate(c: Costs, s: string, t: string, i: nat, j: nat): int
    requires i <= |s| && j <= |t|
  {
    Cell(c, s, t, i, j) + Residual(c, Due(s, t, i, j))
  }

  /** The cell cannot lead to an answer within the bound. */
  ghost predicate Over(c: Costs, s: string, t: string, maxD: int, i: nat, j: nat)
    requires i <= |s| && j <= |t|
  {
    0 <= maxD < Estimate(c, s, t, i, j)
  }

  /**
   v may stand in a row for cell (i, j): it is the exact value, unless the cell is over
   the bound, in which case v must read as over the bound too.  A negative bound means
   no bound.
   */
  ghost predicate Stands(c: Costs, s: string, t: string, maxD: int, i: nat, j: nat, v: int)
    requires i <= |s| && j <= |t|
  {
    if Over(c, s, t, maxD, i, j) then maxD < v + Residual(c, Due(s, t, i, j))
    else v == Cell(c, s, t, i, j)
  }

  lemma ResidualStep(c: Costs, k: int)
    requires 0 <= c.ins + c.del
    ensures Residual(c, k) <= c.ins + Residual(c, k - 1)
    ensures Residual(c, k) <= c.del + Residual(c, k + 1)
  {
    if k > 0 {
      MulStep(k, c.ins);
      MulStep(k + 1, c.ins);
    } else {
      MulStep(-k, c.del);
      MulStep(-k + 1, c.del);
    }
  }

  lemma ResidualSign(c: Costs, k: int)
    requires c.NonNegative()
    ensures 0 <= Residual(c, k)
  {
    if k > 0 { MulSign(k, c.ins); } else { MulSign(-k, c.del); }
  }

  /** Any value beyond the bound may stand for a cell that is over it. */
  lemma SentinelStands(c: Costs, s: string, t: string, maxD: int, i: nat, j: nat, v: int)
    requires c.NonNegative() && i <= |s| && j <= |t|
    requires Over(c, s, t, maxD, i, j) && maxD < v
    ensures Stands(c, s, t, maxD, i, j, v)
  {
    ResidualSign(c, Due(s, t, i, j));
  }

  // ----- computing one cell -----

  /** The arithmetic of one candidate, away from the matrix: d true value, v stand-in, r residual. */
  ghost predicate Fits(maxD: int, d: int, r: int, v: int) {
    if 0 <= maxD < d + r then maxD < v + r else v == d
  }

  /** From stand-ins for its three neighbours the recurrence computes a stand-in. */
  lemma NextStands(c: Costs, s: string, t: string, maxD: int, i: nat, j: nat, up: int, left: int, diag: int)
    requires (0 <= maxD ==> c.Balanced()) && 0 < i <= |s| && 0 < j <= |t|
    requires Stands(c, s, t, maxD, i, j - 1, up)
    requires Stands(c, s, t, maxD, i - 1, j, left)
    requires Stands(c, s, t, maxD, i - 1, j - 1, diag)
    ensures Stands(c, s, t, maxD, i, j, Min(Min(up + c.ins, left + c.del), diag + SubCost(c, s[i-1], t[j-1])))
  {
    var k := Due(s, t, i, j);
    if 0 <= maxD {
      ResidualStep(c, k + 1);
      ResidualStep(c, k - 1);
    }
  }

  // ----- how the frontier moves -----

  /** Along any step of a path the estimate never drops. */
  lemma EstimateGrows(c: Costs, s: string, t: string, i: nat, j: nat) returns (e: Edit)
    requires c.Balanced() && i <= |s| && j <= |t| && i + j > 0
    ensures |Consumed(e)| <= i && |Produced(e)| <= j && |Consumed(e)| + |Produced(e)| > 0
    ensures Estimate(c, s, t, i - |Consumed(e)|, j - |Produced(e)|) <= Estimate(c, s, t, i, j)
  {
    e := LastEdit(c, s, t, i, j);
    ResidualStep(c, Due(s, t, i, j) + 1);
    ResidualStep(c, Due(s, t, i, j) - 1);
  }

  /** Columns left of a hopeless frontier stay hopeless in the next row. */
  lemma {:induction false} LeftStaysOver(c: Costs, s: string, t: string, maxD: int, i: nat, j: nat)
    requires c.Balanced() && i <= |s| && j < |t|
    requires forall k :: 0 <= k <= i ==> Over(c, s, t, maxD, k, j)
    ensures Over(c, s, t, maxD, i, j + 1)
    decreases i
  {
    var e := EstimateGrows(c, s, t, i, j + 1);
    if e.Delete? {
      LeftStaysOver(c, s, t, maxD, i - 1, j);
    } else {
      assert Over(c, s, t, maxD, i - |Consumed(e)|, j);
    }
  }

  /** On the right the frontier moves at most one column, because diagonals grow. */
  lemma RightStaysOver(c: Costs, s: string, t: string, maxD: int, i: nat, j: nat)
    requires c.Balanced() && 0 < i <= |s| && 0 < j <= |t|
    requires Over(c, s, t, maxD, i - 1, j - 1)
    ensures Over(c, s, t, maxD, i, j)
  {
    DiagonalGrows(c, s, t, i - 1, j - 1);
  }

  /** Everything outside the columns [start, stop) of row j is over the bound. */
  ghost predicate Outside(c: Costs, s: string, t: string, maxD: int, start: nat, stop: nat, j: nat)
    requires j <= |t|
  {
    forall k :: 0 <= k <= |s| && !(start <= k < stop) ==> Over(c, s, t, maxD, k, j)
  }

  /** One more row: the left frontier may stay, the right one moves by one column. */
  lemma FrontierMoves(c: Costs, s: string, t: string, maxD: int, start: nat, stop: nat, j: nat)
    requires c.Balanced() && j < |t| && start <= stop
    requires Outside(c, s, t, maxD, start, stop, j)
    ensures Outside(c, s, t, maxD, start, stop + 1, j + 1)
  {
    var next := j + 1;
    forall k | 0 <= k <= |s| && !(start <= k < stop + 1) ensures Over(c, s, t, maxD, k, next) {
      if k < start {
        LeftStaysOver(c, s, t, maxD, k, j);
      } else {
        RightStaysOver(c, s, t, maxD, k, next);
      }
    }
  }

  /** A stand-in that reads as over the bound stands for a cell that is. */
  lemma ReadsOver(c: Costs, s: string, t: string, maxD: int, i: nat, j: nat, v: int)
    requires i <= |s| && j <= |t| && 0 <= maxD
    requires Stands(c, s, t, maxD, i, j, v)
    ensures Over(c, s, t, maxD, i, j) <==> maxD < v + Residual(c, Due(s, t, i, j))
  {
  }

  /** Once a whole row is over the bound, so is the distance. */
  lemma {:induction false} HopelessRow(c: Costs, s: string, t: string, maxD: int, j: nat)
    requires c.Balanced() && j <= |t|
    requires forall k :: 0 <= k <= |s| ==> Over(c, s, t, maxD, k, j)
    ensures maxD < EditDistance(c, s, t)
    decreases |t| - j
  {
    if j == |t| {
      assert Over(c, s, t, maxD, |s|, j);
      assert Due(s, t, |s|, |t|) == 0;
    } else {
      var next := j + 1;
      forall k | 0 <= k <= |s| ensures Over(c, s, t, maxD, k, next) {
        LeftStaysOver(c, s, t, maxD, k, j);
      }
      HopelessRow(c, s, t, maxD, next);
    }
  }

  // ----- theoretical bounds -----

  lemma {:induction false} TailDeletes(c: Costs, s: string, t: string, i: nat, i': nat, j: nat)
    requires i <= i' <= |s| && j <= |t|
    ensures Cell(c, s, t, i', j) <= Cell(c, s, t, i, j) + (i' - i) * c.del
    decreases i'
  {
    if i < i' {
      TailDeletes(c, s, t, i, i' - 1, j);
      Edges(c, s, t, i', j);
      MulStep(i' - i, c.del);
    }
  }

  lemma {:induction false} TailInserts(c: Costs, s: string, t: string, i: nat, j: nat, j': nat)
    requires i <= |s| && j <= j' <= |t|
    ensures Cell(c, s, t, i, j') <= Cell(c, s, t, i, j) + (j' - j) * c.ins
    decreases j'
  {
    if j < j' {
      TailInserts(c, s, t, i, j, j' - 1);
      Edges(c, s, t, i, j');
      MulStep(j' - j, c.ins);
    }
  }

  lemma {:induction false} AllChanges(c: Costs, s: string, t: string, k: nat)
    requires c.NonNegative() && k <= |s| && k <= |t|
    ensures Cell(c, s, t, k, k) <= k * c.sub
    decreases k
  {
    if k == 0 {
      BorderCells(c, s, t, 0, 0);
    } else {
      AllChanges(c, s, t, k - 1);
      MulStep(k, c.sub);
    }
  }

  lemma {:induction false} EstimateAtLeastStart(c: Costs, s: string, t: string, i: nat, j: nat)
    requires c.Balanced() && i <= |s| && j <= |t|
    ensures Residual(c, |t| - |s|) <= Estimate(c, s, t, i, j)
    decreases i + j
  {
    if i + j > 0 {
      var e := EstimateGrows(c, s, t, i, j);
      EstimateAtLeastStart(c, s, t, i - |Consumed(e)|, j - |Produced(e)|);
    }
  }

  /** min_theo_d and max_theo_d really bound the distance. */
  lemma TheoreticalBounds(c: Costs, s: string, t: string)
    requires c.NonNegative()
    ensures Residual(c, |t| - |s|) <= EditDistance(c, s, t) <= Residual(c, |t| - |s|) + Min(|s|, |t|) * c.sub
  {
    EstimateAtLeastStart(c, s, t, |s|, |t|);
    AllChanges(c, s, t, Min(|s|, |t|));
    if |s| <= |t| {
      TailInserts(c, s, t, |s|, |s|, |t|);
    } else {
      TailDeletes(c, s, t, |t|, |s|, |t|);
    }
  }

  /** In the last row, a hopeful cell means that the final one is within the bound. */
  lemma LastRowHope(c: Costs, s: string, t: string, maxD: int, i: nat)
    requires i <= |s| && 0 <= maxD && !Over(c, s, t, maxD, i, |t|)
    ensures EditDistance(c, s, t) <= maxD && !Over(c, s, t, maxD, |s|, |t|)
  {
    TailDeletes(c, s, t, i, |s|, |t|);
  }

  // ----- the first row -----

  function BestColumn(netInserts: int): int { if netInserts < 0 then -netInserts else 0 }

  lemma FirstRowEstimate(c: Costs, s: string, t: string, i: nat)
    requires BestColumn(|t| - |s|) <= i <= |s|
    ensures Estimate(c, s, t, i, 0)
         == Residual(c, |t| - |s|) + (i - BestColumn(|t| - |s|)) * (c.ins + c.del)
  {
    BorderCells(c, s, t, i, 0);
    var net, best := |t| - |s|, BestColumn(|t| - |s|);
    Spread(i - best, best, c.del);
    Spread(i - best, net + best, c.ins);
    Distribute(i - best, c.ins, c.del);
    assert Due(s, t, i, 0) == net + i;
  }

  lemma Distribute(x: int, a: int, b: int)
    ensures x * (a + b) == x * a + x * b
  {
  }

  lemma Spread(a: int, b: int, x: int)
    ensures (a + b) * x == a * x + b * x
  {
  }

  /** Columns at or past the initial stop column cannot lead to an answer within the bound. */
  lemma InitialStop(c: Costs, s: string, t: string, maxD: int, i: nat)
    requires 0 < c.ins + c.del && i <= |s|
    requires Residual(c, |t| - |s|) <= maxD && 0 <= maxD
    requires BestColumn(|t| - |s|) + (maxD - Residual(c, |t| - |s|)) / (c.ins + c.del) + 1 <= i
    ensures Over(c, s, t, maxD, i, 0)
  {
    var slack, w := maxD - Residual(c, |t| - |s|), c.ins + c.del;
    var k := i - BestColumn(|t| - |s|);
    FirstRowEstimate(c, s, t, i);
    MulGrows(k, slack / w + 1, w);
    assert (slack / w + 1) * w > slack;
  }

  lemma InitialOutside(c: Costs, s: string, t: string, maxD: int, stop: nat)
    requires 0 < c.ins + c.del
    requires Residual(c, |t| - |s|) <= maxD && 0 <= maxD
    requires BestColumn(|t| - |s|) + (maxD - Residual(c, |t| - |s|)) / (c.ins + c.del) + 1 <= stop
    ensures Outside(c, s, t, maxD, 0, stop, 0)
  {
    forall k | 0 <= k <= |s| && !(0 <= k < stop) ensures Over(c, s, t, maxD, k, 0) {
      InitialStop(c, s, t, maxD, k);
    }
  }

  lemma MulGrows(a: int, b: int, x: int)
    requires b <= a && 0 <= x
    ensures b * x <= a * x
  {
  }
}
