/**
 levenshtein_internal and levenshtein_less_equal_internal: one body of code compiled
 twice.  Both keep two rows of the notional matrix; the second keeps only the window
 [start, stop) of columns that can still lead to an answer within the bound.

 A freshly allocated row holds Unset slots, and reading a slot requires it to be Set,
 so that no uninitialised cell is ever read is part of what is verified.
 */
module Levenshtein {
  import opened EditScript
  import opened EditMatrix
  import opened EditWindow
  import opened EditBounded

  const MAX_LEVENSHTEIN_STRLEN := 255

  datatype Result = Distance(value: int) | TooLong

  datatype Slot = Unset | Set(v: int)

  ghost predicate Refused(s: string, t: string) {
    s != [] && t != [] && (|s| > MAX_LEVENSHTEIN_STRLEN || |t| > MAX_LEVENSHTEIN_STRLEN)
  }

  // ----- the unbounded routine -----

  method LevenshteinInternal(s: string, t: string, c: Costs) returns (r: Result)
    ensures r == if Refused(s, t) then TooLong else Distance(EditDistance(c, s, t))
    ensures r.TooLong? <==> s != [] && t != [] && (|s| > 255 || |t| > 255)
  {
    var m, n := |s|, |t|;
    BorderCells(c, s, t, m, n);
    if m == 0 { return Distance(n * c.ins); }
    if n == 0 { return Distance(m * c.del); }
    if m > MAX_LEVENSHTEIN_STRLEN || n > MAX_LEVENSHTEIN_STRLEN { return TooLong; }
    m, n := m + 1, n + 1;
    var prev := new Slot[m](_ => Unset);
    var curr := new Slot[m](_ => Unset);
    var i := 0;
    while i < m
      invariant 0 <= i <= m
      invariant forall k {:trigger prev[k]} :: 0 <= k < i ==> prev[k] == Set(Cell(c, s, t, k, 0))
    {
      BorderCells(c, s, t, i, 0);
      prev[i] := Set(i * c.del);
      i := i + 1;
    }
    var j := 1;
    while j < n
      invariant 1 <= j <= n && prev.Length == curr.Length == m && prev != curr && fresh(prev) && fresh(curr)
      invariant forall k {:trigger prev[k]} :: 0 <= k < m ==> prev[k] == Set(Cell(c, s, t, k, j - 1))
    {
      FillWholeRow(s, t, c, prev, curr, j);
      prev, curr := curr, prev;
      j := j + 1;
    }
    r := Distance(prev[m-1].v);
  }

  method NextCell(s: string, t: string, c: Costs, ghost i: nat, j: nat, x: nat, up: int, left: int, diag: int)
    returns (v: int)
    requires 0 < i <= |s| && 0 < j <= |t| && x == i - 1
    requires up == Cell(c, s, t, i, j - 1) && left == Cell(c, s, t, i - 1, j) && diag == Cell(c, s, t, i - 1, j - 1)
    ensures v == Cell(c, s, t, i, j)
  {
    var ins := up + c.ins;
    var del := left + c.del;
    var sub := diag + if s[x] == t[j-1] then 0 else c.sub;
    v := Min(Min(ins, del), sub);
  }

  method FillWholeRow(s: string, t: string, c: Costs, prev: array<Slot>, curr: array<Slot>, j: nat)
    requires prev != curr && prev.Length == curr.Length == |s| + 1 && 1 <= j <= |t|
    requires forall k {:trigger prev[k]} :: 0 <= k <= |s| ==> prev[k] == Set(Cell(c, s, t, k, j - 1))
    modifies curr
    ensures forall k {:trigger curr[k]} :: 0 <= k <= |s| ==> curr[k] == Set(Cell(c, s, t, k, j))
  {
    BorderCells(c, s, t, 0, j);
    curr[0] := Set(j * c.ins);
    var i, x := 1, 0;
    while i < |s| + 1
      invariant 1 <= i <= |s| + 1 && x == i - 1
      invariant forall k {:trigger curr[k]} :: 0 <= k < i ==> curr[k] == Set(Cell(c, s, t, k, j))
    {
      var v := NextCell(s, t, c, i, j, x, prev[i].v, curr[i-1].v, prev[i-1].v);
      curr[i] := Set(v);
      x := x + 1;
      i := i + 1;
    }
  }

  // ----- the bounded routine -----

  /**
   The answer is Bounded's for all penalties; where they are usable it is the distance if
   that is within the bound, and over the bound otherwise.
   */
  method LevenshteinLessEqualInternal(s: string, t: string, costs: Costs, bound: int) returns (r: Result)
    ensures r == if Refused(s, t) then TooLong else Distance(Bounded(s, t, costs, bound))
    ensures r.TooLong? <==> s != [] && t != [] && (|s| > 255 || |t| > 255)
    ensures r.Distance? && BoundUsable(costs) ==> WithinBound(bound, EditDistance(costs, s, t), r.value)
    ensures r.Distance? && costs.NonNegative() && s != [] && t != [] && 0 <= bound < EditDistance(costs, s, t)
      ==> r.value == bound + 1
  {
    if BoundUsable(costs) { BoundedRight(costs, s, t, bound); }
    var m, n := |s|, |t|;
    if m == 0 { return Distance(n * costs.ins); }
    if n == 0 { return Distance(m * costs.del); }
    if m > MAX_LEVENSHTEIN_STRLEN || n > MAX_LEVENSHTEIN_STRLEN { return TooLong; }
    var hopeless, c, maxD, stop := PlanWindow(s, t, costs, bound);
    if hopeless { return Distance(bound + 1); }
    var d := RunRows(s, t, c, maxD, stop);
    r := Distance(d);
  }

  /** The two rows and the main loop. */
  method RunRows(s: string, t: string, c: Costs, maxD: int, stop0: nat) returns (d: int)
    requires stop0 <= |s| + 1 && Reaching(|s|, |t|, 0, stop0, 0)
    ensures d == Rows(s, t, c, maxD, Window(0, FirstRow(c, stop0)), 1)
  {
    var start, stop, sData := 0, stop0, 0;
    ghost var w := Window(0, FirstRow(c, stop));
    var m, n := |s| + 1, |t| + 1;
    var prev := new Slot[m](_ => Unset);
    var curr := new Slot[m](_ => Unset);
    FillFirstRow(c, prev, stop, maxD);
    var j := 1;
    while j < n
      invariant 1 <= j <= n && prev.Length == curr.Length == m && prev != curr && fresh(prev) && fresh(curr)
      invariant InWindow(s, t, w, start, stop, sData, j - 1)
      invariant Holds(prev, maxD, w) && Sentinels(curr, start, maxD)
      invariant Rows(s, t, c, maxD, w, j) == Rows(s, t, c, maxD, Window(0, FirstRow(c, stop0)), 1)
    {
      w, start, stop, sData := NextRow(s, t, c, prev, curr, w, start, stop, sData, j, maxD);
      prev, curr := curr, prev;
      if maxD >= 0 && start >= stop { return maxD + 1; }
      j := j + 1;
    }
    d := prev[m-1].v;
  }

  function Max(x: int, y: int): int { if x <= y then y else x }

  /** The variables of the routine between two rows. */
  ghost predicate InWindow(s: string, t: string, w: Window, start: nat, stop: nat, sData: nat, j: nat) {
    && start == w.start && stop == |w.row| <= |s| + 1 && sData == Max(start - 1, 0)
    && Reaching(|s|, |t|, start, stop, j)
  }

  /** The row holds the window, with the marker in the columns given up. */
  ghost predicate Holds(row: array<Slot>, maxD: int, w: Window)
    requires |w.row| <= row.Length
    reads row
  {
    forall k {:trigger row[k]} :: 0 <= k < |w.row| ==> row[k] == Set(w.At(maxD, k))
  }

  ghost predicate HoldsRow(row: array<Slot>, cells: seq<int>)
    requires |cells| <= row.Length
    reads row
  {
    forall k {:trigger row[k]} :: 0 <= k < |cells| ==> row[k] == Set(cells[k])
  }

  /** Columns already given up hold the over-the-bound marker. */
  ghost predicate Sentinels(row: array<Slot>, start: int, maxD: int)
    requires start <= row.Length
    reads row
  {
    forall k {:trigger row[k]} :: 0 <= k < start ==> row[k] == Set(maxD + 1)
  }

  /** The block that decides between giving up, switching the bound off, and choosing the first stop column. */
  method PlanWindow(s: string, t: string, costs: Costs, bound: int)
    returns (hopeless: bool, c: Costs, maxD: int, stop: nat)
    requires s != [] && t != []
    ensures PlanFor(costs, |s|, |t|, bound) == if hopeless then Hopeless else Go(c, maxD, stop)
    ensures EarlyExitSafe(costs) && hopeless ==> 0 <= bound < EditDistance(costs, s, t)
    ensures BoundUsable(costs) && !hopeless ==> EditDistance(c, s, t) == EditDistance(costs, s, t)
    ensures BoundUsable(costs) && !hopeless && maxD >= 0 ==> maxD == bound && c.NonNegative()
    ensures costs.NonNegative() && !hopeless && maxD < 0 ==> bound < 0 || EditDistance(c, s, t) <= bound
    ensures !hopeless ==> 0 < stop <= |s| + 1 && (maxD < 0 ==> stop == |s| + 1)
    ensures BoundUsable(costs) && !hopeless ==> Outside(c, s, t, maxD, 0, stop, 0)
  {
    if EarlyExitSafe(costs) { EarlyExitRight(costs, s, t, bound); }
    if BoundUsable(costs) && PlanFor(costs, |s|, |t|, bound).Go? { PlanRight(costs, s, t, bound); }
    var m, n := |s|, |t|;
    c, maxD, stop, hopeless := costs, bound, m + 1, false;
    if bound >= 0 {
      var netInserts := n - m;
      var minTheoD := Residual(c, netInserts);
      if minTheoD > bound { hopeless := true; return; }
      c := Clamped(c);
      var maxTheoD := minTheoD + Min(m, n) * c.sub;
      if bound >= maxTheoD {
        maxD := -1;
      } else if c.ins + c.del > 0 {
        var slackD := bound - minTheoD;
        var bestColumn := if netInserts < 0 then -netInserts else 0;
        stop := bestColumn + slackD / (c.ins + c.del) + 1;
        if stop > m { stop := m + 1; }
      }
    }
  }

  method FillFirstRow(c: Costs, prev: array<Slot>, stop: nat, ghost maxD: int)
    requires stop <= prev.Length
    modifies prev
    ensures Holds(prev, maxD, Window(0, FirstRow(c, stop)))
  {
    var i := 0;
    while i < stop
      invariant 0 <= i <= stop
      invariant forall k {:trigger prev[k]} :: 0 <= k < i ==> prev[k] == Set(k * c.del)
    {
      prev[i] := Set(i * c.del);
      i := i + 1;
    }
  }

  /** The body of the main loop: row j goes into curr, and then both ends of the window slide. */
  method NextRow(s: string, t: string, c: Costs, prev: array<Slot>, curr: array<Slot>, ghost w: Window,
                 start0: nat, stop0: nat, sData0: nat, j: nat, maxD: int)
    returns (ghost w': Window, start: nat, stop: nat, sData: nat)
    requires prev != curr && prev.Length == curr.Length == |s| + 1 && 1 <= j <= |t|
    requires InWindow(s, t, w, start0, stop0, sData0, j - 1)
    requires Holds(prev, maxD, w) && Sentinels(curr, start0, maxD)
    modifies prev, curr
    ensures w' == NextWindow(s, t, c, maxD, w, j) && start == w'.start && stop == |w'.row| && sData == Max(start - 1, 0)
    ensures maxD < 0 ==> start < stop
    ensures start < stop ==> Holds(curr, maxD, w') && Sentinels(prev, start, maxD) && Reaching(|s|, |t|, start, stop, j)
  {
    NextReaches(s, t, c, maxD, w, j);
    w' := NextWindow(s, t, c, maxD, w, j);
    start, sData := start0, sData0;
    ghost var row;
    stop, row := AdvanceRow(s, t, c, prev, curr, w, start, stop0, sData, j, maxD);
    if maxD >= 0 {
      start, stop, sData := SlideBoth(|s|, |t|, c, curr, prev, row, start, stop, sData, j, maxD);
    }
  }

  /** Extend the window by a marked column, unless it is at the right end, and fill row j over it. */
  method AdvanceRow(s: string, t: string, c: Costs, prev: array<Slot>, curr: array<Slot>, ghost w: Window,
                    start: nat, stop0: nat, sData: nat, j: nat, maxD: int)
    returns (stop: nat, ghost row: seq<int>)
    requires prev != curr && prev.Length == curr.Length == |s| + 1 && 1 <= j <= |t|
    requires InWindow(s, t, w, start, stop0, sData, j - 1)
    requires Holds(prev, maxD, w) && Sentinels(curr, start, maxD)
    modifies prev, curr
    ensures var wide := Widened(s, maxD, w); stop == |wide.row| && row == Filled(s, t, c, maxD, wide, j, stop)
    ensures start < stop && HoldsRow(curr, row) && Sentinels(prev, start, maxD) && Sentinels(curr, start, maxD)
  {
    stop := stop0;
    if stop < |s| + 1 {
      prev[stop] := Set(maxD + 1);
      stop := stop + 1;
    }
    ghost var wide := Widened(s, maxD, w);
    FillRow(s, t, c, prev, curr, wide, start, stop, sData, j, maxD);
    row := Filled(s, t, c, maxD, wide, j, stop);
  }

  /** The inner loop over the window; sData points at the character before column start. */
  method FillRow(s: string, t: string, c: Costs, prev: array<Slot>, curr: array<Slot>, ghost w: Window,
                 start: nat, stop: nat, sData: nat, j: nat, ghost maxD: int)
    requires prev != curr && prev.Length == curr.Length == |s| + 1 && 1 <= j <= |t|
    requires start == w.start < stop == |w.row| <= |s| + 1 && sData == Max(start - 1, 0)
    requires Holds(prev, maxD, w) && Sentinels(curr, start, maxD)
    modifies curr
    ensures HoldsRow(curr, Filled(s, t, c, maxD, w, j, stop)) && Sentinels(curr, start, maxD)
  {
    var i := start;
    FilledFront(s, t, c, maxD, w, j, start);
    if start == 0 {
      curr[0] := Set(j * c.ins);
      i := 1;
    }
    var x := sData;
    while i < stop
      invariant start <= i <= stop && 1 <= i && x == i - 1
      invariant HoldsRow(curr, Filled(s, t, c, maxD, w, j, i)) && Sentinels(curr, start, maxD)
    {
      var ins := prev[i].v + c.ins;
      var del := curr[i-1].v + c.del;
      var sub := prev[i-1].v + if s[x] == t[j-1] then 0 else c.sub;
      curr[i] := Set(Min(Min(ins, del), sub));
      x := x + 1;
      i := i + 1;
    }
  }

  lemma {:induction false} FilledFront(s: string, t: string, c: Costs, maxD: int, w: Window, j: nat, k: nat)
    requires k <= w.start && k <= |w.row| <= |s| + 1 && 0 < j <= |t|
    ensures forall i :: 0 <= i < k ==> Filled(s, t, c, maxD, w, j, k)[i] == maxD + 1
  {
    if k > 0 { FilledFront(s, t, c, maxD, w, j, k - 1); }
  }

  /** Can the stop column slide left? */
  method SlideStop(c: Costs, prev: array<Slot>, ghost row: seq<int>, stop0: nat, zp: int, maxD: int) returns (stop: nat)
    requires stop0 == |row| <= prev.Length && HoldsRow(prev, row)
    ensures stop == SlidStop(c, maxD, row, zp, stop0)
  {
    stop := stop0;
    while stop > 0
      invariant 0 <= stop <= stop0
      invariant SlidStop(c, maxD, row, zp, stop) == SlidStop(c, maxD, row, zp, stop0)
    {
      var ii := stop - 1;
      var netInserts := ii - zp;
      if prev[ii].v + Residual(c, netInserts) <= maxD { break; }
      stop := stop - 1;
    }
  }

  /** Can the start column slide right?  Columns given up are marked in both rows. */
  method SlideStart(c: Costs, prev: array<Slot>, curr: array<Slot>, ghost row: seq<int>,
                    start0: nat, stop: nat, sData0: nat, zp: int, maxD: int)
    returns (start: nat, sData: nat)
    requires prev != curr && prev.Length == curr.Length && start0 <= |row| <= prev.Length && stop <= |row|
    requires sData0 == Max(start0 - 1, 0)
    requires HoldsRow(prev, row) && Sentinels(prev, start0, maxD) && Sentinels(curr, start0, maxD)
    modifies prev, curr
    ensures start == SlidStart(c, maxD, row, zp, start0, stop) <= |row| && sData == Max(start - 1, 0)
    ensures forall k {:trigger prev[k]} :: start <= k < |row| ==> prev[k] == Set(row[k])
    ensures Sentinels(prev, start, maxD) && Sentinels(curr, start, maxD)
  {
    start, sData := start0, sData0;
    while start < stop
      invariant start0 <= start <= |row| && (start0 < stop ==> start <= stop) && sData == Max(start - 1, 0)
      invariant SlidStart(c, maxD, row, zp, start, stop) == SlidStart(c, maxD, row, zp, start0, stop)
      invariant forall k {:trigger prev[k]} :: start <= k < |row| ==> prev[k] == Set(row[k])
      invariant Sentinels(prev, start, maxD) && Sentinels(curr, start, maxD)
    {
      var netInserts := start - zp;
      if prev[start].v + Residual(c, netInserts) <= maxD { break; }
      prev[start] := Set(maxD + 1);
      curr[start] := Set(maxD + 1);
      if start != 0 { sData := sData + 1; }
      start := start + 1;
    }
  }

  /** Both ends of the window slide over the columns that read as over the bound in row j. */
  method SlideBoth(m: nat, n: nat, c: Costs, prev: array<Slot>, curr: array<Slot>, ghost row: seq<int>,
                   start0: nat, stop0: nat, sData0: nat, j: nat, maxD: int)
    returns (start: nat, stop: nat, sData: nat)
    requires prev != curr && prev.Length == curr.Length && start0 < stop0 == |row| <= prev.Length && 0 <= maxD
    requires sData0 == Max(start0 - 1, 0)
    requires HoldsRow(prev, row) && Sentinels(prev, start0, maxD) && Sentinels(curr, start0, maxD)
    modifies prev, curr
    ensures var w := Slid(m, n, c, maxD, start0, row, j);
      start == w.start && stop == |w.row| && sData == Max(start - 1, 0) && (start < stop ==> Holds(prev, maxD, w))
    ensures start < stop ==> Sentinels(curr, start, maxD)
  {
    var zp := j - (n - m);
    stop := SlideStop(c, prev, row, stop0, zp, maxD);
    start, sData := SlideStart(c, prev, curr, row, start0, stop, sData0, zp, maxD);
  }
}
