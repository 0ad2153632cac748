/**
 The notional matrix of the dynamic program: cell (i, j) is the price of turning the
 first i characters of s into the first j characters of t.  The lemmas say that a cell
 is the price of the cheapest edit script, that values never decrease along a diagonal,
 and how a cell relates to the cells an optimal path can still reach from it.
 */
module EditMatrix {
  import opened EditScript

  function Min(x: int, y: int): int { if x <= y then x else y }

  function SubCost(c: Costs, x: char, y: char): int { if x == y then 0 else c.sub }

  ghost function Cell(c: Costs, s: string, t: string, i: nat, j: nat): int
    requires i <= |s| && j <= |t|
    decreases i + j
  {
    if i == 0 && j == 0 then 0
    else if i == 0 then Cell(c, s, t, i, j - 1) + c.ins
    else if j == 0 then Cell(c, s, t, i - 1, j) + c.del
    else Min(Min(Cell(c, s, t, i, j - 1) + c.ins, Cell(c, s, t, i - 1, j) + c.del),
             Cell(c, s, t, i - 1, j - 1) + SubCost(c, s[i-1], t[j-1]))
  }

  ghost function EditDistance(c: Costs, s: string, t: string): int {
    Cell(c, s, t, |s|, |t|)
  }

  // ----- the matrix prices edit scripts -----

  /** A cell is at most any neighbour plus the price of the step from it. */
  lemma Edges(c: Costs, s: string, t: string, i: nat, j: nat)
    requires i <= |s| && j <= |t|
    ensures j > 0 ==> Cell(c, s, t, i, j) <= Cell(c, s, t, i, j - 1) + c.ins
    ensures i > 0 ==> Cell(c, s, t, i, j) <= Cell(c, s, t, i - 1, j) + c.del
    ensures i > 0 && j > 0 ==> Cell(c, s, t, i, j) <= Cell(c, s, t, i - 1, j - 1) + SubCost(c, s[i-1], t[j-1])
  {
  }

  lemma EdgeFor(c: Costs, s: string, t: string, i: nat, j: nat, e: Edit)
    requires |Consumed(e)| <= i <= |s| && |Produced(e)| <= j <= |t|
    requires Consumed(e) != [] ==> Consumed(e)[0] == s[i-1]
    requires Produced(e) != [] ==> Produced(e)[0] == t[j-1]
    ensures Cell(c, s, t, i, j) <= Cell(c, s, t, i - |Consumed(e)|, j - |Produced(e)|) + EditCost(c, e)
  {
    Edges(c, s, t, i, j);
  }

  /** ... and equals one of them: the last edit of a cheapest script. */
  lemma LastEdit(c: Costs, s: string, t: string, i: nat, j: nat) returns (e: Edit)
    requires i <= |s| && j <= |t| && i + j > 0
    ensures |Consumed(e)| <= i && |Produced(e)| <= j && 0 < |Consumed(e)| + |Produced(e)|
    ensures Consumed(e) != [] ==> Consumed(e)[0] == s[i-1]
    ensures Produced(e) != [] ==> Produced(e)[0] == t[j-1]
    ensures Cell(c, s, t, i, j) == Cell(c, s, t, i - |Consumed(e)|, j - |Produced(e)|) + EditCost(c, e)
  {
    if j > 0 && Cell(c, s, t, i, j) == Cell(c, s, t, i, j - 1) + c.ins {
      e := Insert(t[j-1]);
    } else if i > 0 && Cell(c, s, t, i, j) == Cell(c, s, t, i - 1, j) + c.del {
      e := Delete(s[i-1]);
    } else {
      e := Change(s[i-1], t[j-1]);
    }
  }

  /** The first row and column hold multiples of one penalty. */
  lemma {:induction false} BorderCells(c: Costs, s: string, t: string, i: nat, j: nat)
    requires i <= |s| && j <= |t|
    ensures i == 0 ==> Cell(c, s, t, i, j) == j * c.ins
    ensures j == 0 ==> Cell(c, s, t, i, j) == i * c.del
    decreases i + j
  {
    if i == 0 && j > 0 {
      BorderCells(c, s, t, i, j - 1);
      MulStep(j, c.ins);
    } else if j == 0 && i > 0 {
      BorderCells(c, s, t, i - 1, j);
      MulStep(i, c.del);
    }
  }

  lemma MulStep(k: int, x: int)
    ensures k * x == (k - 1) * x + x
  {
  }

  lemma MulSign(k: int, x: int)
    requires 0 <= k && 0 <= x
    ensures 0 <= k * x
  {
  }

  lemma {:induction false} NoScriptCheaper(c: Costs, s: string, t: string, i: nat, j: nat, p: Script)
    requires i <= |s| && j <= |t|
    requires Transforms(p, s[..i], t[..j])
    ensures Cell(c, s, t, i, j) <= Cost(c, p)
    decreases |p|
  {
    if p != [] {
      var p', e := p[..|p|-1], p[|p|-1];
      Front(Source(p'), Consumed(e), s, i);
      Front(Target(p'), Produced(e), t, j);
      NoScriptCheaper(c, s, t, i - |Consumed(e)|, j - |Produced(e)|, p');
      EdgeFor(c, s, t, i, j, e);
    }
  }

  lemma Front(x: string, y: string, s: string, i: nat)
    requires i <= |s| && |y| <= 1 && x + y == s[..i]
    ensures |y| <= i && x == s[..i-|y|] && (y != [] ==> y[0] == s[i-1])
  {
    assert |x + y| == i;
    assert x == (x + y)[..i-|y|];
    if y != [] { assert (x + y)[|x|] == y[0]; }
  }

  lemma Rejoin(y: string, s: string, i: nat)
    requires |y| <= i <= |s| && |y| <= 1 && (y != [] ==> y[0] == s[i-1])
    ensures s[..i-|y|] + y == s[..i]
  {
    if y != [] { assert y == [s[i-1]]; }
  }

  lemma {:induction false} SomeScriptAttains(c: Costs, s: string, t: string, i: nat, j: nat) returns (p: Script)
    requires i <= |s| && j <= |t|
    ensures Transforms(p, s[..i], t[..j]) && Cost(c, p) == Cell(c, s, t, i, j)
    decreases i + j
  {
    if i == 0 && j == 0 {
      p := [];
    } else {
      var e := LastEdit(c, s, t, i, j);
      var q := SomeScriptAttains(c, s, t, i - |Consumed(e)|, j - |Produced(e)|);
      ExtendScript(c, q, e, s, t, i, j);
      p := q + [e];
    }
  }

  lemma ExtendScript(c: Costs, p: Script, e: Edit, s: string, t: string, i: nat, j: nat)
    requires |Consumed(e)| <= i <= |s| && |Produced(e)| <= j <= |t|
    requires Consumed(e) != [] ==> Consumed(e)[0] == s[i-1]
    requires Produced(e) != [] ==> Produced(e)[0] == t[j-1]
    requires Transforms(p, s[..i-|Consumed(e)|], t[..j-|Produced(e)|])
    ensures Transforms(p + [e], s[..i], t[..j]) && Cost(c, p + [e]) == Cost(c, p) + EditCost(c, e)
  {
    Snoc(c, p, e);
    Rejoin(Consumed(e), s, i);
    Rejoin(Produced(e), t, j);
  }

  /** The distance is the price of a cheapest script, and any two claimants agree. */
  lemma DistanceIsCheapestScript(c: Costs, s: string, t: string)
    ensures exists p :: Transforms(p, s, t) && Cost(c, p) == EditDistance(c, s, t)
    ensures forall p :: Transforms(p, s, t) ==> EditDistance(c, s, t) <= Cost(c, p)
  {
    assert s[..|s|] == s && t[..|t|] == t;
    var p := SomeScriptAttains(c, s, t, |s|, |t|);
    assert Transforms(p, s, t);
    forall q | Transforms(q, s, t) ensures EditDistance(c, s, t) <= Cost(c, q) {
      NoScriptCheaper(c, s, t, |s|, |t|, q);
    }
  }

  /** Nor does any sequence of single edits beat it, and one sequence attains it. */
  lemma DistanceIsCheapestEditSequence(c: Costs, s: string, t: string)
    requires c.NonNegative()
    ensures exists es :: Reaches(es, s, t) && PointCost(c, es) == EditDistance(c, s, t)
    ensures forall es :: Reaches(es, s, t) ==> EditDistance(c, s, t) <= PointCost(c, es)
  {
    DistanceIsCheapestScript(c, s, t);
    var p :| Transforms(p, s, t) && Cost(c, p) == EditDistance(c, s, t);
    var es := ScriptAsPoints(c, p, "");
    assert s + "" == s && t + "" == t;
    assert Reaches(es, s, t);
    forall fs | Reaches(fs, s, t) ensures EditDistance(c, s, t) <= PointCost(c, fs) {
      var q := PointsAsScript(c, fs, s, t);
    }
  }

  lemma TriangleInequality(c: Costs, s: string, t: string, u: string)
    requires c.NonNegative()
    ensures EditDistance(c, s, u) <= EditDistance(c, s, t) + EditDistance(c, t, u)
  {
    DistanceIsCheapestScript(c, s, t);
    DistanceIsCheapestScript(c, t, u);
    DistanceIsCheapestScript(c, s, u);
    var p :| Transforms(p, s, t) && Cost(c, p) == EditDistance(c, s, t);
    var q :| Transforms(q, t, u) && Cost(c, q) == EditDistance(c, t, u);
    var r := Compose(c, p, q);
  }

  /** Turning t into s costs what turning s into t costs with ins_c and del_c exchanged. */
  lemma SwapArguments(c: Costs, s: string, t: string)
    ensures EditDistance(c.Swapped(), t, s) == EditDistance(c, s, t)
  {
    SwapNoDearer(c, s, t);
    SwapNoDearer(c.Swapped(), t, s);
  }

  lemma SwapNoDearer(c: Costs, s: string, t: string)
    ensures EditDistance(c.Swapped(), t, s) <= EditDistance(c, s, t)
  {
    DistanceIsCheapestScript(c, s, t);
    var p :| Transforms(p, s, t) && Cost(c, p) == EditDistance(c, s, t);
    var r := Reverse(c, p);
    DistanceIsCheapestScript(c.Swapped(), t, s);
  }

  /** Which penalty is for what: nothing becomes t by insertions, s becomes nothing by deletions. */
  lemma WhichPenalty(c: Costs, s: string, t: string, x: char, y: char)
    ensures EditDistance(c, "", t) == |t| * c.ins && EditDistance(c, s, "") == |s| * c.del
    ensures x != y ==> EditDistance(c, [x], [y]) == Min(c.sub, c.ins + c.del)
  {
    BorderCells(c, "", t, 0, |t|);
    BorderCells(c, s, "", |s|, 0);
    BorderCells(c, [x], [y], 0, 1);
    BorderCells(c, [x], [y], 1, 0);
  }

  /** With positive penalties, distance zero means equal strings. */
  lemma ZeroOnlyForEqual(c: Costs, s: string, t: string)
    requires c.ins > 0 && c.del > 0 && c.sub > 0
    ensures EditDistance(c, s, t) >= 0
    ensures EditDistance(c, s, t) == 0 <==> s == t
  {
    DistanceIsCheapestScript(c, s, t);
    var p :| Transforms(p, s, t) && Cost(c, p) == EditDistance(c, s, t);
    FreeScriptKeeps(c, p);
    if s == t {
      var k := Keep(c, s);
    }
  }

  lemma {:induction false} FreeScriptKeeps(c: Costs, p: Script)
    requires c.ins > 0 && c.del > 0 && c.sub > 0
    ensures Cost(c, p) >= 0
    ensures Cost(c, p) == 0 ==> Source(p) == Target(p)
  {
    if p != [] {
      FreeScriptKeeps(c, p[..|p|-1]);
    }
  }

  // ----- clamping sub_c to ins_c + del_c -----

  function Clamped(c: Costs): Costs {
    if c.ins + c.del < c.sub then c.(sub := c.ins + c.del) else c
  }

  lemma {:induction false} ClampKeepsCells(c: Costs, s: string, t: string, i: nat, j: nat)
    requires i <= |s| && j <= |t|
    ensures Cell(Clamped(c), s, t, i, j) == Cell(c, s, t, i, j)
    decreases i + j
  {
    if i == 0 || j == 0 {
      ClampBorder(c, s, t, i, j);
    } else {
      ClampKeepsCells(c, s, t, i - 1, j);
      ClampKeepsCells(c, s, t, i, j - 1);
      ClampKeepsCells(c, s, t, i - 1, j - 1);
      ClampInterior(c, s, t, i, j);
    }
  }

  lemma ClampBorder(c: Costs, s: string, t: string, i: nat, j: nat)
    requires i <= |s| && j <= |t| && (i == 0 || j == 0)
    ensures Cell(Clamped(c), s, t, i, j) == Cell(c, s, t, i, j)
  {
    BorderCells(c, s, t, i, j);
    BorderCells(Clamped(c), s, t, i, j);
  }

  lemma ClampInterior(c: Costs, s: string, t: string, i: nat, j: nat)
    requires 0 < i <= |s| && 0 < j <= |t|
    ensures Cell(Clamped(c), s, t, i - 1, j) == Cell(c, s, t, i - 1, j)
         && Cell(Clamped(c), s, t, i, j - 1) == Cell(c, s, t, i, j - 1)
         && Cell(Clamped(c), s, t, i - 1, j - 1) == Cell(c, s, t, i - 1, j - 1)
         ==> Cell(Clamped(c), s, t, i, j) == Cell(c, s, t, i, j)
  {
    Edges(c, s, t, i - 1, j);
  }

  // ----- diagonals -----

  /** One more character of s never saves more than the insertion that replaces it. */
  lemma {:induction false} DropFromSource(c: Costs, s: string, t: string, i: nat, j: nat)
    requires c.Balanced() && i < |s| && j <= |t|
    ensures Cell(c, s, t, i, j) <= Cell(c, s, t, i + 1, j) + c.ins
    decreases j
  {
    if j > 0 {
      DropFromSource(c, s, t, i, j - 1);
      Edges(c, s, t, i, j);
    }
  }

  lemma {:induction false} DropFromTarget(c: Costs, s: string, t: string, i: nat, j: nat)
    requires c.Balanced() && i <= |s| && j < |t|
    ensures Cell(c, s, t, i, j) <= Cell(c, s, t, i, j + 1) + c.del
    decreases i
  {
    if i > 0 {
      DropFromTarget(c, s, t, i - 1, j);
      Edges(c, s, t, i, j);
    }
  }

  /** Values never decrease along a diagonal. */
  lemma DiagonalGrows(c: Costs, s: string, t: string, i: nat, j: nat)
    requires c.Balanced() && i < |s| && j < |t|
    ensures Cell(c, s, t, i, j) <= Cell(c, s, t, i + 1, j + 1)
  {
    DropFromSource(c, s, t, i, j);
    DropFromTarget(c, s, t, i, j);
  }
}
