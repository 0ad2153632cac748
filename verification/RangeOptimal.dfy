/**
 Merging the smallest gap again and again is optimal: no other way to cover the set with
 as many intervals covers fewer integers.
 */
module RangeOptimal {
  import opened IntTool
  import opened RangeKey

  /** All integers from lo to hi. */
  datatype Interval = Interval(lo: int, hi: int)

  ghost predicate Holds(c: Interval, v: int) { c.lo <= v <= c.hi }

  ghost function Between(lo: int, hi: int): (s: set<int>)
    ensures forall v :: v in s <==> lo <= v <= hi
    decreases hi - lo
  {
    if lo <= hi then Between(lo, hi - 1) + {hi} else {}
  }

  ghost function Covered(c: seq<Interval>): set<int> {
    if c == [] then {} else Covered(c[..|c|-1]) + Between(c[|c|-1].lo, c[|c|-1].hi)
  }

  ghost predicate CoveredBy(c: seq<Interval>, v: int) {
    exists k :: 0 <= k < |c| && Holds(c[k], v)
  }

  lemma {:induction false} CoveredMembers(c: seq<Interval>, v: int)
    ensures v in Covered(c) <==> CoveredBy(c, v)
  {
    if c != [] {
      CoveredMembers(c[..|c|-1], v);
      if CoveredBy(c[..|c|-1], v) {
        var k :| 0 <= k < |c| - 1 && Holds(c[..|c|-1][k], v);
        assert Holds(c[k], v);
      }
      if CoveredBy(c, v) && !Holds(c[|c|-1], v) {
        var k :| 0 <= k < |c| && Holds(c[k], v);
        assert Holds(c[..|c|-1][k], v);
      }
    }
  }

  lemma {:induction false} BetweenCard(lo: int, hi: int)
    requires lo <= hi + 1
    ensures |Between(lo, hi)| == hi - lo + 1
    decreases hi - lo + 1
  {
    if lo <= hi {
      BetweenCard(lo, hi - 1);
    }
  }

  lemma {:induction false} SubsetCard(a: set<int>, b: set<int>)
    requires a <= b
    ensures |a| <= |b|
  {
    assert b == a + (b - a);
    assert |b| == |a| + |b - a|;
  }

  lemma DisjointCard(a: set<int>, b: set<int>)
    requires a !! b
    ensures |a + b| == |a| + |b|
  {
  }

  // ----- sums over gaps -----

  /** The integers inside the gaps before element n that t selects. */
  ghost function Weight(x: seq<int>, t: set<int>, n: nat): int
    requires n <= |x|
  {
    if n <= 1 then 0
    else Weight(x, t, n - 1) + if n - 1 in t then Gap(x, n - 1) - 1 else 0
  }

  /** How many gaps before element n t selects. */
  ghost function Count(t: set<int>, n: nat): nat {
    if n <= 1 then 0 else Count(t, n - 1) + if n - 1 in t then 1 else 0
  }

  /** Inside one block every gap is selected. */
  lemma {:induction false} BlockWeight(x: seq<int>, t: set<int>, lo: nat, n: nat)
    requires lo < n <= |x| && lo !in t
    requires forall i :: lo < i < n ==> i in t
    ensures Weight(x, t, n) == Weight(x, t, lo) + (x[n-1] - x[lo]) - (n - 1 - lo)
    ensures Count(t, n) == Count(t, lo) + (n - 1 - lo)
    decreases n
  {
    if lo + 1 < n {
      BlockWeight(x, t, lo, n - 1);
    }
  }

  ghost function Bridged(x: seq<int>, b: seq<nat>): set<int> {
    set i | 0 < i < |x| && i !in b
  }

  /** What the first k ranges cover, and how many gaps they bridge. */
  lemma {:induction false} CutWeight(x: seq<int>, d: seq<int>, parts: nat, b: seq<nat>, k: nat)
    requires Strict(x) && Cut(x, d, parts, b) && k <= parts
    ensures b[k] <= |x| && |Expand(d, k)| == b[k] + Weight(x, Bridged(x, b), b[k])
    ensures Count(Bridged(x, b), b[k]) == b[k] - k
    decreases k
  {
    if k > 0 {
      var j := k - 1;
      CutWeight(x, d, parts, b, j);
      RangeLength(x, d, parts, b, j);
      BlockBridged(x, b, j);
      assert j + 1 == k;
    }
  }

  lemma BlockBridged(x: seq<int>, b: seq<nat>, j: nat)
    requires Breaks(x, b) && j < |b| - 1
    ensures b[j] < b[j+1] <= |x|
    ensures var m := Bridged(x, b);
      Weight(x, m, b[j+1]) == Weight(x, m, b[j]) + (x[b[j+1]-1] - x[b[j]]) - (b[j+1] - 1 - b[j])
      && Count(m, b[j+1]) == Count(m, b[j]) + (b[j+1] - 1 - b[j])
  {
    NoBreakInside(x, b, j);
    BlockWeight(x, Bridged(x, b), b[j], b[j+1]);
  }

  lemma RangeLength(x: seq<int>, d: seq<int>, parts: nat, b: seq<nat>, j: nat)
    requires Strict(x) && Cut(x, d, parts, b) && j < parts
    ensures b[j] < b[j+1] <= |x|
    ensures |Expand(d, j + 1)| == |Expand(d, j)| + (x[b[j+1]-1] - x[b[j]] + 1)
  {
    assert BlockEnds(x, b, d, j);
    assert b[j] < b[j+1] <= |x|;
    assert x[b[j]] <= x[b[j+1]-1];
    assert Expand(d, j + 1) == Expand(d, j) + Run(d[2*j], d[2*j+1]);
  }

  lemma NoBreakInside(x: seq<int>, b: seq<nat>, j: nat)
    requires Breaks(x, b) && j < |b| - 1
    ensures b[j] < b[j+1] <= |x| && b[j] !in Bridged(x, b)
    ensures forall i :: b[j] < i < b[j+1] ==> i in Bridged(x, b)
  {
    forall i: nat | b[j] < i < b[j+1] ensures i !in b {
      forall m | 0 <= m < |b| ensures b[m] != i {
      }
    }
  }

  /** Swapping selected gaps for others never pays while the threshold separates them. */
  lemma {:induction false} Exchange(x: seq<int>, s: set<int>, m: set<int>, tau: int, n: nat)
    requires n <= |x|
    requires forall i :: 0 < i < |x| && i in m ==> Gap(x, i) <= tau
    requires forall i :: 0 < i < |x| && i !in m ==> tau <= Gap(x, i)
    ensures Weight(x, s, n) - Weight(x, m, n) >= (tau - 1) * (Count(s, n) - Count(m, n))
  {
    if n > 1 {
      Exchange(x, s, m, tau, n - 1);
      var k := Count(s, n - 1) - Count(m, n - 1);
      Distribute(tau - 1, k);
    }
  }

  lemma Distribute(w: int, k: int)
    ensures w * (k + 1) == w * k + w && w * (k - 1) == w * k - w
  {
  }

  // ----- any cover -----

  /** Some interval of the cover holds both ends of gap i. */
  ghost predicate Spans(c: seq<Interval>, x: seq<int>, i: int)
    requires 0 < i < |x|
  {
    exists k :: 0 <= k < |c| && Holds(c[k], x[i-1]) && Holds(c[k], x[i])
  }

  ghost function Spanned(c: seq<Interval>, x: seq<int>): set<int> {
    set i | 0 < i < |x| && Spans(c, x, i)
  }

  /** all is what the intervals cover, and that includes the elements of x. */
  ghost predicate CoverSet(c: seq<Interval>, x: seq<int>, all: set<int>) {
    (forall v :: v in all <==> CoveredBy(c, v)) && forall i :: 0 <= i < |x| ==> x[i] in all
  }

  /** The elements, and the inside of every spanned gap, are covered. */
  lemma {:induction false} CoverWeight(c: seq<Interval>, x: seq<int>, all: set<int>, n: nat) returns (z: set<int>)
    requires Strict(x) && 0 < n <= |x| && CoverSet(c, x, all)
    ensures z <= all && |z| == n + Weight(x, Spanned(c, x), n)
    ensures forall v :: v in z ==> v <= x[n-1]
    decreases n
  {
    if n == 1 {
      z := {x[0]};
    } else {
      var y := CoverWeight(c, x, all, n - 1);
      var lo := if n - 1 in Spanned(c, x) then x[n-2] + 1 else x[n-1];
      var more := Between(lo, x[n-1]);
      GapCovered(c, x, all, n - 1, lo);
      BetweenCard(lo, x[n-1]);
      DisjointCard(y, more);
      z := y + more;
    }
  }

  lemma GapCovered(c: seq<Interval>, x: seq<int>, all: set<int>, i: nat, lo: int)
    requires Strict(x) && 0 < i < |x| && CoverSet(c, x, all)
    requires lo == if i in Spanned(c, x) then x[i-1] + 1 else x[i]
    ensures Between(lo, x[i]) <= all
  {
    forall v | lo <= v <= x[i] ensures v in all {
      if i in Spanned(c, x) {
        var k :| 0 <= k < |c| && Holds(c[k], x[i-1]) && Holds(c[k], x[i]);
        assert Holds(c[k], v);
      }
    }
  }

  /** The interval holds one of the first n elements. */
  ghost predicate Touches(c: Interval, x: seq<int>, n: nat)
    requires n <= |x|
  {
    exists i :: 0 <= i < n && Holds(c, x[i])
  }

  /** Each gap that is not spanned needs a further interval. */
  lemma {:induction false} IntervalsNeeded(c: seq<Interval>, x: seq<int>, n: nat) returns (f: set<int>)
    requires Strict(x) && 0 < n <= |x| && forall i :: 0 <= i < |x| ==> CoveredBy(c, x[i])
    ensures f <= Between(0, |c| - 1) && |f| == n - Count(Spanned(c, x), n)
    ensures forall k :: k in f ==> Touches(c[k], x, n)
    decreases n
  {
    if n == 1 {
      assert CoveredBy(c, x[0]);
      var k :| 0 <= k < |c| && Holds(c[k], x[0]);
      f := {k};
      assert Touches(c[k], x, 1);
    } else {
      f := IntervalsNeeded(c, x, n - 1);
      TouchesMore(c, x, n - 1, f);
      if n - 1 !in Spanned(c, x) {
        var k := FreshInterval(c, x, n - 1);
        f := f + {k};
      }
    }
  }

  lemma TouchesMore(c: seq<Interval>, x: seq<int>, n: nat, f: set<int>)
    requires n < |x| && f <= Between(0, |c| - 1) && forall k :: k in f ==> Touches(c[k], x, n)
    ensures forall k :: k in f ==> Touches(c[k], x, n + 1)
  {
    forall k | k in f ensures Touches(c[k], x, n + 1) {
      var i :| 0 <= i < n && Holds(c[k], x[i]);
    }
  }

  /** The interval holding element n, when the gap before it is not spanned, holds no earlier one. */
  lemma FreshInterval(c: seq<Interval>, x: seq<int>, n: nat) returns (k: nat)
    requires Strict(x) && 0 < n < |x| && CoveredBy(c, x[n]) && n !in Spanned(c, x)
    ensures k < |c| && !Touches(c[k], x, n) && Touches(c[k], x, n + 1)
  {
    var m :| 0 <= m < |c| && Holds(c[m], x[n]);
    k := m;
    TouchesBefore(c[k], x, n);
    assert Holds(c[k], x[n-1]) ==> Spans(c, x, n);
  }

  lemma TouchesBefore(c: Interval, x: seq<int>, n: nat)
    requires Strict(x) && 0 < n < |x| && Holds(c, x[n])
    ensures Touches(c, x, n) ==> Holds(c, x[n-1])
  {
    if Touches(c, x, n) {
      var i :| 0 <= i < n && Holds(c, x[i]);
      assert x[i] <= x[n-1] <= x[n];
    }
  }

  /** What every cover of the set must do: cover this much, and span this many gaps. */
  lemma CoverBounds(c: seq<Interval>, x: seq<int>)
    requires Strict(x) && x != [] && forall i :: 0 <= i < |x| ==> CoveredBy(c, x[i])
    ensures |x| + Weight(x, Spanned(c, x), |x|) <= |Covered(c)|
    ensures |x| - |c| <= Count(Spanned(c, x), |x|)
  {
    forall v ensures v in Covered(c) <==> CoveredBy(c, v) { CoveredMembers(c, v); }
    var z := CoverWeight(c, x, Covered(c), |x|);
    SubsetCard(z, Covered(c));
    var f := IntervalsNeeded(c, x, |x|);
    BetweenCard(0, |c| - 1);
    SubsetCard(f, Between(0, |c| - 1));
  }

  /**
   The compressed key is optimal: any cover of the set by at most parts intervals covers
   at least as many integers as the key expands to.
   */
  lemma CompressionOptimal(x: seq<int>, d: seq<int>, parts: nat, c: seq<Interval>)
    requires Strict(x) && x != [] && Compressed(x, d, parts)
    requires |c| <= parts && forall i :: 0 <= i < |x| ==> CoveredBy(c, x[i])
    ensures |Expand(d, parts)| <= |Covered(c)|
  {
    var b, tau :| IsCut(x, d, parts, b, tau);
    CutTotals(x, d, parts, b, tau);
    CoverBounds(c, x);
    FewestBridged(x, b, tau, Spanned(c, x));
  }

  lemma CutTotals(x: seq<int>, d: seq<int>, parts: nat, b: seq<nat>, tau: int)
    requires Strict(x) && IsCut(x, d, parts, b, tau)
    ensures Breaks(x, b) && Threshold(x, b, tau) && 2 * parts == |d|
    ensures |Expand(d, parts)| == |x| + Weight(x, Bridged(x, b), |x|)
    ensures Count(Bridged(x, b), |x|) == |x| - parts
  {
    CutWeight(x, d, parts, b, parts);
  }

  /** No selection of at least as many gaps weighs less than the bridged ones. */
  lemma FewestBridged(x: seq<int>, b: seq<nat>, tau: int, s: set<int>)
    requires Strict(x) && Breaks(x, b) && Threshold(x, b, tau)
    requires Count(Bridged(x, b), |x|) <= Count(s, |x|)
    ensures Weight(x, Bridged(x, b), |x|) <= Weight(x, s, |x|)
  {
    var m, n := Bridged(x, b), |x|;
    var t := if tau < 1 then 1 else tau;
    forall i | 0 < i < |x| ensures if i in m then Gap(x, i) <= t else t <= Gap(x, i) {
      if i in b { KeptGap(x, b, tau, i); }
    }
    Exchange(x, s, m, t, n);
    NonNegative(t - 1, Count(s, n) - Count(m, n));
  }

  lemma KeptGap(x: seq<int>, b: seq<nat>, tau: int, i: nat)
    requires Breaks(x, b) && Threshold(x, b, tau) && 0 < i < |x| && i in b
    ensures tau <= Gap(x, i)
  {
    var k :| 0 <= k < |b| && b[k] == i;
  }

  lemma NonNegative(a: int, b: int)
    requires 0 <= a && 0 <= b
    ensures 0 <= a * b
  {
  }

  // ----- the converse -----

  /** The cover of the first n elements that bridges the gaps in m. */
  ghost function CoverFor(x: seq<int>, m: set<int>, n: nat): (c: seq<Interval>)
    requires 0 < n <= |x|
    ensures c != [] && c[|c|-1].hi == x[n-1]
  {
    if n == 1 then [Interval(x[0], x[0])]
    else
      var c := CoverFor(x, m, n - 1);
      if n - 1 in m then c[..|c|-1] + [Interval(c[|c|-1].lo, x[n-1])] else c + [Interval(x[n-1], x[n-1])]
  }

  lemma {:induction false} CoverForCount(x: seq<int>, m: set<int>, n: nat)
    requires Strict(x) && 0 < n <= |x|
    ensures var c := CoverFor(x, m, n); |c| == n - Count(m, n) && c[|c|-1].lo <= x[n-1]
  {
    if n > 1 { CoverForCount(x, m, n - 1); }
  }

  lemma {:induction false} CoverForCovers(x: seq<int>, m: set<int>, n: nat, i: nat)
    requires Strict(x) && i < n <= |x|
    ensures CoveredBy(CoverFor(x, m, n), x[i])
  {
    var c := CoverFor(x, m, n);
    CoverForCount(x, m, n);
    if i == n - 1 {
      assert Holds(c[|c|-1], x[i]);
    } else {
      CoverForCovers(x, m, n - 1, i);
      var b := CoverFor(x, m, n - 1);
      var k :| 0 <= k < |b| && Holds(b[k], x[i]);
      assert Holds(c[k], x[i]);
    }
  }

  lemma {:induction false} CoverForWeight(x: seq<int>, m: set<int>, n: nat)
    requires Strict(x) && 0 < n <= |x|
    ensures |Covered(CoverFor(x, m, n))| <= n + Weight(x, m, n)
  {
    if n == 1 {
      AppendInterval([], x[0]);
    } else {
      var b := CoverFor(x, m, n - 1);
      CoverForWeight(x, m, n - 1);
      CoverForCount(x, m, n - 1);
      if n - 1 in m { ExtendInterval(b, x[n-1]); } else { AppendInterval(b, x[n-1]); }
    }
  }

  lemma ExtendInterval(b: seq<Interval>, v: int)
    requires b != [] && b[|b|-1].lo <= b[|b|-1].hi < v
    ensures |Covered(b[..|b|-1] + [Interval(b[|b|-1].lo, v)])| <= |Covered(b)| + (v - b[|b|-1].hi)
  {
    var last, front := b[|b|-1], b[..|b|-1];
    var c := front + [Interval(last.lo, v)];
    assert c[..|c|-1] == front;
    var more := Between(last.hi + 1, v);
    BetweenCard(last.hi + 1, v);
    UnionCard(Covered(b), more);
    assert Covered(c) == Covered(front) + Between(last.lo, v);
    SubsetCard(Covered(c), Covered(b) + more);
  }

  lemma AppendInterval(b: seq<Interval>, v: int)
    ensures |Covered(b + [Interval(v, v)])| <= |Covered(b)| + 1
  {
    var c := b + [Interval(v, v)];
    assert c[..|c|-1] == b;
    BetweenCard(v, v);
    UnionCard(Covered(b), Between(v, v));
    assert Covered(c) == Covered(b) + Between(v, v);
  }

  lemma UnionCard(a: set<int>, b: set<int>)
    ensures |a + b| <= |a| + |b|
  {
    assert a + b == a + (b - a);
    SubsetCard(b - a, b);
  }

  /** One gap more. */
  lemma {:induction false} OneGapMore(x: seq<int>, m: set<int>, g: int, n: nat)
    requires n <= |x| && 0 < g < |x| && g !in m
    ensures Weight(x, m + {g}, n) == Weight(x, m, n) + if g < n then Gap(x, g) - 1 else 0
    ensures Count(m + {g}, n) == Count(m, n) + if g < n then 1 else 0
  {
    if n > 1 { OneGapMore(x, m, g, n - 1); }
  }

  ghost predicate CoversAll(c: seq<Interval>, x: seq<int>) { forall i :: 0 <= i < |x| ==> CoveredBy(c, x[i]) }

  lemma CoverForAll(x: seq<int>, m: set<int>)
    requires Strict(x) && x != []
    ensures var c := CoverFor(x, m, |x|);
      CoversAll(c, x) && |c| == |x| - Count(m, |x|) && |Covered(c)| <= |x| + Weight(x, m, |x|)
  {
    CoverForCount(x, m, |x|);
    CoverForWeight(x, m, |x|);
    forall i | 0 <= i < |x| ensures CoveredBy(CoverFor(x, m, |x|), x[i]) { CoverForCovers(x, m, |x|, i); }
  }

  /** Bridging a gap while a narrower one is left is not optimal. */
  lemma SwapBeats(x: seq<int>, d: seq<int>, parts: nat, b: seq<nat>, g: int, k: nat) returns (c: seq<Interval>)
    requires Strict(x) && Cut(x, d, parts, b) && 0 < g < |x| && g !in b && 0 < k < parts && Gap(x, b[k]) < Gap(x, g)
    ensures |c| <= parts && CoversAll(c, x) && |Covered(c)| < |Expand(d, parts)|
  {
    CutWeight(x, d, parts, b, parts);
    c := SwapCover(x, Bridged(x, b), g, b[k]);
  }

  lemma SwapCover(x: seq<int>, m: set<int>, g: int, h: int) returns (c: seq<Interval>)
    requires Strict(x) && 0 < g < |x| && 0 < h < |x| && g in m && h !in m && Gap(x, h) < Gap(x, g)
    ensures |c| == |x| - Count(m, |x|) && CoversAll(c, x) && |Covered(c)| < |x| + Weight(x, m, |x|)
  {
    SwapWeight(x, m, g, h);
    CoverForAll(x, m - {g} + {h});
    c := CoverFor(x, m - {g} + {h}, |x|);
  }

  lemma SwapWeight(x: seq<int>, m: set<int>, g: int, h: int)
    requires 0 < g < |x| && 0 < h < |x| && g in m && h !in m
    ensures var m' := m - {g} + {h};
      Weight(x, m', |x|) == Weight(x, m, |x|) - Gap(x, g) + Gap(x, h) && Count(m', |x|) == Count(m, |x|)
  {
    var rest := m - {g};
    assert m == rest + {g};
    OneGapMore(x, rest, g, |x|);
    OneGapMore(x, rest, h, |x|);
  }

  /** No cover of x by as many intervals covers fewer integers. */
  ghost predicate Optimal(x: seq<int>, d: seq<int>, parts: nat)
    requires 2 * parts <= |d|
  {
    forall c :: |c| <= parts && CoversAll(c, x) ==> |Expand(d, parts)| <= |Covered(c)|
  }

  lemma NarrowestKept(x: seq<int>, d: seq<int>, parts: nat, b: seq<nat>) returns (k: nat)
    requires Cut(x, d, parts, b) && 2 <= parts
    ensures 0 < k < parts && 0 < b[k] < |x|
    ensures forall i :: 0 < i < parts ==> 0 < b[i] < |x| && Gap(x, b[k]) <= Gap(x, b[i])
  {
    forall i | 0 < i < parts ensures 0 < b[i] < |x| { assert b[0] < b[i] < b[parts]; }
    k := 1;
    var n := 2;
    while n < parts
      invariant 2 <= n <= parts && 0 < k < n && forall i :: 0 < i < n ==> Gap(x, b[k]) <= Gap(x, b[i])
    {
      if Gap(x, b[n]) < Gap(x, b[k]) { k := n; }
      n := n + 1;
    }
  }

  /** A cut is optimal exactly when it bridges smallest gaps only. */
  lemma OptimalIffCompressed(x: seq<int>, d: seq<int>, parts: nat)
    requires Strict(x) && Parted(x, d, parts) && 2 <= parts && |d| == 2 * parts
    ensures Optimal(x, d, parts) <==> Compressed(x, d, parts)
  {
    var b :| Cut(x, d, parts, b);
    assert x != [];
    if Compressed(x, d, parts) {
      forall c | |c| <= parts && CoversAll(c, x) ensures |Expand(d, parts)| <= |Covered(c)| {
        CompressionOptimal(x, d, parts, c);
      }
    } else {
      var k := NarrowestKept(x, d, parts, b);
      var tau := Gap(x, b[k]);
      assert !IsCut(x, d, parts, b, tau);
      var g :| 0 < g < |x| && g !in b && Gap(x, g) > tau;
      var c := SwapBeats(x, d, parts, b, g, k);
      assert |Covered(c)| < |Expand(d, parts)|;
    }
  }
}
