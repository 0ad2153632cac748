/**
 g_int_compress and g_int_decompress: a sorted set of integers stored as at most 100
 ranges, and expanded again.  Range k of a key d is d[2k]..d[2k+1], both included.
 */
module RangeKey {
  import opened IntTool

  const MAXNUMRANGE: nat := 100

  // ----- what a compressed key is -----

  /** b cuts x into blocks: block k is x[b[k]..b[k+1]]. */
  ghost predicate Breaks(x: seq<int>, b: seq<nat>) {
    && 2 <= |b| && b[0] == 0 && b[|b|-1] == |x|
    && forall i, j :: 0 <= i < j < |b| ==> b[i] < b[j]
  }

  /** Range k of d runs from the first to the last element of block k. */
  ghost predicate BlockEnds(x: seq<int>, b: seq<nat>, d: seq<int>, k: nat)
    requires Breaks(x, b) && k < |b| - 1 && 2 * k + 1 < |d|
  {
    assert b[k] < b[k+1] <= |x| by { assert k + 1 < |b| - 1 ==> b[k+1] < b[|b|-1]; }
    d[2*k] == x[b[k]] && d[2*k+1] == x[b[k+1]-1]
  }

  ghost function Gap(x: seq<int>, i: int): int
    requires 0 < i < |x|
  {
    x[i] - x[i-1]
  }

  /** Every gap bridged by a block is at most tau, every gap left between blocks at least tau. */
  ghost predicate Threshold(x: seq<int>, b: seq<nat>, tau: int)
    requires Breaks(x, b)
  {
    && (forall i :: 0 < i < |x| && i !in b ==> Gap(x, i) <= tau)
    && (forall k :: 0 < k < |b| - 1 ==> tau <= Gap(x, b[k]))
  }

  /** d holds the ends of the parts blocks into which b cuts x. */
  ghost predicate Cut(x: seq<int>, d: seq<int>, parts: nat, b: seq<nat>) {
    && |b| == parts + 1 && |d| == 2 * parts && Breaks(x, b)
    && (forall k :: 0 <= k < parts ==> BlockEnds(x, b, d, k))
  }

  ghost predicate Parted(x: seq<int>, d: seq<int>, parts: nat) {
    exists b: seq<nat> :: Cut(x, d, parts, b)
  }

  /** ... and only smallest gaps have been bridged. */
  ghost predicate IsCut(x: seq<int>, d: seq<int>, parts: nat, b: seq<nat>, tau: int) {
    Cut(x, d, parts, b) && 0 <= tau && Threshold(x, b, tau)
  }

  ghost predicate Compressed(x: seq<int>, d: seq<int>, parts: nat) {
    exists b: seq<nat>, tau :: IsCut(x, d, parts, b, tau)
  }

  // ----- joining two blocks -----

  ghost function Without(b: seq<nat>, k: nat): seq<nat>
    requires k < |b|
  {
    b[..k] + b[k+1..]
  }

  /** Dropping break k joins blocks k-1 and k: two endpoints disappear. */
  lemma DropBreak(x: seq<int>, d: seq<int>, parts: nat, b: seq<nat>, k: nat)
    requires Cut(x, d, parts, b) && 0 < k < parts
    ensures Cut(x, d[..2*k-1] + d[2*k+1..], parts - 1, Without(b, k))
  {
    var b', d' := Without(b, k), d[..2*k-1] + d[2*k+1..];
    DropBreaks(x, b, k);
    forall i: nat | i < parts - 1 ensures BlockEnds(x, b', d', i) {
      DropEnds(x, d, parts, b, k, i);
    }
  }

  lemma DropBreaks(x: seq<int>, b: seq<nat>, k: nat)
    requires Breaks(x, b) && 0 < k < |b| - 1
    ensures Breaks(x, Without(b, k))
  {
  }

  lemma DropThreshold(x: seq<int>, b: seq<nat>, tau: int, k: nat)
    requires Breaks(x, b) && Threshold(x, b, tau) && 0 < k < |b| - 1 && Breaks(x, Without(b, k))
    requires forall i :: 0 < i < |b| - 1 ==> Gap(x, b[k]) <= Gap(x, b[i])
    ensures Threshold(x, Without(b, k), Gap(x, b[k]))
  {
    var b' := Without(b, k);
    forall i | 0 < i < |x| && i !in b' ensures Gap(x, i) <= Gap(x, b[k]) {
      OthersStay(b, k, i);
    }
  }

  lemma OthersStay(b: seq<nat>, k: nat, i: nat)
    requires k < |b| && i !in Without(b, k)
    ensures i in b ==> i == b[k]
  {
    assert b == b[..k] + [b[k]] + b[k+1..];
  }

  lemma WithoutAt(b: seq<nat>, k: nat, i: nat)
    requires k < |b| && i < |b| - 1
    ensures Without(b, k)[i] == b[if i < k then i else i + 1]
  {
  }

  lemma DroppedAt(d: seq<int>, k: nat, n: nat)
    requires 0 < k && 2 * k + 1 <= |d| && n < |d| - 2
    ensures (d[..2*k-1] + d[2*k+1..])[n] == d[if n < 2 * k - 1 then n else n + 2]
  {
  }

  lemma DropEnds(x: seq<int>, d: seq<int>, parts: nat, b: seq<nat>, k: nat, i: nat)
    requires |b| == parts + 1 && |d| == 2 * parts && Breaks(x, b) && 0 < k < parts && i < parts - 1
    requires forall j :: 0 <= j < parts ==> BlockEnds(x, b, d, j)
    requires Breaks(x, Without(b, k))
    ensures BlockEnds(x, Without(b, k), d[..2*k-1] + d[2*k+1..], i)
  {
    var b', d' := Without(b, k), d[..2*k-1] + d[2*k+1..];
    WithoutAt(b, k, i);
    WithoutAt(b, k, i + 1);
    DroppedAt(d, k, 2 * i);
    DroppedAt(d, k, 2 * i + 1);
    assert BlockEnds(x, b, d, i) && BlockEnds(x, b, d, i + 1);
  }

  // ----- 32-bit gaps -----

  /** The elements are of type int4. */
  ghost predicate Int4s(x: seq<int>) {
    x != [] ==> -0x8000_0000 <= x[0] && x[|x|-1] <= 0x7fff_ffff
  }

  /** A difference of two int4 values, as an int holds it. */
  function Int32(n: int): int { (n + 0x8000_0000) % 0x1_0000_0000 - 0x8000_0000 }

  /** A gap whose width wraps around. */
  ghost predicate Wide(x: seq<int>, i: int)
    requires 0 < i < |x|
  {
    Gap(x, i) >= 0x8000_0000
  }

  ghost predicate NarrowGaps(x: seq<int>) { forall i :: 0 < i < |x| ==> !Wide(x, i) }

  ghost predicate NoWideBreak(x: seq<int>, b: seq<nat>)
    requires Breaks(x, b)
  {
    forall k :: 0 < k < |b| - 1 ==> !Wide(x, b[k])
  }

  lemma GapsApart(x: seq<int>, i: nat, j: nat)
    requires Strict(x) && 0 < i < j < |x|
    ensures Gap(x, i) + Gap(x, j) <= x[j] - x[i-1]
  {
  }

  lemma GapFits(x: seq<int>, i: nat)
    requires Strict(x) && Int4s(x) && 0 < i < |x|
    ensures 0 < Gap(x, i) < 0x1_0000_0000
    ensures Int32(Gap(x, i)) == Gap(x, i) - if Wide(x, i) then 0x1_0000_0000 else 0
  {
    assert x[0] <= x[i-1] && x[i] <= x[|x|-1];
  }

  /** A set of int4 values has room for one wide gap only. */
  lemma OneWide(x: seq<int>, i: nat, j: nat)
    requires Strict(x) && Int4s(x) && 0 < i < |x| && 0 < j < |x| && Wide(x, i) && Wide(x, j)
    ensures i == j
  {
    if i < j {
      NotBothWide(x, i, j);
    } else if j < i {
      NotBothWide(x, j, i);
    }
  }

  lemma NotBothWide(x: seq<int>, i: nat, j: nat)
    requires Strict(x) && Int4s(x) && 0 < i < j < |x|
    ensures !Wide(x, i) || !Wide(x, j)
  {
    GapsApart(x, i, j);
    assert x[0] <= x[i-1] && x[j] <= x[|x|-1];
  }

  /** The width of the gap before block k as the inner loop compares it. */
  ghost function Width(x: seq<int>, b: seq<nat>, k: nat): int
    requires Breaks(x, b) && 0 < k < |b| - 1
  {
    Int32(Gap(x, b[k]))
  }

  /** ... and not for three gaps of the start value of min. */
  lemma NotAllMax(x: seq<int>, b: seq<nat>)
    requires Strict(x) && Int4s(x) && Breaks(x, b) && 5 <= |b|
    ensures exists k :: 1 <= k <= 3 && Width(x, b, k) != 0x7fff_ffff
  {
    var i, j, k := b[1], b[2], b[3];
    assert 0 < i < j < k < b[4] <= |x|;
    GapFits(x, i);
    GapFits(x, j);
    GapFits(x, k);
    GapsApart(x, i, j);
    assert x[0] <= x[i-1] && x[j] <= x[k-1] && x[k] <= x[|x|-1];
    assert Width(x, b, 1) != 0x7fff_ffff || Width(x, b, 2) != 0x7fff_ffff || Width(x, b, 3) != 0x7fff_ffff;
  }

  lemma GapBetween(x: seq<int>, d: seq<int>, parts: nat, b: seq<nat>, n: nat)
    requires Cut(x, d, parts, b) && 0 < n < parts
    ensures 0 < b[n] < |x| && d[2*n] - d[2*n-1] == Gap(x, b[n])
  {
    assert BlockEnds(x, b, d, n) && BlockEnds(x, b, d, n - 1);
    assert 2 * (n - 1) + 1 == 2 * n - 1;
  }

  // ----- compression -----

  /** The inner loop: the place after the first gap between stored ranges whose 32-bit width is smallest. */
  method SmallestGap(dr: array<int>, len: nat, ghost x: seq<int>, ghost parts: nat, ghost b: seq<nat>)
    returns (cand: nat, ghost k: nat)
    requires 4 <= parts && len == 2 * parts <= dr.Length && Strict(x) && Int4s(x)
    requires Cut(x, dr[..len], parts, b)
    ensures cand == 2 * k && 0 < k < parts && forall i :: 0 < i < parts ==> Width(x, b, k) <= Width(x, b, i)
  {
    var min := 0x7fff_ffff;
    ghost var d := dr[..len];
    cand, k := 1, 0;
    var i := 2;
    ghost var n := 1;
    while i < len
      invariant i == 2 * n && 1 <= n <= parts && k < n
      invariant if k == 0 then min == 0x7fff_ffff else cand == 2 * k && min == Width(x, b, k)
      invariant forall j :: 0 < j < n ==> min <= Width(x, b, j)
    {
      GapBetween(x, d, parts, b, n);
      assert dr[i] - dr[i-1] == d[2*n] - d[2*n-1];
      if min > Int32(dr[i] - dr[i-1]) {
        min := Int32(dr[i] - dr[i-1]);
        cand, k := i, n;
      }
      i, n := i + 2, n + 1;
    }
    NotAllMax(x, b);
    ghost var m :| 1 <= m <= 3 && Width(x, b, m) != 0x7fff_ffff;
    assert min <= Width(x, b, m);
  }

  /** A wide gap between blocks is taken for the smallest one; without one the smallest is found. */
  lemma WidthMeans(x: seq<int>, b: seq<nat>, k: nat)
    requires Strict(x) && Int4s(x) && Breaks(x, b) && 0 < k < |b| - 1
    requires forall i :: 0 < i < |b| - 1 ==> Width(x, b, k) <= Width(x, b, i)
    ensures NoWideBreak(x, b) || Wide(x, b[k])
    ensures NoWideBreak(x, b) ==> forall i :: 0 < i < |b| - 1 ==> Gap(x, b[k]) <= Gap(x, b[i])
  {
    GapFits(x, b[k]);
    forall i | 0 < i < |b| - 1
      ensures Wide(x, b[i]) ==> Wide(x, b[k])
      ensures !Wide(x, b[i]) && !Wide(x, b[k]) ==> Gap(x, b[k]) <= Gap(x, b[i])
    {
      GapFits(x, b[i]);
      assert Width(x, b, k) <= Width(x, b, i);
    }
  }

  /** After one join at such a gap no wide break is left. */
  lemma DropWide(x: seq<int>, b: seq<nat>, k: nat)
    requires Strict(x) && Int4s(x) && Breaks(x, b) && 0 < k < |b| - 1
    requires NoWideBreak(x, b) || Wide(x, b[k])
    ensures Breaks(x, Without(b, k)) && NoWideBreak(x, Without(b, k))
  {
    DropBreaks(x, b, k);
    var b' := Without(b, k);
    forall i | 0 < i < |b'| - 1 ensures !Wide(x, b'[i]) {
      var j := if i < k then i else i + 1;
      assert b'[i] == b[j] != b[k];
      if Wide(x, b[j]) { OneWide(x, b[j], b[k]); }
    }
  }

  /** memmove of the tail two places down. */
  method CloseGap(dr: array<int>, len: nat, cand: nat)
    requires 0 < cand < len - 1 && len <= dr.Length
    modifies dr
    ensures dr[..len-2] == old(dr[..cand-1] + dr[cand+1..len])
  {
    var k := cand - 1;
    ghost var front, tail := dr[..cand-1], dr[cand+1..len];
    while k < len - 2
      invariant cand - 1 <= k <= len - 2
      invariant forall n {:trigger dr[n]} :: 0 <= n < cand - 1 || k + 2 <= n < len ==> dr[n] == old(dr[n])
      invariant forall n {:trigger dr[n]} :: cand - 1 <= n < k ==> dr[n] == old(dr[n+2])
    {
      dr[k] := dr[k+2];
      k := k + 1;
    }
    assert dr[..len-2] == front + tail;
  }

  /** The first loop: in place, from the back, every element becomes a range of its own. */
  method Double(dr: array<int>, len: nat)
    requires 2 * len == dr.Length
    modifies dr
    ensures forall k :: 0 <= k < len ==> Doubled(dr[..], old(dr[..]), k)
  {
    var i := len - 1;
    ghost var s := dr[..];
    while i >= 0
      invariant -1 <= i < len
      invariant forall n {:trigger dr[n]} :: 0 <= n <= i ==> dr[n] == s[n]
      invariant forall k :: i < k < len ==> Doubled(dr[..], s, k)
    {
      ghost var before := dr[..];
      var v := dr[i];
      dr[2*i+1] := v;
      dr[2*i] := v;
      assert forall k :: i < k < len && Doubled(before, s, k) ==> Doubled(dr[..], s, k);
      i := i - 1;
    }
  }

  ghost predicate Doubled(d: seq<int>, s: seq<int>, k: nat)
    requires 2 * k + 1 < |d| && k < |s|
  {
    d[2*k] == s[k] && d[2*k+1] == s[k]
  }

  /**
   The internal-key branch of g_int_compress.  Joining follows smallest gaps exactly as long
   as no gap is so wide that its 32-bit difference wraps.
   */
  method Compress(key: seq<int>) returns (r: seq<int>)
    requires Strict(key) && Int4s(key)
    ensures |key| < 200 ==> r == key
    ensures |key| >= 200 ==> |r| == 200 && Parted(key, r, 100)
    ensures |key| >= 200 ==> (Compressed(key, r, 100) <==> NarrowGaps(key))
  {
    if |key| < 2 * MAXNUMRANGE { return key; }
    var dr := new int[2 * |key|](i => if 0 <= i < |key| then key[i] else 0);
    ghost var s := dr[..];
    Double(dr, |key|);
    var len := 2 * |key|;
    ghost var b: seq<nat> := seq(|key| + 1, i => i);
    Singletons(key, b, dr[..], s);
    ghost var tau;
    b, tau := JoinAll(dr, key, b);
    r := dr[..2 * MAXNUMRANGE];
    CompressedIffNarrow(key, r, MAXNUMRANGE, b, tau);
  }

  /** The merging loop. */
  method JoinAll(dr: array<int>, ghost x: seq<int>, ghost b0: seq<nat>) returns (ghost b: seq<nat>, ghost tau: int)
    requires dr.Length == 2 * |x| && |x| >= 2 * MAXNUMRANGE && Strict(x) && Int4s(x)
    requires IsCut(x, dr[..], |x|, b0, 0)
    modifies dr
    ensures Cut(x, dr[..2 * MAXNUMRANGE], MAXNUMRANGE, b) && NoWideBreak(x, b)
    ensures NarrowGaps(x) ==> IsCut(x, dr[..2 * MAXNUMRANGE], MAXNUMRANGE, b, tau)
  {
    var len := dr.Length;
    ghost var parts := |x|;
    b, tau := b0, 0;
    assert dr[..len] == dr[..];
    while len > 2 * MAXNUMRANGE
      invariant MAXNUMRANGE <= parts <= |x| && len == 2 * parts <= dr.Length
      invariant Joining(x, dr[..len], parts, b, tau)
    {
      b, tau := JoinSmallest(dr, len, x, parts, b, tau);
      len, parts := len - 2, parts - 1;
    }
  }

  /** What the merging loop keeps. */
  ghost predicate Joining(x: seq<int>, d: seq<int>, parts: nat, b: seq<nat>, tau: int) {
    && Cut(x, d, parts, b) && (parts < |x| ==> NoWideBreak(x, b))
    && (NarrowGaps(x) ==> IsCut(x, d, parts, b, tau))
  }

  /** The body of the merging loop. */
  method JoinSmallest(dr: array<int>, len: nat, ghost x: seq<int>, ghost parts: nat, ghost b: seq<nat>, ghost tau: int)
    returns (ghost b': seq<nat>, ghost tau': int)
    requires 4 <= parts && len == 2 * parts <= dr.Length && Strict(x) && Int4s(x)
    requires Joining(x, dr[..len], parts, b, tau)
    modifies dr
    ensures Joining(x, dr[..len-2], parts - 1, b', tau')
  {
    var cand; ghost var k;
    cand, k := SmallestGap(dr, len, x, parts, b);
    ghost var d := dr[..len];
    DropBreak(x, d, parts, b, k);
    WidthMeans(x, b, k);
    DropWide(x, b, k);
    b', tau' := Without(b, k), Gap(x, b[k]);
    if NarrowGaps(x) && Threshold(x, b, tau) { NarrowStep(x, b, tau, k); }
    CloseGap(dr, len, cand);
    assert dr[..len-2] == d[..2*k-1] + d[2*k+1..];
  }

  lemma NarrowStep(x: seq<int>, b: seq<nat>, tau: int, k: nat)
    requires Strict(x) && NarrowGaps(x) && Breaks(x, b) && Threshold(x, b, tau) && 0 < k < |b| - 1
    requires NoWideBreak(x, b) ==> forall i :: 0 < i < |b| - 1 ==> Gap(x, b[k]) <= Gap(x, b[i])
    ensures 0 <= Gap(x, b[k]) && Breaks(x, Without(b, k)) && Threshold(x, Without(b, k), Gap(x, b[k]))
  {
    DropBreaks(x, b, k);
    DropThreshold(x, b, tau, k);
  }

  /** A wide gap is bridged although narrower ones are left, so that no threshold separates them. */
  lemma CompressedIffNarrow(x: seq<int>, d: seq<int>, parts: nat, b: seq<nat>, tau: int)
    requires Strict(x) && 2 <= parts && Cut(x, d, parts, b) && NoWideBreak(x, b)
    requires NarrowGaps(x) ==> IsCut(x, d, parts, b, tau)
    ensures Parted(x, d, parts) && (Compressed(x, d, parts) <==> NarrowGaps(x))
  {
    if Compressed(x, d, parts) {
      var c, sigma :| IsCut(x, d, parts, c, sigma);
      CutUnique(x, d, parts, b, c);
      assert sigma <= Gap(x, b[1]) && !Wide(x, b[1]);
      forall g | 0 < g < |x| ensures !Wide(x, g) {
        if g in b {
          var k :| 0 <= k < |b| && b[k] == g;
          assert !Wide(x, b[k]);
        } else {
          assert Gap(x, g) <= sigma;
        }
      }
    }
  }

  /** The stored ends determine the cut. */
  lemma CutUnique(x: seq<int>, d: seq<int>, parts: nat, b: seq<nat>, c: seq<nat>)
    requires Strict(x) && Cut(x, d, parts, b) && Cut(x, d, parts, c)
    ensures b == c
  {
    forall k: nat | k < parts ensures b[k] == c[k] {
      assert BlockEnds(x, b, d, k) && BlockEnds(x, c, d, k);
      assert b[k] < |x| && c[k] < |x|;
    }
  }

  /** To begin with every element is a block of its own. */
  lemma Singletons(x: seq<int>, b: seq<nat>, d: seq<int>, s: seq<int>)
    requires Strict(x) && x != [] && |b| == |x| + 1 && forall i :: 0 <= i < |b| ==> b[i] == i
    requires |d| == 2 * |x| && x <= s && forall k :: 0 <= k < |x| ==> Doubled(d, s, k)
    ensures IsCut(x, d, |x|, b, 0)
  {
    assert Breaks(x, b);
    forall k: nat | k < |x| ensures BlockEnds(x, b, d, k) {
      assert Doubled(d, s, k) && b[k] == k && b[k+1] == k + 1;
    }
    forall i | 0 < i < |x| ensures i in b {
      assert b[i] == i;
    }
    forall k: nat | 0 < k < |x| ensures 0 <= Gap(x, b[k]) {
      assert b[k] == k;
    }
  }

  // ----- decompression -----

  /** Range k is in order and ends before the next one begins. */
  ghost predicate RangeOk(d: seq<int>, k: nat)
    requires 2 * k + 1 < |d|
  {
    d[2*k] <= d[2*k+1] && (2 * k + 2 < |d| ==> d[2*k+1] < d[2*k+2])
  }

  /** A key of n ranges, in order and apart. */
  ghost predicate Ranged(d: seq<int>, n: nat) {
    |d| == 2 * n && forall k :: 0 <= k < n ==> RangeOk(d, k)
  }

  ghost function Run(lo: int, hi: int): (s: seq<int>)
    ensures |s| == if lo <= hi then hi - lo + 1 else 0
    decreases hi - lo
  {
    if lo <= hi then Run(lo, hi - 1) + [hi] else []
  }

  lemma {:induction false} RunAt(lo: int, hi: int, i: nat)
    requires lo + i <= hi
    ensures Run(lo, hi)[i] == lo + i
    decreases hi - lo
  {
    if lo + i < hi { RunAt(lo, hi - 1, i); }
  }

  lemma RunStrict(lo: int, hi: int)
    ensures Strict(Run(lo, hi))
  {
    forall i, j | 0 <= i < j < |Run(lo, hi)| ensures Run(lo, hi)[i] < Run(lo, hi)[j] {
      RunAt(lo, hi, i);
      RunAt(lo, hi, j);
    }
  }

  /** The integers that the first n ranges cover, in order. */
  ghost function Expand(d: seq<int>, n: nat): seq<int>
    requires 2 * n <= |d|
  {
    if n == 0 then [] else Expand(d, n - 1) + Run(d[2*(n-1)], d[2*(n-1)+1])
  }

  /** The expansion ends with the last endpoint. */
  lemma ExpandLast(d: seq<int>, k: nat)
    requires 2 * k + 1 < |d| && d[2*k] <= d[2*k+1]
    ensures Expand(d, k + 1) != [] && Expand(d, k + 1)[|Expand(d, k + 1)|-1] == d[2*k+1]
  {
    var run := Run(d[2*k], d[2*k+1]);
    assert Expand(d, k + 1) == Expand(d, k) + run;
    RunAt(d[2*k], d[2*k+1], |run| - 1);
  }

  /** What has been expanded ends below the next range. */
  lemma ExpandBelow(d: seq<int>, k: nat)
    requires 2 * k + 1 < |d| && RangeOk(d, k) && (k > 0 ==> RangeOk(d, k - 1))
    ensures var s, t := Expand(d, k), Run(d[2*k], d[2*k+1]); s != [] && t != [] ==> s[|s|-1] < t[0]
  {
    if k > 0 { ExpandLast(d, k - 1); }
    RunAt(d[2*k], d[2*k+1], 0);
  }

  /** Expansion is strictly increasing. */
  lemma {:induction false} ExpandStrict(d: seq<int>, parts: nat, n: nat)
    requires Ranged(d, parts) && n <= parts
    ensures Strict(Expand(d, n))
  {
    if n > 0 {
      var k := n - 1;
      ExpandStrict(d, parts, k);
      assert RangeOk(d, k) && (k > 0 ==> RangeOk(d, k - 1));
      ExpandBelow(d, k);
      RunStrict(d[2*k], d[2*k+1]);
      StrictAppend(Expand(d, k), Run(d[2*k], d[2*k+1]));
    }
  }

  lemma StrictAppend(s: seq<int>, t: seq<int>)
    requires Strict(s) && Strict(t) && (s != [] && t != [] ==> s[|s|-1] < t[0])
    ensures Strict(s + t)
  {
  }

  ghost predicate InRange(d: seq<int>, k: nat, v: int)
    requires 2 * k + 1 < |d|
  {
    d[2*k] <= v <= d[2*k+1]
  }

  /** An integer is in the expansion exactly when some range holds it. */
  lemma {:induction false} ExpandMembers(d: seq<int>, n: nat, v: int)
    requires 2 * n <= |d|
    ensures v in Expand(d, n) <==> exists k :: 0 <= k < n && InRange(d, k, v)
  {
    if n > 0 {
      ExpandMembers(d, n - 1, v);
      RunMembers(d[2*(n-1)], d[2*(n-1)+1], v);
      assert v in Expand(d, n) <==> v in Expand(d, n - 1) || InRange(d, n - 1, v);
    }
  }

  lemma {:induction false} RunMembers(lo: int, hi: int, v: int)
    ensures v in Run(lo, hi) <==> lo <= v <= hi
    decreases hi - lo
  {
    if lo <= hi { RunMembers(lo, hi - 1, v); }
  }

  lemma {:induction false} ExpandGrows(d: seq<int>, m: nat, n: nat)
    requires m <= n && 2 * n <= |d|
    ensures |Expand(d, m)| <= |Expand(d, n)|
  {
    if m < n { ExpandGrows(d, m, n - 1); }
  }

  /** internal_size: the space the expansion needs. */
  method InternalSize(a: seq<int>, ghost parts: nat) returns (size: nat)
    requires Ranged(a, parts)
    ensures size == |Expand(a, parts)|
  {
    size := 0;
    var i := 0;
    ghost var k := 0;
    while i < |a|
      invariant i == 2 * k && 0 <= k <= parts && size == |Expand(a, k)|
    {
      assert RangeOk(a, k) && (k > 0 ==> RangeOk(a, k - 1));
      if i == 0 || a[i] != a[i-1] {
        size := size + (a[i+1] - a[i] + 1);
      }
      i, k := i + 2, k + 1;
    }
  }

  // A range that ends at the largest int has no end for the counter of the loop, which wraps around.

  const INT_MAX: int := 0x7fff_ffff

  predicate IsInt4(v: int) { -0x8000_0000 <= v <= INT_MAX }

  ghost predicate Int4Values(s: seq<int>) { forall v :: v in s ==> IsInt4(v) }

  /** A result, or writing past the end of the buffer. */
  datatype Result<T> = Done(value: T) | Overrun

  /** Opening the stored key ends: it is stored as it is, or its last range stops short of the largest int. */
  predicate Opens(key: seq<int>) { |key| >= 200 ==> key[|key|-1] != INT_MAX }

  /** g_int_decompress: the elements fit the space reckoned in advance, and fill it, unless the loop goes on. */
  method Decompress(key: seq<int>, ghost parts: nat) returns (r: Result<seq<int>>)
    requires |key| >= 2 * MAXNUMRANGE ==> Ranged(key, parts) && Int4Values(key)
    ensures r.Overrun? <==> !Opens(key)
    ensures r.Done? ==> r.value == if |key| < 200 then key else Expand(key, parts)
  {
    if |key| < 2 * MAXNUMRANGE { return Done(key); }
    var lenr := InternalSize(key, parts);
    var out := new int[lenr];
    var dr, i := 0, 0;
    ghost var k := 0;
    while i < |key|
      invariant i == 2 * k && 0 <= k <= parts && 0 <= dr <= out.Length && out[..dr] == Expand(key, k)
      invariant k > 0 ==> key[2*k-1] != INT_MAX
    {
      var overrun;
      dr, overrun := WriteRange(key, i, out, dr, parts, k);
      if overrun { return Overrun; }
      i, k := i + 2, k + 1;
    }
    assert out[..dr] == out[..];
    r := Done(out[..]);
  }

  /** One round of the outer loop. */
  method WriteRange(key: seq<int>, i: nat, out: array<int>, dr0: nat, ghost parts: nat, ghost k: nat)
    returns (dr: nat, overrun: bool)
    requires Ranged(key, parts) && Int4Values(key) && k < parts && i == 2 * k && out.Length == |Expand(key, parts)|
    requires dr0 <= out.Length && out[..dr0] == Expand(key, k)
    modifies out
    ensures if overrun then !RangeStops(key, k) && k + 1 == parts else RangeStops(key, k)
    ensures !overrun ==> dr <= out.Length && out[..dr] == Expand(key, k + 1)
  {
    RoomFor(key, parts, k);
    BeforeRange(key, parts, k);
    dr, overrun := WriteRun(key[i], key[i+1], i == 0, out, dr0, Expand(key, k));
  }

  predicate RangeStops(key: seq<int>, k: nat)
    requires 2 * k + 1 < |key|
  {
    key[2*k+1] != INT_MAX
  }

  /** There is room for range k, and for nothing more if it ends at the largest int, being the last one then. */
  lemma RoomFor(key: seq<int>, parts: nat, k: nat)
    requires Ranged(key, parts) && Int4Values(key) && k < parts
    ensures IsInt4(key[2*k]) && IsInt4(key[2*k+1]) && key[2*k] <= key[2*k+1]
    ensures Expand(key, k + 1) == Expand(key, k) + Run(key[2*k], key[2*k+1])
    ensures |Expand(key, k)| + (key[2*k+1] - key[2*k] + 1) <= |Expand(key, parts)|
    ensures !RangeStops(key, k)
      ==> k + 1 == parts && |Expand(key, k)| + (key[2*k+1] - key[2*k] + 1) == |Expand(key, parts)|
  {
    assert key[2*k] in key && key[2*k+1] in key && RangeOk(key, k);
    if k + 1 < parts { assert key[2*k+2] in key; }
    ExpandGrows(key, k + 1, parts);
    assert Expand(key, k + 1) == Expand(key, k) + Run(key[2*k], key[2*k+1]);
  }

  lemma BeforeRange(key: seq<int>, parts: nat, k: nat)
    requires Ranged(key, parts) && k < parts
    ensures k > 0 ==> Expand(key, k) != [] && Expand(key, k)[|Expand(key, k)|-1] < key[2*k]
  {
    if k > 0 {
      var j := k - 1;
      assert RangeOk(key, j) && 2 * j + 2 == 2 * k && j + 1 == k;
      ExpandLast(key, j);
      ghost var e := Expand(key, k);
      assert e != [] && e[|e|-1] == key[2*j+1];
    }
  }

  /**
   The loop over one range, which skips an element equal to the last one written.  Its counter j
   is an int, which wraps around behind the largest one; c counts on.
   */
  method WriteRun(lo: int, hi: int, first: bool, out: array<int>, dr0: nat, ghost e: seq<int>)
    returns (dr: nat, overrun: bool)
    requires IsInt4(lo) && IsInt4(hi) && lo <= hi && |e| + (hi - lo + 1) <= out.Length
    requires hi == INT_MAX ==> |e| + (hi - lo + 1) == out.Length
    requires dr0 == |e| && out[..dr0] == e && (!first ==> e != [] && e[|e|-1] < lo)
    modifies out
    ensures overrun <==> hi == INT_MAX
    ensures !overrun ==> dr <= out.Length && out[..dr] == e + Run(lo, hi)
  {
    dr, overrun := dr0, false;
    assert !first ==> out[dr-1] == out[..dr0][dr-1];
    var j := lo;
    ghost var c := lo;
    while j <= hi
      invariant lo <= c <= hi + 1 && dr == dr0 + (c - lo) && j == if c <= INT_MAX then c else -0x8000_0000
      invariant (!first ==> out[dr-1] < c) && (c > lo ==> out[dr-1] == c - 1)
      invariant out[..dr] == e + Run(lo, c - 1)
      decreases hi + 1 - c
    {
      if first || out[dr-1] != j {
        if dr == out.Length { return dr, true; }
        RunNext(e, lo, c);
        ghost var sofar := out[..dr];
        out[dr] := j;
        dr := dr + 1;
        assert out[..dr] == sofar + [j];
      }
      NextInt(j);
      j, c := Int32(j + 1), c + 1;
    }
  }

  lemma RunNext(e: seq<int>, lo: int, c: int)
    requires lo <= c
    ensures e + Run(lo, c) == e + Run(lo, c - 1) + [c]
  {
    assert Run(lo, c) == Run(lo, c - 1) + [c];
  }

  lemma NextInt(j: int)
    requires IsInt4(j)
    ensures Int32(j + 1) == if j < INT_MAX then j + 1 else -0x8000_0000
  {
  }

  // ----- compression and expansion together -----

  lemma CutIsRanged(x: seq<int>, d: seq<int>, parts: nat, b: seq<nat>)
    requires Strict(x) && Cut(x, d, parts, b)
    ensures Ranged(d, parts)
  {
    forall k: nat | k < parts ensures RangeOk(d, k) {
      assert BlockEnds(x, b, d, k) && (k + 1 < parts ==> BlockEnds(x, b, d, k + 1));
      assert b[k] < b[k+1] && (k + 1 < parts ==> b[k+1] < b[|b|-1]);
    }
  }

  /** The block of x that element i falls into. */
  lemma BlockOf(x: seq<int>, b: seq<nat>, i: nat) returns (k: nat)
    requires Breaks(x, b) && i < |x|
    ensures k < |b| - 1 && b[k] <= i < b[k+1]
  {
    k := 0;
    while !(i < b[k+1])
      invariant k < |b| - 1 && b[k] <= i
      decreases |b| - k
    {
      k := k + 1;
    }
  }

  lemma CutCovers(x: seq<int>, d: seq<int>, parts: nat, b: seq<nat>, i: nat)
    requires Strict(x) && Cut(x, d, parts, b) && i < |x|
    ensures x[i] in Expand(d, parts)
  {
    var k := BlockOf(x, b, i);
    assert BlockEnds(x, b, d, k);
    assert InRange(d, k, x[i]);
    ExpandMembers(d, parts, x[i]);
  }

  lemma CutEndsTaken(x: seq<int>, d: seq<int>, parts: nat, b: seq<nat>, n: nat)
    requires Cut(x, d, parts, b) && n < |d|
    ensures d[n] in x
  {
    var k := n / 2;
    assert n == 2 * k || n == 2 * k + 1;
    assert BlockEnds(x, b, d, k);
  }

  /**
   Nothing of the set is lost: the expansion is a strictly increasing superset, and the
   stored endpoints are elements of the set.
   */
  lemma CompressionCovers(x: seq<int>, d: seq<int>, parts: nat)
    requires Strict(x) && Parted(x, d, parts)
    ensures Ranged(d, parts) && Strict(Expand(d, parts))
    ensures forall v :: v in x ==> v in Expand(d, parts)
    ensures forall v :: v in d ==> v in x
  {
    var b :| Cut(x, d, parts, b);
    CutIsRanged(x, d, parts, b);
    ExpandStrict(d, parts, parts);
    forall i: nat | i < |x| ensures x[i] in Expand(d, parts) {
      CutCovers(x, d, parts, b, i);
    }
    forall n: nat | n < |d| ensures d[n] in x {
      CutEndsTaken(x, d, parts, b, n);
    }
  }

  // ----- which keys can be opened -----

  /** The counter of a range after n rounds. */
  function Counter(lo: int, n: nat): int {
    if n == 0 then lo else Int32(Counter(lo, n - 1) + 1)
  }

  /** The loop over the range lo..hi comes to an end. */
  ghost predicate RangeEnds(lo: int, hi: int) { exists n: nat :: Counter(lo, n) > hi }

  lemma {:induction false} CounterAt(lo: int, n: nat)
    requires IsInt4(lo)
    ensures IsInt4(Counter(lo, n)) && (lo + n <= INT_MAX ==> Counter(lo, n) == lo + n)
  {
    if n > 0 { CounterAt(lo, n - 1); }
  }

  lemma RangeEndsIff(lo: int, hi: int)
    requires IsInt4(lo) && IsInt4(hi)
    ensures RangeEnds(lo, hi) <==> hi < INT_MAX
  {
    if hi < INT_MAX {
      var n := if lo <= hi then hi + 1 - lo else 0;
      CounterAt(lo, n);
      assert Counter(lo, n) > hi;
    } else {
      forall n: nat ensures Counter(lo, n) <= hi { CounterAt(lo, n); }
    }
  }

  /** Of the ranges of a compressed set all loops end exactly if the set is without the largest int. */
  lemma EveryRangeEnds(x: seq<int>, d: seq<int>, parts: nat)
    requires Strict(x) && Int4s(x) && Parted(x, d, parts) && |d| == 2 * parts
    ensures (forall k :: 0 <= k < parts ==> RangeEnds(d[2*k], d[2*k+1])) <==> INT_MAX !in x
    ensures INT_MAX in x <==> d[|d|-1] == INT_MAX
  {
    var b :| Cut(x, d, parts, b);
    LastEnd(x, d, parts, b);
    LargestLast(x);
    CompressionCovers(x, d, parts);
    forall k | 0 <= k < parts
      ensures IsInt4(d[2*k]) && IsInt4(d[2*k+1]) && (RangeEnds(d[2*k], d[2*k+1]) <==> d[2*k+1] != INT_MAX)
    {
      assert d[2*k] in d && d[2*k+1] in d;
      RangeEndsIff(d[2*k], d[2*k+1]);
    }
    var last := parts - 1;
    assert d[2*last+1] == d[|d|-1];
  }

  lemma LargestLast(x: seq<int>)
    requires Strict(x) && x != [] && Int4s(x)
    ensures Int4Values(x) && (INT_MAX in x <==> x[|x|-1] == INT_MAX)
  {
    forall i | 0 <= i < |x| ensures x[0] <= x[i] <= x[|x|-1] {
    }
  }

  lemma LastEnd(x: seq<int>, d: seq<int>, parts: nat, b: seq<nat>)
    requires Cut(x, d, parts, b)
    ensures 0 < parts && x != [] && d[|d|-1] == x[|x|-1]
  {
    assert BlockEnds(x, b, d, parts - 1);
  }

  // ----- leaves too long -----

  ghost predicate AdjacentPair(s: seq<int>, k: nat)
    requires 2 * k + 1 < |s|
  {
    s[2*k+1] == s[2*k] + 1
  }

  /**
   A leaf of 200 elements or more is stored with a notice only, and decompression then reads
   it as ranges.  For an even number of elements that ends with the set exactly if the elements
   come in adjacent pairs and the largest int is not among them.
   */
  lemma LongLeafReadAsRanges(leaf: seq<int>, n: nat)
    requires Strict(leaf) && |leaf| == 2 * n
    ensures Ranged(leaf, n) && forall v :: v in leaf ==> v in Expand(leaf, n)
    ensures SameElements(Expand(leaf, n), leaf) <==> forall k :: 0 <= k < n ==> AdjacentPair(leaf, k)
    ensures Int4s(leaf) && n >= MAXNUMRANGE ==>
      (Opens(leaf) && SameElements(Expand(leaf, n), leaf)
       <==> INT_MAX !in leaf && forall k :: 0 <= k < n ==> AdjacentPair(leaf, k))
  {
    assert forall k :: 0 <= k < n ==> RangeOk(leaf, k);
    LeafWithin(leaf, n);
    if n > 0 && Int4s(leaf) { LargestLast(leaf); }
    if forall k :: 0 <= k < n ==> AdjacentPair(leaf, k) {
      forall v | v in Expand(leaf, n) ensures v in leaf { InPair(leaf, n, v); }
    }
    if SameElements(Expand(leaf, n), leaf) {
      forall k | 0 <= k < n ensures AdjacentPair(leaf, k) { PairAdjacent(leaf, n, k); }
    }
  }

  lemma LeafWithin(leaf: seq<int>, n: nat)
    requires Strict(leaf) && |leaf| == 2 * n
    ensures forall v :: v in leaf ==> v in Expand(leaf, n)
  {
    forall i: nat | i < |leaf| ensures leaf[i] in Expand(leaf, n) {
      var k := i / 2;
      assert i == 2 * k || i == 2 * k + 1;
      assert InRange(leaf, k, leaf[i]);
      ExpandMembers(leaf, n, leaf[i]);
    }
  }

  lemma InPair(leaf: seq<int>, n: nat, v: int)
    requires |leaf| == 2 * n && v in Expand(leaf, n) && forall k :: 0 <= k < n ==> AdjacentPair(leaf, k)
    ensures v in leaf
  {
    ExpandMembers(leaf, n, v);
    var k :| 0 <= k < n && InRange(leaf, k, v);
    assert AdjacentPair(leaf, k);
    assert v == leaf[2*k] || v == leaf[2*k+1];
  }

  lemma PairAdjacent(leaf: seq<int>, n: nat, k: nat)
    requires Strict(leaf) && |leaf| == 2 * n && k < n && SameElements(Expand(leaf, n), leaf)
    ensures AdjacentPair(leaf, k)
  {
    var v := leaf[2*k] + 1;
    ExpandMembers(leaf, n, v);
    assert InRange(leaf, k, v);
    var i :| 0 <= i < |leaf| && leaf[i] == v;
    assert 2 * k < i <= 2 * k + 1;
  }
}
