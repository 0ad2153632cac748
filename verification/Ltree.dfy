/**
 Label paths: ltree_compare and inner_isparent.  A path is kept in an object because the
 index code shortens paths in place by lowering their number of levels.
 */
module Ltree {
  import opened Memcmp

  type Path = seq<string>

  // ----- the order of paths -----

  /** Level by level, and a path before its extensions. */
  ghost function PathCmp(a: Path, b: Path): int {
    if a == [] && b == [] then 0
    else if a == [] then -1
    else if b == [] then 1
    else if BufferCmp(a[0], b[0]) != 0 then BufferCmp(a[0], b[0])
    else PathCmp(a[1..], b[1..])
  }

  /** Behind common levels the first labels that differ decide, and a path comes before its extensions. */
  lemma {:induction false} PathCmpMeaning(a: Path, b: Path, d: nat)
    requires d <= |a| && d <= |b| && a[..d] == b[..d]
    ensures d < |a| && d < |b| && a[d] != b[d] ==> PathCmp(a, b) == BufferCmp(a[d], b[d])
    ensures d == |a| < |b| ==> PathCmp(a, b) == -1
    ensures d == |b| < |a| ==> PathCmp(a, b) == 1
  {
    if d > 0 {
      assert a[0] == a[..d][0] == b[..d][0] == b[0];
      assert a[1..][..d-1] == a[..d][1..] && b[1..][..d-1] == b[..d][1..];
      BufferOrder(a[0], b[0]);
      PathCmpMeaning(a[1..], b[1..], d - 1);
    } else if a != [] && b != [] {
      BufferOrder(a[0], b[0]);
    }
  }

  lemma {:induction false} PathOrder(a: Path, b: Path)
    ensures PathCmp(b, a) == -PathCmp(a, b) && (PathCmp(a, b) == 0 <==> a == b)
  {
    if a != [] && b != [] {
      BufferOrder(a[0], b[0]);
      PathOrder(a[1..], b[1..]);
      assert a == [a[0]] + a[1..] && b == [b[0]] + b[1..];
    }
  }

  lemma {:induction false} PathTransitive(a: Path, b: Path, c: Path)
    requires PathCmp(a, b) <= 0 && PathCmp(b, c) <= 0
    ensures PathCmp(a, c) <= 0 && (PathCmp(a, c) == 0 ==> PathCmp(a, b) == 0 && PathCmp(b, c) == 0)
  {
    if a != [] && b != [] && c != [] {
      BufferTransitive(a[0], b[0], c[0]);
      if BufferCmp(a[0], b[0]) == 0 && BufferCmp(b[0], c[0]) == 0 {
        BufferOrder(a[0], b[0]);
        PathTransitive(a[1..], b[1..], c[1..]);
      }
    }
  }

  /** The first n levels, or all if there are fewer. */
  ghost function Cut(a: Path, n: nat): Path { if |a| > n then a[..n] else a }

  /** Cutting both paths keeps the order. */
  lemma {:induction false} CutMonotone(a: Path, b: Path, n: nat)
    ensures PathCmp(a, b) <= 0 ==> PathCmp(Cut(a, n), Cut(b, n)) <= 0
    decreases n
  {
    if n > 0 && a != [] && b != [] {
      CutMonotone(a[1..], b[1..], n - 1);
      assert Cut(a, n)[1..] == Cut(a[1..], n - 1) && Cut(b, n)[1..] == Cut(b[1..], n - 1);
    } else if n == 0 {
      assert Cut(a, 0) == [] && Cut(b, 0) == [];
    }
  }

  lemma CutCons(a: Path, q: Path)
    requires a != [] && q != []
    ensures Cut(a, |q|) == [a[0]] + Cut(a[1..], |q| - 1)
    ensures a[0] == q[0] ==> (Cut(a[1..], |q| - 1) == q[1..] <==> Cut(a, |q|) == q)
  {
    assert q == [q[0]] + q[1..];
    assert Cut(a, |q|)[1..] == Cut(a[1..], |q| - 1);
  }

  /** A path whose start differs from a path as long as the cut compares as the start does. */
  lemma {:induction false} CutDecides(a: Path, q: Path)
    requires Cut(a, |q|) != q
    ensures PathCmp(Cut(a, |q|), q) == PathCmp(a, q)
  {
    if a != [] && q != [] {
      BufferOrder(a[0], q[0]);
      CutCons(a, q);
      assert Cut(a, |q|)[1..] == Cut(a[1..], |q| - 1);
      if a[0] == q[0] { CutDecides(a[1..], q[1..]); }
    }
  }

  // ----- what ltree_compare returns -----

  /** The number ltree_compare computes: a sign with a weight for the level of the difference. */
  ghost function Weighted(mc: Comparer, a: Path, b: Path): int {
    if a == [] || b == [] then (|a| - |b|) * 10 * (|a| + 1)
    else if mc(a[0], b[0]) != 0 then mc(a[0], b[0]) * 10 * (|a| + 1)
    else if |a[0]| != |b[0]| then (|a[0]| - |b[0]|) * 10 * (|a| + 1)
    else Weighted(mc, a[1..], b[1..])
  }

  /**
   Behind d equal levels the number is the difference of the labels' first bytes that differ,
   of their lengths, or of the numbers of levels, ten times the levels left and one.
   */
  lemma {:induction false} WeightedMeans(mc: Comparer, a: Path, b: Path, d: nat)
    requires IsMemcmp(mc) && d <= |a| && d <= |b| && a[..d] == b[..d]
    ensures d < |a| && d < |b| && mc(a[d], b[d]) != 0 ==> Weighted(mc, a, b) == mc(a[d], b[d]) * 10 * (|a| - d + 1)
    ensures d < |a| && d < |b| && mc(a[d], b[d]) == 0 && |a[d]| != |b[d]| ==>
      Weighted(mc, a, b) == (|a[d]| - |b[d]|) * 10 * (|a| - d + 1)
    ensures d == |a| || d == |b| ==> Weighted(mc, a, b) == (|a| - |b|) * 10 * (|a| - d + 1)
    decreases d
  {
    if d > 0 {
      assert a[0] == a[..d][0] == b[..d][0] == b[0];
      assert a[1..][..d-1] == a[..d][1..] && b[1..][..d-1] == b[..d][1..];
      MemCmpOrder(a[0], a[0]);
      assert Sign(mc(a[0], a[0]), 0) == MemCmp(a[0], a[0]);
      WeightedMeans(mc, a[1..], b[1..], d - 1);
    }
  }

  lemma WeightSign(x: int, n: nat)
    ensures Sign(x * 10 * (n + 1), 0) == Sign(x, 0)
  {
  }

  /** Its sign is the order of the paths, however large the numbers memcmp returns. */
  lemma {:induction false} WeightedSign(mc: Comparer, a: Path, b: Path)
    requires IsMemcmp(mc)
    ensures Sign(Weighted(mc, a, b), 0) == PathCmp(a, b)
  {
    if a == [] || b == [] {
      WeightSign(|a| - |b|, |a|);
    } else {
      assert Sign(mc(a[0], b[0]), 0) == MemCmp(a[0], b[0]);
      WeightSign(mc(a[0], b[0]), |a|);
      WeightSign(|a[0]| - |b[0]|, |a|);
      if BufferCmp(a[0], b[0]) == 0 { WeightedSign(mc, a[1..], b[1..]); }
    }
  }

  // ----- the code -----

  class Ltree {
    var numlevel: nat
    const names: seq<string>

    ghost predicate Valid()
      reads this
    {
      numlevel <= |names|
    }

    /** The levels that count. */
    ghost function Levels(): Path
      reads this
      requires Valid()
    {
      names[..numlevel]
    }

    constructor (p: Path)
      ensures Valid() && Levels() == p
    {
      numlevel := |p|;
      names := p;
    }
  }

  /** ltree_compare. */
  method LtreeCompare(mc: Comparer, a: Ltree, b: Ltree) returns (res: int)
    requires a.Valid() && b.Valid() && IsMemcmp(mc)
    ensures res == Weighted(mc, a.Levels(), b.Levels())
    ensures Sign(res, 0) == PathCmp(a.Levels(), b.Levels())
  {
    ghost var p, q := a.Levels(), b.Levels();
    WeightedSign(mc, p, q);
    var an, bn := a.numlevel, b.numlevel;
    var k := 0;
    assert p[0..] == p && q[0..] == q;
    while an > 0 && bn > 0
      invariant k + an == |p| && k + bn == |q| && 0 <= k && an >= 0 && bn >= 0
      invariant Weighted(mc, p[k..], q[k..]) == Weighted(mc, p, q)
      decreases an
    {
      var al, bl := a.names[k], b.names[k];
      assert al == p[k] && bl == q[k];
      res := mc(al, bl);
      if res == 0 {
        if |al| != |bl| { return (|al| - |bl|) * 10 * (an + 1); }
      } else {
        return res * 10 * (an + 1);
      }
      an, bn, k := an - 1, bn - 1, k + 1;
    }
    return (a.numlevel - b.numlevel) * 10 * (an + 1);
  }

  /** inner_isparent: p is an ancestor of c, or c itself. */
  method InnerIsParent(c: Ltree, p: Ltree) returns (res: bool)
    requires c.Valid() && p.Valid()
    ensures res <==> p.Levels() <= c.Levels()
  {
    var pn, k := p.numlevel, 0;
    if pn > c.numlevel { return false; }
    while pn > 0
      invariant 0 <= k && pn >= 0 && k + pn == p.numlevel && forall i :: 0 <= i < k ==> p.names[i] == c.names[i]
    {
      var cl, pl := c.names[k], p.names[k];
      if |cl| != |pl| { return false; }
      MemCmpOrder(cl, pl);
      if MemCmp(cl, pl) != 0 { return false; }
      pn, k := pn - 1, k + 1;
    }
    res := true;
  }

  // ----- the result is an int -----

  const MAX_LEVELS: int := 65535
  /** A label has at most 255 characters, of at most four bytes. */
  const MAX_LABEL: int := 1020
  const INT_LIMIT: int := 0x8000_0000

  ghost predicate Storable(a: Path) {
    |a| <= MAX_LEVELS && forall i :: 0 <= i < |a| ==> |a[i]| <= MAX_LABEL
  }

  ghost predicate FitsInt(x: int) { -INT_LIMIT <= x < INT_LIMIT }

  /** The longest extension of a path that still compares within an int. */
  const MAX_EXTENSION: nat := 14653

  lemma SmallWeight(x: int, n: nat)
    requires -MAX_LABEL <= x <= MAX_LABEL && n <= MAX_LEVELS
    ensures FitsInt(x * 10 * (n + 1))
  {
    if x >= 0 {
      MulBound(x * 10, n + 1, 10 * MAX_LABEL, MAX_LEVELS + 1);
    } else {
      MulBound(-x * 10, n + 1, 10 * MAX_LABEL, MAX_LEVELS + 1);
      assert x * 10 == -(-x * 10);
    }
  }

  lemma MulBound(u: int, w: int, m: int, n: int)
    requires 0 <= u <= m && 0 <= w <= n
    ensures 0 <= u * w <= m * n
  {
    assert u * w <= m * w && m * w <= m * n by {
      assert (m - u) * w >= 0 && m * (n - w) >= 0;
    }
  }

  lemma ExtensionWeight(d: nat)
    ensures d * 10 * (d + 1) < INT_LIMIT <==> d <= MAX_EXTENSION
  {
    if d <= MAX_EXTENSION {
      MulBound(d * 10, d + 1, MAX_EXTENSION * 10, MAX_EXTENSION + 1);
    } else {
      MulBound((MAX_EXTENSION + 1) * 10, MAX_EXTENSION + 2, d * 10, d + 1);
    }
  }

  /** The result fits a 32-bit int unless the first path extends the second by more than 14653 levels. */
  lemma {:induction false} CompareFitsInt(mc: Comparer, a: Path, b: Path)
    requires Storable(a) && Storable(b) && IsMemcmp(mc) && ByteSized(mc)
    ensures FitsInt(Weighted(mc, a, b)) <==> !(b <= a && |a| - |b| > MAX_EXTENSION)
  {
    if b == [] {
      ExtensionWeight(|a|);
    } else if a == [] {
      assert Weighted(mc, a, b) == (|a| - |b|) * 10 * 1;
    } else if a[0] != b[0] {
      LevelFitsInt(mc, a, b);
    } else {
      SameLevel(mc, a[0]);
      CompareFitsInt(mc, a[1..], b[1..]);
      PrefixFirst(a, b);
    }
  }

  lemma PrefixFirst(a: Path, b: Path)
    requires a != [] && b != [] && a[0] == b[0]
    ensures b <= a <==> b[1..] <= a[1..]
  {
    assert a == [a[0]] + a[1..] && b == [b[0]] + b[1..];
  }

  lemma SameLevel(mc: Comparer, x: string)
    requires IsMemcmp(mc)
    ensures mc(x, x) == 0
  {
    MemCmpOrder(x, x);
    assert Sign(mc(x, x), 0) == MemCmp(x, x);
  }

  /** A difference at the first level stays within an int. */
  lemma LevelFitsInt(mc: Comparer, a: Path, b: Path)
    requires Storable(a) && Storable(b) && IsMemcmp(mc) && ByteSized(mc)
    requires a != [] && b != [] && a[0] != b[0]
    ensures FitsInt(Weighted(mc, a, b)) && !(b <= a)
  {
    SmallWeight(mc(a[0], b[0]), |a|);
    SmallWeight(|a[0]| - |b[0]|, |a|);
    assert Sign(mc(a[0], b[0]), 0) == MemCmp(a[0], b[0]);
    BufferOrder(a[0], b[0]);
  }

  /** The value kept by a 32-bit register. */
  function Wrap32(x: int): int {
    var r := x % 0x1_0000_0000;
    if r >= INT_LIMIT then r - 0x1_0000_0000 else r
  }

  lemma {:induction false} ExtensionResult(mc: Comparer, a: Path, b: Path)
    requires b <= a && IsMemcmp(mc)
    ensures Weighted(mc, a, b) == (|a| - |b|) * 10 * (|a| - |b| + 1)
  {
    if b != [] {
      SameLevel(mc, a[0]);
      PrefixFirst(a, b);
      ExtensionResult(mc, a[1..], b[1..]);
    }
  }

  /** One level more, and the longer path compares as the smaller one. */
  lemma LongExtensionWraps(mc: Comparer, a: Path, b: Path)
    requires b <= a && |a| - |b| == MAX_EXTENSION + 1 && IsMemcmp(mc)
    ensures PathCmp(a, b) == 1 && Wrap32(Weighted(mc, a, b)) < 0
  {
    ExtensionResult(mc, a, b);
    WeightedSign(mc, a, b);
    assert Weighted(mc, a, b) == 2_147_543_700;
  }
}
