/**
 hstore_cmp: buffers first, then counts, then the entries.  It is a total order whose
 equality is equality of the maps.
 */
module HStoreOrder {
  import opened Memcmp
  import opened HStorePairs
  import opened HStoreLayout
  import opened HStoreOps

  // ----- the order, part by part -----

  /** The first entries that differ in end position or null mark decide. */
  function EntriesCmp(a: seq<int>, b: seq<int>): int {
    if a == [] || b == [] then 0
    else if EndPos(a[0]) != EndPos(b[0]) then Sign(EndPos(a[0]), EndPos(b[0]))
    else if IsNull(a[0]) != IsNull(b[0]) then (if IsNull(a[0]) then 1 else -1)
    else EntriesCmp(a[1..], b[1..])
  }

  ghost function Cmp(h: HStore, g: HStore): int {
    if BufferCmp(h.str, g.str) != 0 then BufferCmp(h.str, g.str)
    else if h.count != g.count then Sign(h.count, g.count)
    else EntriesCmp(h.entries, g.entries)
  }

  /** What the order sees of an entry. */
  predicate SameEntry(v: int, w: int) { EndPos(v) == EndPos(w) && IsNull(v) == IsNull(w) }

  /** Behind equal entries the first that differ decide: the later end, then the null mark. */
  lemma {:induction false} EntriesMeaning(a: seq<int>, b: seq<int>, d: nat)
    requires d < |a| == |b| && forall i :: 0 <= i < d ==> SameEntry(a[i], b[i])
    ensures EndPos(a[d]) > EndPos(b[d]) ==> EntriesCmp(a, b) == 1
    ensures EndPos(a[d]) < EndPos(b[d]) ==> EntriesCmp(a, b) == -1
    ensures EndPos(a[d]) == EndPos(b[d]) && IsNull(a[d]) && !IsNull(b[d]) ==> EntriesCmp(a, b) == 1
    ensures EndPos(a[d]) == EndPos(b[d]) && !IsNull(a[d]) && IsNull(b[d]) ==> EntriesCmp(a, b) == -1
  {
    if d > 0 {
      assert SameEntry(a[0], b[0]);
      assert forall i :: 0 <= i < d - 1 ==> a[1..][i] == a[i+1] && b[1..][i] == b[i+1];
      EntriesMeaning(a[1..], b[1..], d - 1);
    }
  }

  lemma {:induction false} EntriesOrder(a: seq<int>, b: seq<int>)
    requires |a| == |b|
    ensures EntriesCmp(b, a) == -EntriesCmp(a, b)
    ensures EntriesCmp(a, b) == 0 <==> forall i :: 0 <= i < |a| ==> SameEntry(a[i], b[i])
  {
    if a != [] {
      var c, d := a[1..], b[1..];
      EntriesOrder(c, d);
      assert forall i :: 0 <= i < |c| ==> c[i] == a[i+1] && d[i] == b[i+1];
      assert (forall i :: 0 <= i < |a| ==> SameEntry(a[i], b[i])) <==>
        SameEntry(a[0], b[0]) && forall i :: 0 <= i < |c| ==> SameEntry(c[i], d[i])
      by {
        if SameEntry(a[0], b[0]) && forall i :: 0 <= i < |c| ==> SameEntry(c[i], d[i]) {
          forall i | 0 <= i < |a| ensures SameEntry(a[i], b[i]) {
            if i > 0 { assert SameEntry(c[i-1], d[i-1]); }
          }
        }
        if forall i :: 0 <= i < |a| ==> SameEntry(a[i], b[i]) {
          forall i | 0 <= i < |c| ensures SameEntry(c[i], d[i]) {
            assert SameEntry(a[i+1], b[i+1]);
          }
        }
      }
    }
  }

  lemma {:induction false} EntriesTransitive(a: seq<int>, b: seq<int>, c: seq<int>)
    requires |a| == |b| == |c| && EntriesCmp(a, b) <= 0 && EntriesCmp(b, c) <= 0
    ensures EntriesCmp(a, c) <= 0 && (EntriesCmp(a, c) == 0 ==> EntriesCmp(a, b) == 0 && EntriesCmp(b, c) == 0)
  {
    if a != [] && SameEntry(a[0], b[0]) && SameEntry(b[0], c[0]) {
      EntriesTransitive(a[1..], b[1..], c[1..]);
    }
  }

  // ----- the order of packed values -----

  /** Equal parts make equal values: the words are determined by what the order looks at. */
  lemma SameWords(p: seq<Pair>, q: seq<Pair>, k: nat)
    requires Fits(p) && Fits(q) && |p| == |q| && k < |p|
    requires SameEntry(Words(p)[2*k], Words(q)[2*k]) && SameEntry(Words(p)[2*k+1], Words(q)[2*k+1])
    ensures Words(p)[2*k] == Words(q)[2*k] && Words(p)[2*k+1] == Words(q)[2*k+1]
  {
    PackEntries(p, k);
    PackEntries(q, k);
  }

  lemma EqualParts(p: seq<Pair>, q: seq<Pair>)
    requires Fits(p) && Fits(q) && |p| == |q| && Data(p) == Data(q)
    requires forall i :: 0 <= i < |Words(p)| ==> SameEntry(Words(p)[i], Words(q)[i])
    ensures p == q
  {
    ghost var v, w := Words(p), Words(q);
    forall n | 0 <= n < |v| ensures v[n] == w[n] {
      var k := n / 2;
      assert SameEntry(v[2*k], w[2*k]) && SameEntry(v[2*k+1], w[2*k+1]);
      SameWords(p, q, k);
      assert n == 2 * k || n == 2 * k + 1;
    }
    assert v == w;
    PackInjective(p, q);
  }

  /** Zero means the same map. */
  lemma CmpZero(h: HStore, g: HStore, p: seq<Pair>, q: seq<Pair>)
    requires Packed(h, p) && Packed(g, q)
    ensures Cmp(h, g) == 0 <==> MapOf(p) == MapOf(q)
  {
    BufferOrder(h.str, g.str);
    if h.count == g.count { EntriesOrder(h.entries, g.entries); }
    if Cmp(h, g) == 0 { EqualParts(p, q); }
    if MapOf(p) == MapOf(q) { SortedUnique(p, q); }
  }

  // ----- what the order means for the lists -----

  /** The buffers decide first: at the first byte that differs, or by their lengths. */
  lemma BuffersDecide(h: HStore, g: HStore, p: seq<Pair>, q: seq<Pair>, d: nat)
    requires Packed(h, p) && Packed(g, q) && d <= |Data(p)| && d <= |Data(q)| && Data(p)[..d] == Data(q)[..d]
    ensures d < |Data(p)| && d < |Data(q)| && Data(p)[d] > Data(q)[d] ==> Cmp(h, g) == 1
    ensures d < |Data(p)| && d < |Data(q)| && Data(p)[d] < Data(q)[d] ==> Cmp(h, g) == -1
    ensures d == |Data(q)| < |Data(p)| ==> Cmp(h, g) == 1
    ensures d == |Data(p)| < |Data(q)| ==> Cmp(h, g) == -1
  {
    BufferMeaning(Data(p), Data(q), d);
  }

  lemma CmpOfEqualBuffers(h: HStore, g: HStore)
    requires h.str == g.str
    ensures Cmp(h, g) == if h.count != g.count then Sign(h.count, g.count) else EntriesCmp(h.entries, g.entries)
  {
    BufferOrder(h.str, g.str);
  }

  /** Of equal buffers the one with more pairs is the greater. */
  lemma CountsDecide(h: HStore, g: HStore, p: seq<Pair>, q: seq<Pair>)
    requires Packed(h, p) && Packed(g, q) && Data(p) == Data(q)
    ensures |p| > |q| ==> Cmp(h, g) == 1
    ensures |p| < |q| ==> Cmp(h, g) == -1
  {
    CmpOfEqualBuffers(h, g);
  }

  /** The entries of equal items are the same. */
  lemma EqualItems(p: seq<Pair>, q: seq<Pair>, k: nat)
    requires Fits(p) && Fits(q) && k <= |p| && k <= |q| && p[..k] == q[..k]
    ensures forall i :: 0 <= i < 2 * k ==> SameEntry(Words(p)[i], Words(q)[i])
  {
    forall i | 0 <= i < 2 * k ensures SameEntry(Words(p)[i], Words(q)[i]) {
      var j := i / 2;
      assert p[..k][j] == p[j] && q[..k][j] == q[j] && p[..k][..j] == p[..j] && q[..k][..j] == q[..j];
      PackEntries(p, j);
      PackEntries(q, j);
      assert i == 2 * j || i == 2 * j + 1;
    }
  }

  /** The entries of item k: where key and value end, and whether the value is null. */
  lemma ItemEnds(p: seq<Pair>, k: nat)
    requires Fits(p) && k < |p|
    ensures EndPos(Words(p)[2*k]) == |Data(p[..k])| + |p[k].key| && !IsNull(Words(p)[2*k])
    ensures EndPos(Words(p)[2*k+1]) == |Data(p[..k])| + |p[k].key| + |ValText(p[k])|
    ensures IsNull(Words(p)[2*k+1]) <==> p[k].val.None?
  {
    var n := |Data(p[..k])| + |p[k].key|;
    PackEntries(p, k);
    EntryFields(n, false, k == 0);
    EntryFields(n + |ValText(p[k])|, p[k].val.None?, false);
  }

  /** The item lies at n in the buffer. */
  ghost predicate ItemAt(d: string, n: nat, x: Pair) {
    && n + |x.key| + |ValText(x)| <= |d|
    && d[n..n+|x.key|] == x.key && d[n+|x.key|..n+|x.key|+|ValText(x)|] == ValText(x)
  }

  ghost predicate SameLengths(x: Pair, y: Pair) { |x.key| == |y.key| && |ValText(x)| == |ValText(y)| }

  /** One key, with null here and the empty string there. */
  ghost predicate NullAgainstEmpty(x: Pair, y: Pair) { x.key == y.key && x.val == None && y.val == Some("") }

  /** Equal lengths at one place leave the null mark as the only difference. */
  lemma OnlyMarkDiffers(d: string, n: nat, x: Pair, y: Pair)
    requires ItemAt(d, n, x) && ItemAt(d, n, y) && SameLengths(x, y) && x != y
    ensures NullAgainstEmpty(x, y) || NullAgainstEmpty(y, x)
  {
  }

  lemma ItemPlaced(p: seq<Pair>, k: nat)
    requires k < |p|
    ensures ItemAt(Data(p), |Data(p[..k])|, p[k])
  {
    PackBytes(p, k);
  }

  lemma NullAndEmpty(p: seq<Pair>, q: seq<Pair>, k: nat)
    requires k < |p| && k < |q| && Data(p) == Data(q) && p[..k] == q[..k] && p[k] != q[k]
    ensures SameLengths(p[k], q[k]) ==> NullAgainstEmpty(p[k], q[k]) || NullAgainstEmpty(q[k], p[k])
  {
    ItemPlaced(p, k);
    ItemPlaced(q, k);
    if SameLengths(p[k], q[k]) { OnlyMarkDiffers(Data(p), |Data(p[..k])|, p[k], q[k]); }
  }

  /** How the first items that differ compare. */
  ghost function ItemCmp(x: Pair, y: Pair): int {
    if |x.key| != |y.key| then Sign(|x.key|, |y.key|)
    else if |ValText(x)| != |ValText(y)| then Sign(|ValText(x)|, |ValText(y)|)
    else if x.val.None? then 1 else -1
  }

  lemma EntriesOfItems(p: seq<Pair>, q: seq<Pair>, k: nat)
    requires Fits(p) && Fits(q) && |p| == |q| && k < |p| && p[..k] == q[..k]
    requires SameLengths(p[k], q[k]) ==> p[k].val.None? != q[k].val.None?
    ensures EntriesCmp(Words(p), Words(q)) == ItemCmp(p[k], q[k])
  {
    EqualItems(p, q, k);
    ItemEnds(p, k);
    ItemEnds(q, k);
    if |p[k].key| != |q[k].key| {
      EntriesMeaning(Words(p), Words(q), 2 * k);
    } else {
      assert SameEntry(Words(p)[2*k], Words(q)[2*k]);
      EntriesMeaning(Words(p), Words(q), 2 * k + 1);
    }
  }

  /**
   Equal buffers and counts: the first item that differs decides.  The longer key is the
   greater, then the longer value; if the lengths agree too, a null stands against an empty
   string, and the null is the greater.
   */
  lemma FirstItemDecides(h: HStore, g: HStore, p: seq<Pair>, q: seq<Pair>, k: nat)
    requires Packed(h, p) && Packed(g, q) && Data(p) == Data(q) && |p| == |q|
    requires k < |p| && p[..k] == q[..k] && p[k] != q[k]
    ensures |p[k].key| > |q[k].key| ==> Cmp(h, g) == 1
    ensures |p[k].key| < |q[k].key| ==> Cmp(h, g) == -1
    ensures |p[k].key| == |q[k].key| && |ValText(p[k])| > |ValText(q[k])| ==> Cmp(h, g) == 1
    ensures |p[k].key| == |q[k].key| && |ValText(p[k])| < |ValText(q[k])| ==> Cmp(h, g) == -1
    ensures SameLengths(p[k], q[k]) ==>
      (NullAgainstEmpty(p[k], q[k]) && Cmp(h, g) == 1) || (NullAgainstEmpty(q[k], p[k]) && Cmp(h, g) == -1)
  {
    NullAndEmpty(p, q, k);
    CmpOfEqualBuffers(h, g);
    EntriesOfItems(p, q, k);
  }

  ghost predicate Shape(h: HStore) { |h.entries| == 2 * h.count }

  /** hstore_cmp is antisymmetric and transitive; with CmpZero it is a total order of the maps. */
  lemma CmpTotalOrder(a: HStore, b: HStore, c: HStore)
    requires Shape(a) && Shape(b) && Shape(c)
    ensures Cmp(b, a) == -Cmp(a, b)
    ensures Cmp(a, b) <= 0 && Cmp(b, c) <= 0 ==> Cmp(a, c) <= 0
    ensures Cmp(a, b) <= 0 && Cmp(b, c) <= 0 && Cmp(a, c) == 0 ==> Cmp(a, b) == 0 && Cmp(b, c) == 0
  {
    BufferOrder(a.str, b.str);
    BufferOrder(b.str, c.str);
    if a.count == b.count { EntriesOrder(a.entries, b.entries); }
    if Cmp(a, b) <= 0 && Cmp(b, c) <= 0 {
      BufferTransitive(a.str, b.str, c.str);
      if a.count == b.count == c.count
        && EntriesCmp(a.entries, b.entries) <= 0 && EntriesCmp(b.entries, c.entries) <= 0 {
        EntriesTransitive(a.entries, b.entries, c.entries);
      }
    }
  }

  // ----- the code -----

  /** The loop over the entries and the decision after it. */
  method CompareEntries(ent1: seq<int>, ent2: seq<int>) returns (res: int)
    requires |ent1| == |ent2|
    ensures res == EntriesCmp(ent1, ent2)
  {
    var i := 0;
    assert ent1[0..] == ent1 && ent2[0..] == ent2;
    while i < |ent1| && SameEntry(ent1[i], ent2[i])
      invariant 0 <= i <= |ent1| && EntriesCmp(ent1[i..], ent2[i..]) == EntriesCmp(ent1, ent2)
    {
      assert ent1[i..][1..] == ent1[i+1..] && ent2[i..][1..] == ent2[i+1..];
      i := i + 1;
    }
    res := 0;
    if i < |ent1| {
      if EndPos(ent1[i]) < EndPos(ent2[i]) {
        res := -1;
      } else if EndPos(ent1[i]) > EndPos(ent2[i]) {
        res := 1;
      } else if IsNull(ent1[i]) {
        res := 1;
      } else if IsNull(ent2[i]) {
        res := -1;
      }
    }
  }

  /** The length of the buffer is the end position of the last entry. */
  method BufferLength(h: HStore, ghost p: seq<Pair>) returns (len: nat)
    requires Packed(h, p) && h.count > 0
    ensures len == |h.str|
  {
    PrefixEnd(p, h.count);
    assert p[..h.count] == p;
    len := EndPos(h.entries[2*h.count-1]);
  }

  /** An empty value is the smallest. */
  lemma EmptyFirst(h: HStore, g: HStore, p: seq<Pair>, q: seq<Pair>)
    requires Packed(h, p) && Packed(g, q) && (h.count == 0 || g.count == 0)
    ensures Cmp(h, g) == if h.count > 0 then 1 else if g.count > 0 then -1 else 0
  {
  }

  /** hstore_cmp. */
  method HStoreCmp(hs1: HStore, hs2: HStore, ghost p: seq<Pair>, ghost q: seq<Pair>) returns (res: int)
    requires Packed(hs1, p) && Packed(hs2, q)
    ensures res == Cmp(hs1, hs2) && (res == 0 <==> MapOf(p) == MapOf(q))
  {
    CmpZero(hs1, hs2, p, q);
    if hs1.count == 0 || hs2.count == 0 {
      EmptyFirst(hs1, hs2, p, q);
      return if hs1.count > 0 then 1 else if hs2.count > 0 then -1 else 0;
    }
    var len1 := BufferLength(hs1, p);
    var len2 := BufferLength(hs2, q);
    var len := if len1 < len2 then len1 else len2;
    MemCmpShorter(hs1.str, hs2.str, len);
    res := MemCmp(hs1.str[..len], hs2.str[..len]);
    if res == 0 {
      if len1 > len2 {
        res := 1;
      } else if len1 < len2 {
        res := -1;
      } else if hs1.count > hs2.count {
        res := 1;
      } else if hs2.count > hs1.count {
        res := -1;
      } else {
        res := CompareEntries(hs1.entries, hs2.entries);
      }
    } else {
      res := if res > 0 then 1 else -1;
    }
  }
}
