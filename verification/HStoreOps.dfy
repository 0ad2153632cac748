/**
 The merging operators of hstore_op.c: concatenation and the two deletions that walk two
 sorted lists at once.  Operands are packed values, the result is built in fresh memory.
 */
module HStoreOps {
  import opened Memcmp
  import opened HStorePairs
  import opened HStoreLayout
  import opened HStoreBuild

  /** The largest request palloc accepts. */
  const MAX_ALLOC: nat := 0x3fff_ffff

  /** h is the packed form of the sorted list p. */
  ghost predicate Packed(h: HStore, p: seq<Pair>) {
    Sorted(p) && Fits(p) && h == Pack(p)
  }

  // ----- comparing and copying items in place -----

  /** The macros deliver x as item i of h. */
  ghost predicate ItemReads(h: HStore, i: nat, x: Pair) {
    && 2 * i + 1 < |h.entries| && 0 <= KeyOff(h, i) && KeyLen(h, i) == |x.key|
    && ValOff(h, i) == KeyOff(h, i) + |x.key| && ValLen(h, i) == |ValText(x)|
    && ValOff(h, i) + |ValText(x)| <= |h.str|
    && h.str[KeyOff(h, i)..ValOff(h, i)] == x.key
    && h.str[ValOff(h, i)..ValOff(h, i)+|ValText(x)|] == ValText(x)
    && (ValIsNull(h, i) <==> x.val.None?)
  }

  /** Where item i starts in the buffer; behind the last item the buffer ends. */
  ghost function Start(h: HStore, i: nat): int {
    if i < h.count && 2 * i + 1 < |h.entries| then KeyOff(h, i) else |h.str|
  }

  /** The first n items read from h are those of p, each starting where the one before ends. */
  ghost predicate ReadsUpTo(h: HStore, p: seq<Pair>, n: nat)
    requires n <= |p|
    decreases n, 1
  {
    n == 0 || ReadsThrough(h, p, n - 1)
  }

  ghost predicate ReadsThrough(h: HStore, p: seq<Pair>, i: nat)
    requires i < |p|
    decreases i + 1, 0
  {
    ReadsUpTo(h, p, i) && ItemInPlace(h, p, i)
  }

  /** Reading h item by item gives p, and the items fill the buffer. */
  ghost predicate Reads(h: HStore, p: seq<Pair>) {
    h.count == |p| && Start(h, 0) == 0 && ReadsUpTo(h, p, |p|)
  }

  lemma {:induction false} ReadAt(h: HStore, p: seq<Pair>, i: nat, n: nat := |p|)
    requires i < n <= |p| && ReadsUpTo(h, p, n)
    ensures ItemReads(h, i, p[i]) && Start(h, i + 1) == Start(h, i) + |p[i].key| + |ValText(p[i])| <= |h.str|
  {
    assert ReadsThrough(h, p, n - 1);
    if i < n - 1 { ReadAt(h, p, i, n - 1); }
  }

  lemma PackedStart(h: HStore, p: seq<Pair>, i: nat)
    requires Packed(h, p) && i <= |p|
    ensures Start(h, i) == |Data(p[..i])|
  {
    if i < |p| { PackItem(p, i); } else { assert p[..i] == p; }
  }

  lemma PackedItem(h: HStore, p: seq<Pair>, i: nat)
    requires Packed(h, p) && i < |p|
    ensures ItemReads(h, i, p[i])
  {
    PackItem(p, i);
    PackBytes(p, i);
    ghost var n, x := |Data(p[..i])|, p[i];
    assert KeyOff(h, i) == n && ValOff(h, i) == n + |x.key|;
    assert h.str[n..n+|x.key|] == x.key;
  }

  lemma PackedGap(h: HStore, p: seq<Pair>, i: nat)
    requires Packed(h, p) && i < |p|
    ensures Start(h, i + 1) == Start(h, i) + |p[i].key| + |ValText(p[i])| <= |h.str|
  {
    DataStep(p, i);
    PackedStart(h, p, i);
    PackedStart(h, p, i + 1);
  }

  ghost predicate ItemInPlace(h: HStore, p: seq<Pair>, i: nat)
    requires i < |p|
  {
    ItemReads(h, i, p[i]) && Start(h, i + 1) == Start(h, i) + |p[i].key| + |ValText(p[i])| <= |h.str|
  }

  lemma PackedThrough(h: HStore, p: seq<Pair>, i: nat)
    requires Packed(h, p) && i < |p|
    ensures ReadsUpTo(h, p, i) ==> ReadsUpTo(h, p, i + 1)
  {
    PackedItem(h, p, i);
    PackedGap(h, p, i);
    if ReadsUpTo(h, p, i) { assert ReadsThrough(h, p, i); }
  }

  lemma {:induction false} AllThrough(h: HStore, p: seq<Pair>, n: nat)
    requires n <= |p| && forall i :: 0 <= i < |p| && ReadsUpTo(h, p, i) ==> ReadsUpTo(h, p, i + 1)
    ensures ReadsUpTo(h, p, n)
  {
    if n > 0 { AllThrough(h, p, n - 1); }
  }

  /** Reading a packed value gives back the list. */
  lemma PackedReads(h: HStore, p: seq<Pair>)
    requires Packed(h, p)
    ensures Reads(h, p)
  {
    PackedStart(h, p, 0);
    forall i | 0 <= i < |p| && ReadsUpTo(h, p, i) ensures ReadsUpTo(h, p, i + 1) {
      PackedThrough(h, p, i);
    }
    AllThrough(h, p, |p|);
  }

  /** The space one more item of p takes. */
  lemma DataStep(p: seq<Pair>, i: nat)
    requires i < |p|
    ensures |Data(p[..i+1])| == |Data(p[..i])| + |p[i].key| + |ValText(p[i])| <= |Data(p)|
  {
    DataPrefix(p, i + 1);
    assert p[..i+1][..i] == p[..i];
  }

  /** Lengths first, then memcmp. */
  method CompareKey(h: HStore, i: nat, key: string, ghost p: seq<Pair>) returns (difference: int)
    requires Reads(h, p) && i < |p|
    ensures difference == KeyCmp(p[i].key, key)
  {
    ReadAt(h, p, i);
    var len := KeyLen(h, i);
    if len == |key| {
      difference := MemCmp(h.str[KeyOff(h, i)..KeyOff(h, i)+len], key);
    } else {
      difference := if len > |key| then 1 else -1;
    }
  }

  /** Comparison of item i of h with item j of g. */
  method CompareItems(h: HStore, i: nat, g: HStore, j: nat, ghost p: seq<Pair>, ghost q: seq<Pair>)
    returns (difference: int)
    requires Reads(h, p) && i < |p| && Reads(g, q) && j < |q|
    ensures difference == KeyCmp(p[i].key, q[j].key)
  {
    ReadAt(g, q, j);
    difference := CompareKey(h, i, g.str[KeyOff(g, j)..KeyOff(g, j)+KeyLen(g, j)], p);
  }

  /** HS_KEY, with its length. */
  method ReadKey(h: HStore, i: nat, ghost p: seq<Pair>) returns (key: string)
    requires Reads(h, p) && i < |p|
    ensures key == p[i].key
  {
    ReadAt(h, p, i);
    key := h.str[KeyOff(h, i)..KeyOff(h, i)+KeyLen(h, i)];
  }

  /** HS_VALISNULL and the bytes of the value. */
  method ReadValue(h: HStore, i: nat, ghost p: seq<Pair>) returns (isnull: bool, v: string)
    requires Reads(h, p) && i < |p|
    ensures isnull == p[i].val.None? && v == ValText(p[i])
  {
    ReadAt(h, p, i);
    isnull := ValIsNull(h, i);
    v := h.str[ValOff(h, i)..ValOff(h, i)+ValLen(h, i)];
  }

  /** The test of hstore_delete_hstore and hstore_contains: do two items hold different values? */
  method ValuesDiffer(h: HStore, i: nat, g: HStore, j: nat, ghost p: seq<Pair>, ghost q: seq<Pair>)
    returns (differ: bool)
    requires Reads(h, p) && i < |p| && Reads(g, q) && j < |q|
    ensures differ <==> p[i].val != q[j].val
  {
    var isnull, v := ReadValue(h, i, p);
    var isnull2, w := ReadValue(g, j, q);
    if |v| == |w| { MemCmpOrder(v, w); }
    differ := isnull != isnull2 || (!isnull && (|v| != |w| || MemCmp(v, w) != 0));
  }

  lemma JoinSlices(s: string, i: nat, j: nat, k: nat)
    requires i <= j <= k <= |s|
    ensures s[i..k] == s[i..j] + s[j..k]
  {
  }

  /** HS_COPYITEM applied to item i. */
  method CopyFrom(b: Builder, h: HStore, i: nat, ghost p: seq<Pair>)
    requires Reads(h, p) && i < |p|
    requires b.Valid() && |b.items| < b.room && b.pd - b.bufd + |p[i].key| + |ValText(p[i])| <= HENTRY_POSMASK
    requires b.pd + |p[i].key| + |ValText(p[i])| <= b.mem.Length
    modifies b, b.mem
    ensures b.Valid() && b.items == old(b.items) + [p[i]] && b.pd == old(b.pd) + |p[i].key| + |ValText(p[i])|
  {
    ReadAt(h, p, i);
    var off, klen, vlen, vnull := KeyOff(h, i), KeyLen(h, i), ValLen(h, i), ValIsNull(h, i);
    JoinSlices(h.str, off, off + klen, off + klen + vlen);
    b.CopyItem(h.str, off, klen, vlen, vnull, p[i]);
  }

  method CopyEntries(mem: array<Cell>, ws: seq<int>)
    requires 2 + |ws| <= mem.Length
    modifies mem
    ensures WordsAt(mem[..], 2, ws) && mem[1] == old(mem[1])
  {
    var k := 0;
    while k < |ws|
      invariant 0 <= k <= |ws| && mem[1] == old(mem[1])
      invariant forall i {:trigger ws[i]} :: 0 <= i < k ==> mem[2+i] == Word(ws[i])
    {
      mem[2+k] := Word(ws[k]);
      k := k + 1;
    }
  }

  method CopyBody(mem: array<Cell>, ws: seq<int>, s: string)
    requires 2 + |ws| + |s| <= mem.Length
    modifies mem
    ensures WordsAt(mem[..], 2, ws) && TextAt(mem[..], 2 + |ws|, s) && mem[1] == old(mem[1])
  {
    CopyEntries(mem, ws);
    CopyBytes(mem, 2 + |ws|, s, 0, |s|);
  }

  /** The size HS_FIXSIZE computes from the last entry. */
  method FixSize(h: HStore, ghost p: seq<Pair>) returns (size: nat)
    requires Packed(h, p)
    ensures size == h.size
  {
    var bl := 0;
    if h.count != 0 {
      PrefixEnd(p, h.count);
      assert p[..h.count] == p;
      bl := EndPos(h.entries[2*h.count-1]);
    }
    size := CalcDataSize(h.count, bl);
  }

  /** memcpy(out, hs, VARSIZE(hs)), HS_FIXSIZE and HS_SETCOUNT. */
  method CopyWhole(mem: array<Cell>, h: HStore, ghost p: seq<Pair>)
    requires Packed(h, p) && 2 + |h.entries| + |h.str| <= mem.Length
    modifies mem
    ensures Stored(mem[..], h)
  {
    var size := FixSize(h, p);
    mem[1] := Word(h.count + HS_FLAG_NEWVERSION);
    CopyBody(mem, h.entries, h.str);
    mem[0] := Word(size);
  }

  // ----- hstore_concat -----

  /** The sign the loop acts on: an operand that is used up counts as larger. */
  ghost function Side(p: seq<Pair>, i: nat, q: seq<Pair>, j: nat): int {
    if i >= |p| then 1 else if j >= |q| then -1 else KeyCmp(p[i].key, q[j].key)
  }

  /** The list still to come after an item has been taken from one side or both. */
  lemma ConcatStep(p: seq<Pair>, i: nat, q: seq<Pair>, j: nat)
    requires i <= |p| && j <= |q| && (i < |p| || j < |q|)
    ensures var rest, d := Concat(p[i..], q[j..]), Side(p, i, q, j);
      rest == if d < 0 then [p[i]] + Concat(p[i+1..], q[j..])
              else if d == 0 then [q[j]] + Concat(p[i+1..], q[j+1..])
              else [q[j]] + Concat(p[i..], q[j+1..])
  {
    assert i < |p| ==> p[i..][1..] == p[i+1..];
    assert j < |q| ==> q[j..][1..] == q[j+1..];
  }

  /** What holds between two steps of a merge that has come to item i of s1 and j of s2. */
  ghost predicate Merging(b: Builder, s1: HStore, i: nat, s2: HStore, j: nat, rest: seq<Pair>, total: seq<Pair>)
    reads b, b.mem
  {
    && b.Valid() && b.items + rest == total
    && b.mem.Length == b.bufd + |s1.str| + |s2.str| && |s1.str| + |s2.str| <= HENTRY_POSMASK
    && b.room == s1.count + s2.count && |b.items| <= i + j && b.pd - b.bufd <= Start(s1, i) + Start(s2, j)
  }

  /** No item, as second operand of a deletion. */
  ghost const NOTHING: HStore := HStore(8, 0, [], [])

  lemma NextRest(items: seq<Pair>, x: Pair, rest: seq<Pair>)
    ensures items + ([x] + rest) == items + [x] + rest
  {
  }

  lemma StartLow(h: HStore, p: seq<Pair>, i: nat)
    requires Reads(h, p) && i <= |p|
    ensures Start(h, i) <= |h.str|
  {
    if i < |p| { ReadAt(h, p, i); }
  }

  lemma StartMerging(b: Builder, s1: HStore, s2: HStore, total: seq<Pair>)
    requires b.Valid() && b.items == [] && b.room == s1.count + s2.count && b.mem.Length == b.bufd + |s1.str| + |s2.str|
    requires |s1.str| + |s2.str| <= HENTRY_POSMASK && Start(s1, 0) == 0 && Start(s2, 0) == 0
    ensures Merging(b, s1, 0, s2, 0, total, total)
  {
    assert b.items + total == total;
  }

  method TakeLeft(b: Builder, s1: HStore, i: nat, ghost p: seq<Pair>, ghost s2: HStore, ghost j: nat,
                  ghost before: seq<Pair>, ghost rest: seq<Pair>, ghost total: seq<Pair>)
    requires Reads(s1, p) && i < |p| && j <= s2.count && Start(s2, j) <= |s2.str|
    requires Merging(b, s1, i, s2, j, before, total) && before == [p[i]] + rest
    modifies b, b.mem
    ensures Merging(b, s1, i + 1, s2, j, rest, total) && |b.items| == |old(b.items)| + 1
  {
    NextRest(b.items, p[i], rest);
    ReadAt(s1, p, i);
    CopyFrom(b, s1, i, p);
  }

  method TakeRight(b: Builder, ghost s1: HStore, ghost i: nat, s2: HStore, j: nat, ghost q: seq<Pair>, ghost i': nat,
                   ghost before: seq<Pair>, ghost rest: seq<Pair>, ghost total: seq<Pair>)
    requires Reads(s2, q) && j < |q| && i <= s1.count && Start(s1, i) <= |s1.str|
    requires Merging(b, s1, i, s2, j, before, total) && before == [q[j]] + rest
    requires i <= i' && Start(s1, i) <= Start(s1, i')
    modifies b, b.mem
    ensures Merging(b, s1, i', s2, j + 1, rest, total) && |b.items| == |old(b.items)| + 1
  {
    NextRest(b.items, q[j], rest);
    ReadAt(s2, q, j);
    CopyFrom(b, s2, j, q);
  }

  method MergeSide(s1: HStore, i: nat, s2: HStore, j: nat, ghost p: seq<Pair>, ghost q: seq<Pair>)
    returns (difference: int)
    requires Reads(s1, p) && Reads(s2, q) && i <= |p| && j <= |q| && (i < |p| || j < |q|)
    ensures difference == Side(p, i, q, j)
  {
    if i >= s1.count {
      difference := 1;
    } else if j >= s2.count {
      difference := -1;
    } else {
      difference := CompareItems(s1, i, s2, j, p, q);
    }
  }

  /** One pass through the loop body of hstore_concat. */
  method MergeStep(b: Builder, s1: HStore, i: nat, s2: HStore, j: nat, ghost p: seq<Pair>, ghost q: seq<Pair>,
                   ghost total: seq<Pair>)
    returns (i': nat, j': nat)
    requires Reads(s1, p) && Reads(s2, q) && i <= |p| && j <= |q| && (i < |p| || j < |q|)
    requires Merging(b, s1, i, s2, j, Concat(p[i..], q[j..]), total)
    modifies b, b.mem
    ensures i <= i' <= |p| && j <= j' <= |q| && i + j < i' + j' && |b.items| == |old(b.items)| + 1
    ensures Merging(b, s1, i', s2, j', Concat(p[i'..], q[j'..]), total)
  {
    var difference := MergeSide(s1, i, s2, j, p, q);
    ConcatStep(p, i, q, j);
    StartLow(s1, p, i);
    StartLow(s2, q, j);
    ghost var before := Concat(p[i..], q[j..]);
    if difference < 0 {
      ghost var rest := Concat(p[i+1..], q[j..]);
      TakeLeft(b, s1, i, p, s2, j, before, rest, total);
      return i + 1, j;
    }
    i', j' := if difference == 0 then i + 1 else i, j + 1;
    if difference == 0 { ReadAt(s1, p, i); }
    ghost var rest := Concat(p[i'..], q[j'..]);
    TakeRight(b, s1, i, s2, j, q, i', before, rest, total);
  }

  /** The merge loop of hstore_concat; the result counts the items written. */
  method MergeInto(b: Builder, s1: HStore, s2: HStore, ghost p: seq<Pair>, ghost q: seq<Pair>) returns (outcount: nat)
    requires Reads(s1, p) && Reads(s2, q) && Merging(b, s1, 0, s2, 0, Concat(p, q), Concat(p, q)) && b.items == []
    modifies b, b.mem
    ensures b.Valid() && b.items == Concat(p, q) && outcount == |b.items|
  {
    var i, j := 0, 0;
    outcount := 0;
    ghost var total := Concat(p, q);
    assert p[0..] == p && q[0..] == q;
    while i < s1.count || j < s2.count
      invariant 0 <= i <= |p| && 0 <= j <= |q| && outcount == |b.items|
      invariant Merging(b, s1, i, s2, j, Concat(p[i..], q[j..]), total)
      decreases |p| - i + |q| - j
    {
      i, j := MergeStep(b, s1, i, s2, j, p, q, total);
      outcount := outcount + 1;
    }
    assert Concat(p[i..], q[j..]) == [];
  }

  method Finish(b: Builder, outcount: nat, ghost total: seq<Pair>)
    requires b.Valid() && b.items == total && outcount == |total|
    modifies b, b.mem
    ensures Stored(b.mem[..], Pack(total)) && Fits(total)
  {
    b.Finalize(outcount);
  }

  /** hstore_concat; None is palloc's refusal of a request over a gigabyte. */
  method HStoreConcat(s1: HStore, s2: HStore, ghost p: seq<Pair>, ghost q: seq<Pair>)
    returns (out: Option<array<Cell>>, ghost r: seq<Pair>)
    requires Packed(s1, p) && Packed(s2, q)
    ensures out.None? <==> s1.size + s2.size > 0x3fff_ffff
    ensures out.Some? ==> fresh(out.value) && Packed(Pack(r), r) && Stored(out.value[..], Pack(r))
    ensures Sorted(r) && MapOf(r) == MapOf(p) + MapOf(q)
  {
    r := Concat(p, q);
    ConcatSorted(p, q);
    ConcatIsOverride(p, q);
    if s1.size + s2.size > MAX_ALLOC { return None, r; }
    var b := new Builder(s1.count + s2.count, |s1.str| + |s2.str|);
    if s1.count == 0 {
      CopyWhole(b.mem, s2, q);
      return Some(b.mem), r;
    }
    if s2.count == 0 {
      CopyWhole(b.mem, s1, p);
      return Some(b.mem), r;
    }
    PackedReads(s1, p);
    PackedReads(s2, q);
    StartMerging(b, s1, s2, r);
    var outcount := MergeInto(b, s1, s2, p, q);
    Finish(b, outcount, r);
    out := Some(b.mem);
  }

  // ----- hstore_delete_array and hstore_delete_hstore -----

  /** An item of p that is not copied. */
  lemma DropLeft(b: Builder, h: HStore, i: nat, p: seq<Pair>, rest: seq<Pair>, total: seq<Pair>)
    requires Reads(h, p) && i < |p| && Merging(b, h, i, NOTHING, 0, rest, total)
    ensures Merging(b, h, i + 1, NOTHING, 0, rest, total)
  {
    ReadAt(h, p, i);
  }

  /** Copy item i if it is kept; more is the number of items copied. */
  method KeepOrDrop(b: Builder, hs: HStore, i: nat, i': nat, keep: bool, ghost p: seq<Pair>, ghost before: seq<Pair>,
                    ghost rest: seq<Pair>, ghost total: seq<Pair>)
    returns (more: nat)
    requires Reads(hs, p) && i < |p| && i <= i' <= i + 1 && (keep ==> i' == i + 1)
    requires Merging(b, hs, i, NOTHING, 0, before, total) && before == if keep then [p[i]] + rest else rest
    modifies b, b.mem
    ensures Merging(b, hs, i', NOTHING, 0, rest, total) && |b.items| == |old(b.items)| + more
  {
    more := 0;
    if keep {
      TakeLeft(b, hs, i, p, NOTHING, 0, before, rest, total);
      more := 1;
    } else if i' > i {
      DropLeft(b, hs, i, p, rest, total);
    }
  }

  /** The sign the deleting loops act on: with nothing left to delete the item stays. */
  ghost function KeySide(p: seq<Pair>, i: nat, ks: seq<string>, j: nat): int
    requires i < |p|
  {
    if j >= |ks| then -1 else KeyCmp(p[i].key, ks[j])
  }

  lemma DeleteKeysStep(p: seq<Pair>, i: nat, ks: seq<string>, j: nat)
    requires i < |p| && j <= |ks|
    ensures var rest, d := DeleteKeys(p[i..], ks[j..]), KeySide(p, i, ks, j);
      rest == if d > 0 then DeleteKeys(p[i..], ks[j+1..])
              else if d == 0 then DeleteKeys(p[i+1..], ks[j+1..])
              else [p[i]] + DeleteKeys(p[i+1..], ks[j..])
  {
    assert p[i..][1..] == p[i+1..];
    if j < |ks| {
      assert ks[j..][1..] == ks[j+1..];
    } else {
      NoKeysLeft(p[i+1..], ks[j..]);
      assert p[i..] == [p[i]] + p[i+1..];
    }
  }

  lemma NoKeysLeft(p: seq<Pair>, ks: seq<string>)
    requires ks == []
    ensures DeleteKeys(p, ks) == p
  {
  }

  method KeyDifference(hs: HStore, i: nat, ks: seq<string>, j: nat, ghost p: seq<Pair>) returns (difference: int)
    requires Reads(hs, p) && i < |p|
    ensures difference == KeySide(p, i, ks, j)
  {
    if j >= |ks| {
      difference := -1;
    } else {
      difference := CompareKey(hs, i, ks[j], p);
    }
  }

  /** What the loop body of hstore_delete_array does: which indices advance, and whether item i is copied. */
  method NextKey(hs: HStore, i: nat, ks: seq<string>, j: nat, ghost p: seq<Pair>) returns (i': nat, j': nat, keep: bool)
    requires Reads(hs, p) && i < |p| && j <= |ks|
    ensures i <= i' <= i + 1 && j <= j' <= |ks| && i + j < i' + j' && (keep ==> i' == i + 1)
    ensures DeleteKeys(p[i..], ks[j..]) == if keep then [p[i]] + DeleteKeys(p[i'..], ks[j'..])
      else DeleteKeys(p[i'..], ks[j'..])
  {
    var difference := KeyDifference(hs, i, ks, j, p);
    DeleteKeysStep(p, i, ks, j);
    if difference > 0 { return i, j + 1, false; }
    if difference == 0 { return i + 1, j + 1, false; }
    return i + 1, j, true;
  }

  method DeleteKeysInto(b: Builder, hs: HStore, ks: seq<string>, ghost p: seq<Pair>) returns (outcount: nat)
    requires Reads(hs, p) && Merging(b, hs, 0, NOTHING, 0, DeleteKeys(p, ks), DeleteKeys(p, ks)) && b.items == []
    modifies b, b.mem
    ensures b.Valid() && b.items == DeleteKeys(p, ks) && outcount == |b.items|
  {
    var i, j := 0, 0;
    outcount := 0;
    ghost var total := DeleteKeys(p, ks);
    assert p[0..] == p && ks[0..] == ks;
    while i < hs.count
      invariant 0 <= i <= |p| && 0 <= j <= |ks| && outcount == |b.items|
      invariant Merging(b, hs, i, NOTHING, 0, DeleteKeys(p[i..], ks[j..]), total)
      decreases |p| - i + |ks| - j
    {
      var i', j', keep := NextKey(hs, i, ks, j, p);
      ghost var before, rest := DeleteKeys(p[i..], ks[j..]), DeleteKeys(p[i'..], ks[j'..]);
      var more := KeepOrDrop(b, hs, i, i', keep, p, before, rest, total);
      i, j, outcount := i', j', outcount + more;
    }
    assert DeleteKeys(p[i..], ks[j..]) == [];
  }

  /** hstore_delete_array, given the keys of the array sorted and without duplicates. */
  method DeleteSorted(hs: HStore, ks: seq<string>, ghost p: seq<Pair>) returns (out: array<Cell>, ghost r: seq<Pair>)
    requires Packed(hs, p) && SortedKeys(ks)
    ensures fresh(out) && Packed(Pack(r), r) && Stored(out[..], Pack(r))
    ensures MapOf(r) == MapOf(p) - KeySet(ks)
  {
    r := DeleteKeys(p, ks);
    DeleteKeysSorted(p, ks);
    DeleteKeysIsRemoval(p, ks);
    var b := new Builder(hs.count, |hs.str|);
    out := b.mem;
    if |ks| == 0 {
      CopyWhole(out, hs, p);
      NoKeysLeft(p, ks);
      return;
    }
    PackedReads(hs, p);
    StartMerging(b, hs, NOTHING, r);
    var outcount := DeleteKeysInto(b, hs, ks, p);
    Finish(b, outcount, r);
  }

  lemma DeletePairsStep(p: seq<Pair>, i: nat, q: seq<Pair>, j: nat)
    requires i < |p| && j <= |q|
    ensures var rest, d := DeletePairs(p[i..], q[j..]), if j >= |q| then -1 else KeyCmp(p[i].key, q[j].key);
      rest == if d > 0 then DeletePairs(p[i..], q[j+1..])
              else if d == 0 && p[i].val == q[j].val then DeletePairs(p[i+1..], q[j+1..])
              else if d == 0 then [p[i]] + DeletePairs(p[i+1..], q[j+1..])
              else [p[i]] + DeletePairs(p[i+1..], q[j..])
  {
    assert p[i..][1..] == p[i+1..];
    if j < |q| {
      assert q[j..][1..] == q[j+1..];
      assert [] + DeletePairs(p[i+1..], q[j+1..]) == DeletePairs(p[i+1..], q[j+1..]);
    } else {
      NoPairsLeft(p[i+1..], q[j..]);
      assert p[i..] == [p[i]] + p[i+1..];
    }
  }

  lemma NoPairsLeft(p: seq<Pair>, q: seq<Pair>)
    requires q == []
    ensures DeletePairs(p, q) == p
  {
  }

  /** The comparison and the test for equal pairs. */
  method DeleteSide(hs: HStore, i: nat, hs2: HStore, j: nat, ghost p: seq<Pair>, ghost q: seq<Pair>)
    returns (difference: int, keep: bool)
    requires Reads(hs, p) && Reads(hs2, q) && i < |p| && j <= |q|
    ensures difference == if j >= |q| then -1 else KeyCmp(p[i].key, q[j].key)
    ensures keep <==> difference < 0 || (difference == 0 && p[i].val != q[j].val)
  {
    if j >= hs2.count {
      difference, keep := -1, true;
    } else {
      difference := CompareItems(hs, i, hs2, j, p, q);
      if difference == 0 {
        keep := ValuesDiffer(hs, i, hs2, j, p, q);
      } else {
        keep := difference < 0;
      }
    }
  }

  /** What the loop body of hstore_delete_hstore does. */
  method NextPair(hs: HStore, i: nat, hs2: HStore, j: nat, ghost p: seq<Pair>, ghost q: seq<Pair>)
    returns (i': nat, j': nat, keep: bool)
    requires Reads(hs, p) && Reads(hs2, q) && i < |p| && j <= |q|
    ensures i <= i' <= i + 1 && j <= j' <= |q| && i + j < i' + j' && (keep ==> i' == i + 1)
    ensures DeletePairs(p[i..], q[j..]) == if keep then [p[i]] + DeletePairs(p[i'..], q[j'..])
      else DeletePairs(p[i'..], q[j'..])
  {
    var difference;
    difference, keep := DeleteSide(hs, i, hs2, j, p, q);
    DeletePairsStep(p, i, q, j);
    if difference > 0 { return i, j + 1, keep; }
    if difference == 0 { return i + 1, j + 1, keep; }
    return i + 1, j, keep;
  }

  method DeletePairsInto(b: Builder, hs: HStore, hs2: HStore, ghost p: seq<Pair>, ghost q: seq<Pair>)
    returns (outcount: nat)
    requires Reads(hs, p) && Reads(hs2, q) && Merging(b, hs, 0, NOTHING, 0, DeletePairs(p, q), DeletePairs(p, q))
      && b.items == []
    modifies b, b.mem
    ensures b.Valid() && b.items == DeletePairs(p, q) && outcount == |b.items|
  {
    var i, j := 0, 0;
    outcount := 0;
    ghost var total := DeletePairs(p, q);
    assert p[0..] == p && q[0..] == q;
    while i < hs.count
      invariant 0 <= i <= |p| && 0 <= j <= |q| && outcount == |b.items|
      invariant Merging(b, hs, i, NOTHING, 0, DeletePairs(p[i..], q[j..]), total)
      decreases |p| - i + |q| - j
    {
      var i', j', keep := NextPair(hs, i, hs2, j, p, q);
      ghost var before, rest := DeletePairs(p[i..], q[j..]), DeletePairs(p[i'..], q[j'..]);
      var more := KeepOrDrop(b, hs, i, i', keep, p, before, rest, total);
      i, j, outcount := i', j', outcount + more;
    }
    assert DeletePairs(p[i..], q[j..]) == [];
  }

  /** hstore_delete_hstore. */
  method HStoreDeleteHStore(hs: HStore, hs2: HStore, ghost p: seq<Pair>, ghost q: seq<Pair>)
    returns (out: array<Cell>, ghost r: seq<Pair>)
    requires Packed(hs, p) && Packed(hs2, q)
    ensures fresh(out) && Packed(Pack(r), r) && Stored(out[..], Pack(r))
    ensures MapOf(r) == PairsWithout(MapOf(p), MapOf(q))
  {
    r := DeletePairs(p, q);
    DeletePairsSorted(p, q);
    DeletePairsIsRemoval(p, q);
    var b := new Builder(hs.count, |hs.str|);
    out := b.mem;
    if hs2.count == 0 {
      CopyWhole(out, hs, p);
      NoPairsLeft(p, q);
      return;
    }
    PackedReads(hs, p);
    PackedReads(hs2, q);
    StartMerging(b, hs, NOTHING, r);
    var outcount := DeletePairsInto(b, hs, hs2, p, q);
    Finish(b, outcount, r);
  }
}
