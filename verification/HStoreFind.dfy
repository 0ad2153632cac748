/**
 Searching packed values: the binary search that remembers a lower bound between calls,
 and the operators that look up strictly increasing keys one after the other.
 */
module HStoreFind {
  import opened HStorePairs
  import opened HStoreLayout
  import opened HStoreOps
  import opened HStoreUnique

  // In a sorted list it is enough to look at the item next to a bound (BoundMeaning).

  ghost predicate BoundBelow(p: seq<Pair>, bound: nat, key: string) {
    bound <= |p| && (bound > 0 ==> KeyCmp(p[bound-1].key, key) < 0)
  }

  ghost predicate BoundAtMost(p: seq<Pair>, bound: nat, key: string) {
    bound <= |p| && (bound > 0 ==> KeyCmp(p[bound-1].key, key) <= 0)
  }

  ghost predicate BoundAbove(p: seq<Pair>, from: nat, key: string) {
    from < |p| ==> KeyCmp(p[from].key, key) > 0
  }

  lemma BelowMeaning(p: seq<Pair>, bound: nat, key: string)
    requires Sorted(p) && BoundAtMost(p, bound, key)
    ensures forall i :: 0 <= i < bound - 1 ==> KeyCmp(p[i].key, key) < 0
  {
    forall i | 0 <= i < bound - 1 ensures KeyCmp(p[i].key, key) < 0 {
      SortedAt(p, i, bound - 1);
      KeyBetween(p[i].key, p[bound-1].key, key);
    }
  }

  lemma AboveMeaning(p: seq<Pair>, bound: nat, key: string)
    requires Sorted(p) && BoundAbove(p, bound, key)
    ensures forall i :: bound <= i < |p| ==> KeyCmp(p[i].key, key) > 0
  {
    forall i | bound < i < |p| ensures KeyCmp(p[i].key, key) > 0 {
      SortedAt(p, bound, i);
      KeyCmpOrder(p[bound].key, key);
      KeyCmpOrder(p[i].key, key);
      KeyBetween(key, p[bound].key, p[i].key);
    }
  }

  /** A lower bound: all keys before it are below the key, or at most the key. */
  lemma BoundMeaning(p: seq<Pair>, bound: nat, key: string)
    requires Sorted(p) && bound <= |p|
    ensures BoundBelow(p, bound, key) <==> forall i :: 0 <= i < bound ==> KeyCmp(p[i].key, key) < 0
    ensures BoundAtMost(p, bound, key) <==> forall i :: 0 <= i < bound ==> KeyCmp(p[i].key, key) <= 0
  {
    if BoundAtMost(p, bound, key) { BelowMeaning(p, bound, key); }
  }

  lemma KeyBetween(a: string, b: string, c: string)
    requires KeyCmp(a, b) < 0
    ensures KeyCmp(b, c) <= 0 ==> KeyCmp(a, c) < 0
  {
    KeyCmpOrder(b, c);
    if KeyCmp(b, c) < 0 { KeyCmpTransitive(a, b, c); }
  }

  /** A bound good for one key is good for every later one. */
  lemma BoundForNext(p: seq<Pair>, bound: nat, key: string, next: string)
    requires BoundAtMost(p, bound, key) && KeyCmp(key, next) < 0
    ensures BoundBelow(p, bound, next)
  {
    if bound > 0 {
      KeyCmpOrder(p[bound-1].key, key);
      if KeyCmp(p[bound-1].key, key) < 0 { KeyCmpTransitive(p[bound-1].key, key, next); }
    }
  }

  lemma NotFound(p: seq<Pair>, low: nat, key: string)
    requires Sorted(p) && BoundBelow(p, low, key) && BoundAbove(p, low, key)
    ensures !HasKey(p, key)
  {
    BelowMeaning(p, low, key);
    AboveMeaning(p, low, key);
    KeyCmpOrder(key, key);
  }

  /** How the keys of a list compare with one key. */
  ghost function Signs(p: seq<Pair>, key: string): (cs: seq<int>)
    ensures |cs| == |p|
  {
    if p == [] then [] else Signs(p[..|p|-1], key) + [KeyCmp(p[|p|-1].key, key)]
  }

  lemma {:induction false} SignAt(p: seq<Pair>, key: string, i: nat)
    requires i < |p|
    ensures Signs(p, key)[i] == KeyCmp(p[i].key, key)
    ensures Signs(p, key)[i] == 0 <==> p[i].key == key
  {
    KeyCmpOrder(p[i].key, key);
    if i < |p| - 1 { SignAt(p[..|p|-1], key, i); }
  }

  /** The middle of a range and how its key compares. */
  method Probe(hs: HStore, stopLow: nat, stopHigh: nat, key: string, ghost p: seq<Pair>, ghost cs: seq<int>)
    returns (stopMiddle: nat, difference: int)
    requires Reads(hs, p) && stopLow < stopHigh <= |p| && cs == Signs(p, key)
    ensures stopLow <= stopMiddle < stopHigh && difference == cs[stopMiddle]
  {
    stopMiddle := stopLow + (stopHigh - stopLow) / 2;
    difference := CompareKey(hs, stopMiddle, key, p);
    SignAt(p, key, stopMiddle);
  }

  /** The loop of hstoreFindKey: the place of the key, or the place where it would be. */
  method Search(hs: HStore, lowbound: nat, key: string, ghost p: seq<Pair>, ghost cs: seq<int>)
    returns (found: bool, at: nat)
    requires Reads(hs, p) && cs == Signs(p, key) && lowbound <= |cs| && (lowbound > 0 ==> cs[lowbound-1] < 0)
    ensures found ==> at < |cs| && cs[at] == 0
    ensures !found ==> at <= |cs| && (at > 0 ==> cs[at-1] < 0) && (at < |cs| ==> cs[at] > 0)
  {
    var stopLow, stopHigh := lowbound, hs.count;
    while stopLow < stopHigh
      invariant 0 <= stopLow <= stopHigh <= |cs| && (stopLow > 0 ==> cs[stopLow-1] < 0)
        && (stopHigh < |cs| ==> cs[stopHigh] > 0)
    {
      var stopMiddle, difference := Probe(hs, stopLow, stopHigh, key, p, cs);
      if difference == 0 {
        return true, stopMiddle;
      } else if difference < 0 {
        stopLow := stopMiddle + 1;
      } else {
        stopHigh := stopMiddle;
      }
    }
    return false, stopLow;
  }

  lemma SearchStart(p: seq<Pair>, lowbound: nat, key: string, cs: seq<int>)
    requires BoundBelow(p, lowbound, key) && cs == Signs(p, key)
    ensures lowbound <= |cs| && (lowbound > 0 ==> cs[lowbound-1] < 0)
  {
    if lowbound > 0 { SignAt(p, key, lowbound - 1); }
  }

  lemma SearchHit(p: seq<Pair>, at: nat, key: string, cs: seq<int>)
    requires cs == Signs(p, key) && at < |cs| && cs[at] == 0
    ensures at < |p| && p[at].key == key && BoundAtMost(p, at + 1, key)
  {
    SignAt(p, key, at);
    KeyCmpOrder(key, key);
  }

  lemma SearchMiss(p: seq<Pair>, at: nat, key: string, cs: seq<int>)
    requires Sorted(p) && cs == Signs(p, key) && at <= |cs| && (at > 0 ==> cs[at-1] < 0) && (at < |cs| ==> cs[at] > 0)
    ensures !HasKey(p, key) && BoundAtMost(p, at, key)
  {
    if at > 0 { SignAt(p, key, at - 1); }
    if at < |p| { SignAt(p, key, at); }
    NotFound(p, at, key);
  }

  /** hstoreFindKey.  With a null lowbound the search starts at 0 and the new bound is not used. */
  method FindKey(hs: HStore, lowbound: nat, key: string, ghost p: seq<Pair>) returns (idx: int, bound: nat)
    requires Reads(hs, p) && Sorted(p) && BoundBelow(p, lowbound, key)
    ensures -1 <= idx < |p| && if idx >= 0 then p[idx].key == key else !HasKey(p, key)
    ensures BoundAtMost(p, bound, key)
  {
    ghost var cs := Signs(p, key);
    SearchStart(p, lowbound, key, cs);
    var found, at := Search(hs, lowbound, key, p, cs);
    if found {
      SearchHit(p, at, key, cs);
      return at, at + 1;
    }
    SearchMiss(p, at, key, cs);
    return -1, at;
  }

  lemma FoundInMap(p: seq<Pair>, key: string, idx: int)
    requires Sorted(p) && -1 <= idx < |p| && if idx >= 0 then p[idx].key == key else !HasKey(p, key)
    ensures idx >= 0 <==> key in MapOf(p)
    ensures idx >= 0 ==> MapOf(p)[key] == p[idx].val
  {
    MapHas(p, key);
    if idx >= 0 { MapAt(p, idx); }
  }

  /** The bound is good for key i of an increasing list, whatever came before. */
  ghost predicate BoundReady(p: seq<Pair>, bound: nat, ks: seq<string>, i: nat) {
    bound <= |p| && (i < |ks| ==> BoundBelow(p, bound, ks[i]))
  }

  lemma ReadyForNext(p: seq<Pair>, bound: nat, ks: seq<string>, i: nat)
    requires SortedKeys(ks) && i < |ks| && BoundAtMost(p, bound, ks[i])
    ensures BoundReady(p, bound, ks, i + 1)
  {
    if i + 1 < |ks| { BoundForNext(p, bound, ks[i], ks[i+1]); }
  }

  /** One search of a series: the answer is that of a full search, and the bound stays good. */
  method FindNext(hs: HStore, lowbound: nat, ks: seq<string>, i: nat, ghost p: seq<Pair>) returns (idx: int, bound: nat)
    requires Reads(hs, p) && Sorted(p) && SortedKeys(ks) && i < |ks| && BoundReady(p, lowbound, ks, i)
    ensures -1 <= idx < |p| && (idx >= 0 <==> ks[i] in MapOf(p))
      && (idx >= 0 ==> p[idx].key == ks[i] && MapOf(p)[ks[i]] == p[idx].val)
    ensures BoundReady(p, bound, ks, i + 1)
  {
    idx, bound := FindKey(hs, lowbound, ks[i], p);
    FoundInMap(p, ks[i], idx);
    ReadyForNext(p, bound, ks, i);
  }

  method FindAny(hs: HStore, ks: seq<string>, ghost p: seq<Pair>) returns (res: bool)
    requires Reads(hs, p) && Sorted(p) && SortedKeys(ks)
    ensures res <==> exists k :: k in ks && k in MapOf(p)
  {
    var i, lowbound := 0, 0;
    while i < |ks|
      invariant 0 <= i <= |ks| && 0 <= lowbound && BoundReady(p, lowbound, ks, i)
      invariant forall m :: 0 <= m < i ==> ks[m] !in MapOf(p)
    {
      var idx;
      idx, lowbound := FindNext(hs, lowbound, ks, i, p);
      if idx >= 0 { return true; }
      i := i + 1;
    }
    res := false;
  }

  /** hstore_exists_any on sorted keys: does the map hold one of the keys? */
  method ExistsAnySorted(hs: HStore, ks: seq<string>, ghost p: seq<Pair>) returns (res: bool)
    requires Packed(hs, p) && SortedKeys(ks)
    ensures res <==> exists k :: k in ks && k in MapOf(p)
  {
    PackedReads(hs, p);
    res := FindAny(hs, ks, p);
  }

  method FindAll(hs: HStore, ks: seq<string>, ghost p: seq<Pair>) returns (res: bool)
    requires Reads(hs, p) && Sorted(p) && SortedKeys(ks)
    ensures res <==> forall k <- ks :: k in MapOf(p)
  {
    var i, lowbound := 0, 0;
    while i < |ks|
      invariant 0 <= i <= |ks| && 0 <= lowbound && BoundReady(p, lowbound, ks, i)
      invariant forall m :: 0 <= m < i ==> ks[m] in MapOf(p)
    {
      var idx;
      idx, lowbound := FindNext(hs, lowbound, ks, i, p);
      if idx < 0 { return false; }
      i := i + 1;
    }
    res := true;
  }

  /** hstore_exists_all on sorted keys: does the map hold all of the keys? */
  method ExistsAllSorted(hs: HStore, ks: seq<string>, ghost p: seq<Pair>) returns (res: bool)
    requires Packed(hs, p) && SortedKeys(ks)
    ensures res <==> forall k <- ks :: k in MapOf(p)
  {
    PackedReads(hs, p);
    res := FindAll(hs, ks, p);
  }

  // ----- hstore_contains -----

  ghost predicate Submap(m: map<string, Option<string>>, n: map<string, Option<string>>) {
    forall k <- m :: k in n && n[k] == m[k]
  }

  /** The map holds item i of q. */
  ghost predicate HoldsItem(p: seq<Pair>, q: seq<Pair>, i: nat)
    requires i < |q|
  {
    q[i].key in MapOf(p) && MapOf(p)[q[i].key] == q[i].val
  }

  lemma AllHeld(p: seq<Pair>, q: seq<Pair>)
    requires Sorted(q)
    ensures Submap(MapOf(q), MapOf(p)) <==> forall i :: 0 <= i < |q| ==> HoldsItem(p, q, i)
  {
    if forall i :: 0 <= i < |q| ==> HoldsItem(p, q, i) {
      forall k <- MapOf(q) ensures k in MapOf(p) && MapOf(p)[k] == MapOf(q)[k] {
        MapHas(q, k);
        var i :| 0 <= i < |q| && q[i].key == k;
        MapAt(q, i);
        assert HoldsItem(p, q, i);
      }
    }
    if Submap(MapOf(q), MapOf(p)) {
      forall i | 0 <= i < |q| ensures HoldsItem(p, q, i) {
        MapAt(q, i);
      }
    }
  }

  ghost predicate BoundReadyItem(p: seq<Pair>, bound: nat, q: seq<Pair>, i: nat) {
    bound <= |p| && (i < |q| ==> BoundBelow(p, bound, q[i].key))
  }

  lemma ReadyForNextItem(p: seq<Pair>, bound: nat, q: seq<Pair>, i: nat)
    requires Sorted(q) && i < |q| && BoundAtMost(p, bound, q[i].key)
    ensures BoundReadyItem(p, bound, q, i + 1)
  {
    if i + 1 < |q| {
      SortedAt(q, i, i + 1);
      BoundForNext(p, bound, q[i].key, q[i+1].key);
    }
  }

  /** One pass of the loop of hstore_contains: is item i of the template in the value? */
  method ContainsItem(val: HStore, tmpl: HStore, lastidx: nat, i: nat, ghost p: seq<Pair>, ghost q: seq<Pair>)
    returns (res: bool, bound: nat)
    requires Reads(val, p) && Reads(tmpl, q) && Sorted(p) && Sorted(q) && i < |q| && BoundReadyItem(p, lastidx, q, i)
    ensures res <==> HoldsItem(p, q, i)
    ensures BoundReadyItem(p, bound, q, i + 1)
  {
    var key := ReadKey(tmpl, i, q);
    var idx;
    idx, bound := FindKey(val, lastidx, key, p);
    FoundInMap(p, key, idx);
    ReadyForNextItem(p, bound, q, i);
    if idx >= 0 {
      var differ := ValuesDiffer(tmpl, i, val, idx, q, p);
      res := !differ;
    } else {
      res := false;
    }
  }

  ghost function HeldUpTo(p: seq<Pair>, q: seq<Pair>, n: nat): bool
    requires n <= |q|
  {
    n == 0 || (HeldUpTo(p, q, n - 1) && HoldsItem(p, q, n - 1))
  }

  lemma {:induction false} AllHeldUpTo(p: seq<Pair>, q: seq<Pair>, n: nat)
    requires n <= |q|
    ensures HeldUpTo(p, q, n) <==> forall i :: 0 <= i < n ==> HoldsItem(p, q, i)
  {
    if n > 0 { AllHeldUpTo(p, q, n - 1); }
  }

  method FindContents(val: HStore, tmpl: HStore, ghost p: seq<Pair>, ghost q: seq<Pair>) returns (res: bool)
    requires Reads(val, p) && Reads(tmpl, q) && Sorted(p) && Sorted(q)
    ensures res <==> HeldUpTo(p, q, |q|)
  {
    res := true;
    var i: nat, lastidx: nat := 0, 0;
    while res && i < tmpl.count
      invariant i <= |q| && BoundReadyItem(p, lastidx, q, i) && res == HeldUpTo(p, q, i)
      decreases |q| - i
    {
      res, lastidx := ContainsItem(val, tmpl, lastidx, i, p, q);
      i := i + 1;
    }
    NotHeldLater(p, q, i, |q|);
  }

  lemma {:induction false} NotHeldLater(p: seq<Pair>, q: seq<Pair>, i: nat, n: nat)
    requires i <= n <= |q|
    ensures HeldUpTo(p, q, n) ==> HeldUpTo(p, q, i)
  {
    if i < n { NotHeldLater(p, q, i, n - 1); }
  }

  /** hstore_contains: the template is a submap of the value. */
  method HStoreContains(val: HStore, tmpl: HStore, ghost p: seq<Pair>, ghost q: seq<Pair>) returns (res: bool)
    requires Packed(val, p) && Packed(tmpl, q)
    ensures res <==> Submap(MapOf(q), MapOf(p))
  {
    PackedReads(val, p);
    PackedReads(tmpl, q);
    AllHeld(p, q);
    AllHeldUpTo(p, q, |q|);
    res := FindContents(val, tmpl, p, q);
  }

  // ----- hstore_slice_to_hstore -----

  /** The part of a map that lies on the given keys. */
  ghost function Restrict(m: map<string, Option<string>>, ks: seq<string>): map<string, Option<string>> {
    map k | k in m && k in ks :: m[k]
  }

  ghost predicate Among(k: string, ks: seq<string>, i: nat) {
    exists m :: 0 <= m < i <= |ks| && ks[m] == k
  }

  /** What the slicing loop has collected from the first i keys. */
  ghost predicate Sliced(s: seq<Pairs>, p: seq<Pair>, ks: seq<string>, i: nat) {
    && i <= |ks| && StrictKeys(s)
    && (forall x <- s :: Among(x.key, ks, i) && x.key in MapOf(p) && MapOf(p)[x.key] == x.val)
    && (forall m {:trigger ks[m]} :: 0 <= m < i && ks[m] in MapOf(p) ==> Pairs(ks[m], MapOf(p)[ks[m]], false) in s)
  }

  lemma AmongMore(ks: seq<string>, i: nat)
    requires i < |ks|
    ensures Among(ks[i], ks, i + 1) && forall k :: Among(k, ks, i) ==> Among(k, ks, i + 1)
  {
  }

  lemma SliceNext(s: seq<Pairs>, p: seq<Pair>, ks: seq<string>, i: nat, x: Pairs)
    requires Sliced(s, p, ks, i) && SortedKeys(ks) && i < |ks| && ks[i] in MapOf(p)
      && x == Pairs(ks[i], MapOf(p)[ks[i]], false)
    ensures Sliced(s + [x], p, ks, i + 1)
  {
    AmongMore(ks, i);
    forall n | 0 <= n < |s| ensures KeyCmp(s[n].key, x.key) < 0 {
      assert s[n] in s;
    }
    assert forall y <- s + [x] :: y in s || y == x;
  }

  lemma SliceSkip(s: seq<Pairs>, p: seq<Pair>, ks: seq<string>, i: nat)
    requires Sliced(s, p, ks, i) && i < |ks| && ks[i] !in MapOf(p)
    ensures Sliced(s, p, ks, i + 1)
  {
    AmongMore(ks, i);
  }

  lemma SliceMap(s: seq<Pairs>, p: seq<Pair>, ks: seq<string>)
    requires Sliced(s, p, ks, |ks|)
    ensures Sorted(AsPairs(s)) && MapOf(AsPairs(s)) == Restrict(MapOf(p), ks)
  {
    FirstsSorted(s);
    var r, m := AsPairs(s), MapOf(p);
    forall k ensures k in MapOf(r) <==> k in m && k in ks {
      MapHas(r, k);
      if k in MapOf(r) {
        var i :| 0 <= i < |r| && r[i].key == k;
        AsPairsAt(s, i);
        assert s[i] in s;
      }
      if k in m && k in ks {
        var j :| 0 <= j < |ks| && ks[j] == k;
        var i :| 0 <= i < |s| && s[i] == Pairs(ks[j], m[ks[j]], false);
        AsPairsAt(s, i);
      }
    }
    forall k <- MapOf(r) ensures MapOf(r)[k] == m[k] {
      MapHas(r, k);
      var i :| 0 <= i < |r| && r[i].key == k;
      AsPairsAt(s, i);
      MapAt(r, i);
      assert s[i] in s;
    }
  }

  method SlicePair(hs: HStore, idx: nat, key: string, ghost p: seq<Pair>) returns (x: Pairs)
    requires Reads(hs, p) && idx < |p|
    ensures x == Pairs(key, p[idx].val, false)
  {
    ReadAt(hs, p, idx);
    var off, len, isnull := ValOff(hs, idx), ValLen(hs, idx), ValIsNull(hs, idx);
    x := Pairs(key, if isnull then None else Some(hs.str[off..off+len]), false);
  }

  method SliceStep(hs: HStore, lowbound: nat, ks: seq<string>, i: nat, pairs: seq<Pairs>, ghost p: seq<Pair>)
    returns (more: seq<Pairs>, len: nat, bound: nat)
    requires Reads(hs, p) && Sorted(p) && SortedKeys(ks) && i < |ks| && BoundReady(p, lowbound, ks, i)
      && Sliced(pairs, p, ks, i)
    ensures Sliced(more, p, ks, i + 1) && Total(more) == Total(pairs) + len && BoundReady(p, bound, ks, i + 1)
  {
    var idx;
    idx, bound := FindNext(hs, lowbound, ks, i, p);
    if idx < 0 {
      SliceSkip(pairs, p, ks, i);
      return pairs, 0, bound;
    }
    var x := SlicePair(hs, idx, ks[i], p);
    SliceNext(pairs, p, ks, i, x);
    TotalSnoc(pairs, x);
    return pairs + [x], PairLength(x), bound;
  }

  /** The slicing loop: the pairs of the value under the keys, and their length. */
  method SlicePairs(hs: HStore, ks: seq<string>, ghost p: seq<Pair>) returns (pairs: seq<Pairs>, bufsiz: nat)
    requires Reads(hs, p) && Sorted(p) && SortedKeys(ks)
    ensures Sliced(pairs, p, ks, |ks|) && bufsiz == Total(pairs)
  {
    pairs, bufsiz := [], 0;
    var i, lastidx := 0, 0;
    while i < |ks|
      invariant 0 <= i <= |ks| && 0 <= lastidx && BoundReady(p, lastidx, ks, i)
      invariant Sliced(pairs, p, ks, i) && bufsiz == Total(pairs)
    {
      var len;
      pairs, len, lastidx := SliceStep(hs, lastidx, ks, i, pairs, p);
      bufsiz := bufsiz + len;
      i := i + 1;
    }
  }

  /** hstore_slice_to_hstore on sorted keys: the restriction of the map to the keys. */
  method SliceSorted(hs: HStore, ks: seq<string>, ghost p: seq<Pair>)
    returns (out: Option<array<Cell>>, ghost r: seq<Pair>)
    requires Packed(hs, p) && SortedKeys(ks)
    ensures Sorted(r) && MapOf(r) == Restrict(MapOf(p), ks)
    ensures out.Some? ==> fresh(out.value) && Packed(Pack(r), r) && Stored(out.value[..], Pack(r))
    ensures out.None? <==> Pack(r).size > 0x3fff_ffff
  {
    PackedReads(hs, p);
    var pairs, bufsiz := SlicePairs(hs, ks, p);
    SliceMap(pairs, p, ks);
    TotalIsData(pairs);
    r := AsPairs(pairs);
    out := PackPairs(pairs, bufsiz);
  }
}
