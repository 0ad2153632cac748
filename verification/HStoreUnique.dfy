/**
 From lists of pairs to packed values: the order of comparePairs, removal of duplicate
 keys in place, and hstorePairs.  What qsort leaves is a parameter: any ordered
 permutation of its input.
 */
module HStoreUnique {
  import opened Memcmp
  import opened HStorePairs
  import opened HStoreLayout
  import opened HStoreBuild
  import opened HStoreOps

  /** val is None if isnull is set. */
  datatype Pairs = Pairs(key: string, val: Option<string>, needfree: bool)

  function ComparePairs(a: Pairs, b: Pairs): int {
    if |a.key| == |b.key| then
      var res := MemCmp(a.key, b.key);
      if res != 0 then res
      else if b.needfree == a.needfree then 0
      else if a.needfree then 1
      else -1
    else if |a.key| > |b.key| then 1
    else -1
  }

  ghost predicate Ordered(s: seq<Pairs>) {
    forall i, j :: 0 <= i < j < |s| ==> ComparePairs(s[i], s[j]) <= 0
  }

  /** The possible results of qsort. */
  ghost predicate QsortOf(s: seq<Pairs>, a: seq<Pairs>) {
    multiset(s) == multiset(a) && Ordered(s)
  }

  lemma CompareMeaning(a: Pairs, b: Pairs)
    ensures ComparePairs(a, b) <= 0 <==> KeyCmp(a.key, b.key) < 0 || (a.key == b.key && (a.needfree ==> b.needfree))
  {
    KeyCmpOrder(a.key, b.key);
  }

  /** The first of every run of equal keys. */
  ghost function Firsts(s: seq<Pairs>): seq<Pairs> {
    if |s| < 2 then s
    else Firsts(s[..|s|-1]) + if s[|s|-1].key == s[|s|-2].key then [] else [s[|s|-1]]
  }

  ghost function AsPairs(s: seq<Pairs>): (p: seq<Pair>)
    ensures |p| == |s|
  {
    if s == [] then [] else AsPairs(s[..|s|-1]) + [Pair(s[|s|-1].key, s[|s|-1].val)]
  }

  lemma AsPairsSnoc(s: seq<Pairs>, x: Pairs)
    ensures AsPairs(s + [x]) == AsPairs(s) + [Pair(x.key, x.val)]
    ensures |Data(AsPairs(s + [x]))| == |Data(AsPairs(s))| + |x.key| + |ValText(Pair(x.key, x.val))|
  {
    assert (s + [x])[..|s|] == s;
    var p, y := AsPairs(s), Pair(x.key, x.val);
    assert (p + [y])[..|p|] == p;
  }

  /** x is kept as y: the same key, and y is freeable only if x is. */
  ghost predicate Stands(x: Pairs, y: Pairs) {
    x.key == y.key && (y.needfree ==> x.needfree)
  }

  ghost predicate Kept(x: Pairs, t: seq<Pairs>) {
    exists k :: 0 <= k < |t| && Stands(x, t[k])
  }

  /** Every pair of s has one that stands for it, and nothing else is in t. */
  ghost predicate Represents(s: seq<Pairs>, t: seq<Pairs>) {
    (forall x <- s :: Kept(x, t)) && (forall y <- t :: y in s)
  }

  ghost predicate StrictKeys(s: seq<Pairs>) {
    forall i, j :: 0 <= i < j < |s| ==> KeyCmp(s[i].key, s[j].key) < 0
  }

  lemma Increasing(s: seq<Pairs>, i: nat, j: nat)
    requires Ordered(s) && i < j < |s|
    ensures KeyCmp(s[i].key, s[j].key) < 0 || Stands(s[j], s[i])
  {
    CompareMeaning(s[i], s[j]);
  }

  lemma KeptSnoc(x: Pairs, t: seq<Pairs>, y: Pairs)
    ensures Kept(x, t) ==> Kept(x, t + [y])
    ensures Stands(x, y) ==> Kept(x, t + [y])
  {
    var u := t + [y];
    if Kept(x, t) {
      var k :| 0 <= k < |t| && Stands(x, t[k]);
      assert Stands(x, u[k]);
    }
    assert u[|t|] == y;
  }

  /** A further pair that one of t stands for. */
  lemma RepresentsMore(s: seq<Pairs>, t: seq<Pairs>, x: Pairs)
    requires Represents(s, t) && Kept(x, t)
    ensures Represents(s + [x], t)
  {
  }

  /** A further pair that is kept. */
  lemma RepresentsNew(s: seq<Pairs>, t: seq<Pairs>, x: Pairs)
    requires Represents(s, t)
    ensures Represents(s + [x], t + [x])
  {
    forall y <- s + [x] ensures Kept(y, t + [x]) {
      KeptSnoc(y, t, x);
      assert y in s || y == x;
    }
  }

  /** A key above the last of a sorted list can follow it. */
  lemma StrictSnoc(f: seq<Pairs>, x: Pairs)
    requires StrictKeys(f) && f != [] && KeyCmp(f[|f|-1].key, x.key) < 0
    ensures StrictKeys(f + [x])
  {
    forall i | 0 <= i < |f| ensures KeyCmp(f[i].key, x.key) < 0 {
      if i < |f| - 1 { KeyCmpTransitive(f[i].key, f[|f|-1].key, x.key); }
    }
  }

  /** Of an ordered list the firsts have strictly increasing keys and stand for all. */
  lemma {:induction false} FirstsOfOrdered(s: seq<Pairs>)
    requires Ordered(s)
    ensures StrictKeys(Firsts(s)) && Represents(s, Firsts(s))
    ensures s != [] ==> Firsts(s) != [] && Stands(s[|s|-1], Firsts(s)[|Firsts(s)|-1])
  {
    var n := |s| - 1;
    if n < 1 {
      assert forall x <- s :: Stands(x, s[0]);
    } else {
      FirstsOfOrdered(s[..n]);
      FirstsStep(s, Firsts(s[..n]));
    }
  }

  lemma FirstsStep(s: seq<Pairs>, f: seq<Pairs>)
    requires Ordered(s) && |s| >= 2 && f != []
    requires StrictKeys(f) && Represents(s[..|s|-1], f) && Stands(s[|s|-2], f[|f|-1])
    ensures var t := f + if s[|s|-1].key == s[|s|-2].key then [] else [s[|s|-1]];
      StrictKeys(t) && Represents(s, t) && t != [] && Stands(s[|s|-1], t[|t|-1])
  {
    var n := |s| - 1;
    var last := s[n];
    Increasing(s, n - 1, n);
    KeyCmpOrder(last.key, last.key);
    assert s == s[..n] + [last];
    if last.key == s[n-1].key {
      assert f + [] == f;
      assert Stands(last, f[|f|-1]);
      RepresentsMore(s[..n], f, last);
    } else {
      RepresentsNew(s[..n], f, last);
      StrictSnoc(f, last);
    }
  }

  // ----- the code -----

  /** The contribution of one pair to buflen. */
  function PairLength(x: Pairs): nat { |x.key| + if x.val.None? then 0 else |x.val.value| }

  ghost function Total(s: seq<Pairs>): nat { if s == [] then 0 else Total(s[..|s|-1]) + PairLength(s[|s|-1]) }

  lemma TotalSnoc(s: seq<Pairs>, x: Pairs)
    ensures Total(s + [x]) == Total(s) + PairLength(x)
  {
    assert (s + [x])[..|s|] == s;
  }

  /** buflen is the length of the buffer to be packed. */
  lemma {:induction false} TotalIsData(s: seq<Pairs>)
    ensures Total(s) == |Data(AsPairs(s))|
  {
    if s != [] {
      var n := |s| - 1;
      TotalIsData(s[..n]);
      AsPairsSnoc(s[..n], s[n]);
      assert s == s[..n] + [s[n]];
    }
  }

  method Overwrite(a: array<Pairs>, l: nat, s: seq<Pairs>)
    requires l == |s| <= a.Length
    modifies a
    ensures a[..l] == s && a[l..] == old(a[l..])
  {
    var k := 0;
    while k < l
      invariant 0 <= k <= l && a[..k] == s[..k] && a[l..] == old(a[l..])
    {
      a[k] := s[k];
      k := k + 1;
    }
  }

  /** What holds while duplicates are squeezed out: f is kept, res its last place, ptr the next to look at. */
  ghost predicate Squeezing(a: seq<Pairs>, f: seq<Pairs>, s: seq<Pairs>, res: nat, ptr: nat, buflen: nat) {
    && res < ptr <= |s| == |a| && a[..res+1] == f && a[ptr..] == s[ptr..]
    && a[res].key == s[ptr-1].key && buflen + PairLength(a[res]) == Total(f)
  }

  lemma SqueezeSame(a: seq<Pairs>, f: seq<Pairs>, s: seq<Pairs>, res: nat, ptr: nat, buflen: nat)
    requires Squeezing(a, f, s, res, ptr, buflen) && ptr < |s| && a[ptr].key == a[res].key
    ensures Squeezing(a, f, s, res, ptr + 1, buflen) && s[ptr].key == s[ptr-1].key
  {
    assert a[ptr] == a[ptr..][0] == s[ptr];
    assert a[ptr+1..] == a[ptr..][1..] && s[ptr+1..] == s[ptr..][1..];
  }

  lemma SqueezeNext(a: seq<Pairs>, b: seq<Pairs>, f: seq<Pairs>, s: seq<Pairs>, res: nat, ptr: nat, buflen: nat)
    requires Squeezing(a, f, s, res, ptr, buflen) && ptr < |s| && a[ptr].key != a[res].key && b == a[res + 1 := a[ptr]]
    ensures s[ptr].key != s[ptr-1].key && Squeezing(b, f + [s[ptr]], s, res + 1, ptr + 1, buflen + PairLength(a[res]))
  {
    assert a[ptr] == a[ptr..][0] == s[ptr];
    assert b[..res+2] == a[..res+1] + [s[ptr]];
    assert b[ptr+1..] == a[ptr..][1..] && s[ptr+1..] == s[ptr..][1..];
    TotalSnoc(f, s[ptr]);
  }

  lemma FirstsNext(s: seq<Pairs>, ptr: nat)
    requires 1 <= ptr < |s|
    ensures Firsts(s[..ptr+1]) == Firsts(s[..ptr]) + if s[ptr].key == s[ptr-1].key then [] else [s[ptr]]
  {
    assert s[..ptr+1][..ptr] == s[..ptr];
  }

  /** hstoreUniquePairs: number of pairs kept, and their length in bytes. */
  method UniquePairs(a: array<Pairs>, l: nat, order: seq<Pairs>) returns (n: nat, buflen: nat)
    requires l <= a.Length && QsortOf(order, a[..l])
    modifies a
    ensures n <= l && a[..n] == Firsts(order) && buflen == Total(a[..n])
  {
    if l < 2 {
      SmallOrder(order, a[..l]);
      buflen := 0;
      if l == 1 {
        buflen := PairLength(a[0]);
        TotalSnoc([], a[0]);
        assert a[..1] == [] + [a[0]];
      }
      return l, buflen;
    }
    assert |order| == l by { assert |multiset(order)| == |multiset(a[..l])|; }
    Overwrite(a, l, order);
    n, buflen := Squeeze(a, l, order);
  }

  /** A list of at most one element has one order. */
  lemma SmallOrder(s: seq<Pairs>, a: seq<Pairs>)
    requires |a| < 2 && multiset(s) == multiset(a)
    ensures s == a
  {
    assert |multiset(s)| == |multiset(a)|;
    if |a| == 1 { assert s[0] in multiset(a); }
  }

  method SqueezeStep(a: array<Pairs>, l: nat, res: nat, ptr: nat, buflen: nat, ghost f: seq<Pairs>, ghost s: seq<Pairs>)
    returns (res': nat, buflen': nat, ghost f': seq<Pairs>)
    requires l <= a.Length && Squeezing(a[..l], f, s, res, ptr, buflen) && ptr < l
    modifies a
    ensures Squeezing(a[..l], f', s, res', ptr + 1, buflen')
    ensures f' == f + if s[ptr].key == s[ptr-1].key then [] else [s[ptr]]
  {
    ghost var before := a[..l];
    if a[ptr].key == a[res].key {
      SqueezeSame(before, f, s, res, ptr, buflen);
      res', buflen', f' := res, buflen, f;
      assert f + [] == f;
    } else {
      buflen' := buflen + PairLength(a[res]);
      res' := res + 1;
      a[res'] := a[ptr];
      SqueezeNext(before, a[..l], f, s, res, ptr, buflen);
      f' := f + [s[ptr]];
    }
  }

  lemma SqueezeStart(a: seq<Pairs>)
    requires a != []
    ensures Squeezing(a, a[..1], a, 0, 1, 0) && a[..1] == Firsts(a[..1])
  {
    TotalSnoc([], a[0]);
    assert a[..1] == [] + [a[0]];
  }

  method Squeeze(a: array<Pairs>, l: nat, ghost s: seq<Pairs>) returns (n: nat, buflen: nat)
    requires 2 <= l == |s| <= a.Length && a[..l] == s
    modifies a
    ensures n <= l && a[..n] == Firsts(s) && buflen == Total(a[..n])
  {
    var ptr, res := 1, 0;
    buflen := 0;
    ghost var f := s[..1];
    SqueezeStart(s);
    while ptr < l
      invariant 0 <= res < ptr <= l && f == Firsts(s[..ptr]) && Squeezing(a[..l], f, s, res, ptr, buflen)
    {
      FirstsNext(s, ptr);
      res, buflen, f := SqueezeStep(a, l, res, ptr, buflen, f, s);
      ptr := ptr + 1;
    }
    assert s[..l] == s && a[..l][..res+1] == a[..res+1];
    buflen := buflen + PairLength(a[res]);
    n := res + 1;
  }

  lemma {:induction false} TotalPrefix(s: seq<Pairs>, i: nat)
    requires i <= |s|
    ensures Total(s[..i]) <= Total(s)
    decreases |s| - i
  {
    if i < |s| {
      TotalPrefix(s, i + 1);
      TotalSnoc(s[..i], s[i]);
      assert s[..i+1] == s[..i] + [s[i]];
    } else {
      assert s[..i] == s;
    }
  }

  /** The space left suffices for pair i. */
  lemma AddRoom(pairs: seq<Pairs>, i: nat)
    requires i < |pairs|
    ensures Total(pairs[..i]) + PairLength(pairs[i]) <= Total(pairs)
  {
    TotalPrefix(pairs, i + 1);
    TotalSnoc(pairs[..i], pairs[i]);
    assert pairs[..i+1] == pairs[..i] + [pairs[i]];
  }

  /** The loop of hstorePairs. */
  method AddAll(b: Builder, pairs: seq<Pairs>)
    requires b.Valid() && b.items == [] && b.room == |pairs|
    requires b.mem.Length == b.bufd + Total(pairs) && Total(pairs) <= HENTRY_POSMASK
    modifies b, b.mem
    ensures b.Valid() && b.items == AsPairs(pairs)
  {
    var i := 0;
    assert pairs[..0] == [];
    while i < |pairs|
      invariant 0 <= i <= |pairs| && b.Valid() && b.items == AsPairs(pairs[..i])
    {
      AddNext(b, pairs, i);
      i := i + 1;
    }
    assert pairs[..i] == pairs;
  }

  method AddNext(b: Builder, pairs: seq<Pairs>, i: nat)
    requires i < |pairs| && b.Valid() && b.items == AsPairs(pairs[..i]) && b.room == |pairs|
    requires b.mem.Length == b.bufd + Total(pairs) && Total(pairs) <= HENTRY_POSMASK
    modifies b, b.mem
    ensures b.Valid() && b.items == AsPairs(pairs[..i+1])
  {
    AddRoom(pairs, i);
    TotalIsData(pairs[..i]);
    AsPairsSnoc(pairs[..i], pairs[i]);
    assert pairs[..i+1] == pairs[..i] + [pairs[i]];
    b.AddItem(pairs[i].key, pairs[i].val);
  }

  /** hstorePairs; None is palloc's refusal. */
  method PackPairs(pairs: seq<Pairs>, buflen: nat) returns (out: Option<array<Cell>>)
    requires buflen == Total(pairs)
    ensures out.None? <==> CalcDataSize(|pairs|, buflen) > 0x3fff_ffff
    ensures out.Some? ==> fresh(out.value) && Stored(out.value[..], Pack(AsPairs(pairs))) && Fits(AsPairs(pairs))
  {
    TotalIsData(pairs);
    if CalcDataSize(|pairs|, buflen) > MAX_ALLOC { return None; }
    var b := new Builder(|pairs|, buflen);
    AddAll(b, pairs);
    Finish(b, |pairs|, AsPairs(pairs));
    out := Some(b.mem);
  }

  lemma {:induction false} AsPairsAt(s: seq<Pairs>, i: nat)
    requires i < |s|
    ensures AsPairs(s)[i] == Pair(s[i].key, s[i].val)
  {
    if i < |s| - 1 { AsPairsAt(s[..|s|-1], i); }
  }

  /** The map denoted by what duplicates are removed from: every key, with one of its values. */
  lemma FirstsMeaning(a: seq<Pairs>, order: seq<Pairs>, p: seq<Pair>)
    requires QsortOf(order, a) && p == AsPairs(Firsts(order))
    ensures Sorted(p)
    ensures forall x <- a :: x.key in MapOf(p)
    ensures forall k <- MapOf(p) :: exists x :: x in a && x.key == k && x.val == MapOf(p)[k]
  {
    var f := Firsts(order);
    FirstsOfOrdered(order);
    FirstsSorted(f);
    forall x <- a ensures x.key in MapOf(p) {
      assert x in multiset(order);
      assert Kept(x, f);
      var k :| 0 <= k < |f| && Stands(x, f[k]);
      AsPairsAt(f, k);
      MapAt(p, k);
    }
    forall k <- MapOf(p) ensures exists x :: x in a && x.key == k && x.val == MapOf(p)[k] {
      MapHas(p, k);
      var i :| 0 <= i < |p| && p[i].key == k;
      AsPairsAt(f, i);
      MapAt(p, i);
      FirstIsInput(a, order, f, i);
    }
  }

  lemma FirstIsInput(a: seq<Pairs>, order: seq<Pairs>, f: seq<Pairs>, i: nat)
    requires multiset(order) == multiset(a) && Represents(order, f) && i < |f|
    ensures f[i] in a
  {
    assert f[i] in f && f[i] in order && f[i] in multiset(order);
  }

  lemma FirstsSorted(f: seq<Pairs>)
    requires StrictKeys(f)
    ensures Sorted(AsPairs(f))
  {
    var p := AsPairs(f);
    forall i, j | 0 <= i < j < |p| ensures KeyCmp(p[i].key, p[j].key) < 0 {
      AsPairsAt(f, i);
      AsPairsAt(f, j);
    }
    SortedByIndex(p);
  }

  /** hstoreArrayToPairs before sorting: the elements that are not null, with null values. */
  function KeyPairs(a: seq<Option<string>>): seq<Pairs> {
    if a == [] then []
    else KeyPairs(a[..|a|-1]) + (match a[|a|-1] case None => [] case Some(k) => [Pairs(k, None, false)])
  }

  lemma {:induction false} KeyPairsHas(a: seq<Option<string>>, k: string)
    ensures Some(k) in a <==> Pairs(k, None, false) in KeyPairs(a)
    ensures forall x <- KeyPairs(a) :: x == Pairs(x.key, None, false)
  {
    if a != [] {
      var n := |a| - 1;
      KeyPairsHas(a[..n], k);
      assert a == a[..n] + [a[n]];
    }
  }

  method CollectKeys(a: seq<Option<string>>) returns (pairs: array<Pairs>, j: nat)
    ensures fresh(pairs) && j <= pairs.Length && pairs[..j] == KeyPairs(a)
  {
    pairs := new Pairs[|a|](_ => Pairs([], None, false));
    var i := 0;
    j := 0;
    while i < |a|
      invariant 0 <= j <= i <= |a| && pairs[..j] == KeyPairs(a[..i])
    {
      assert a[..i+1][..i] == a[..i];
      if a[i].Some? {
        pairs[j] := Pairs(a[i].value, None, false);
        j := j + 1;
      }
      i := i + 1;
    }
    assert a[..i] == a;
  }

  method KeysOf(pairs: array<Pairs>, n: nat) returns (keys: seq<string>)
    requires n <= pairs.Length
    ensures |keys| == n && forall m :: 0 <= m < n ==> keys[m] == pairs[..n][m].key
  {
    keys := [];
    while |keys| < n
      invariant |keys| <= n && forall m :: 0 <= m < |keys| ==> keys[m] == pairs[..n][m].key
    {
      keys := keys + [pairs[|keys|].key];
    }
  }

  /** hstoreArrayToPairs: the keys of an array, sorted, nulls and duplicates dropped. */
  method ArrayToPairs(a: seq<Option<string>>, order: seq<Pairs>) returns (keys: seq<string>)
    requires QsortOf(order, KeyPairs(a))
    ensures SortedKeys(keys) && forall k :: k in keys <==> Some(k) in a
  {
    if |a| == 0 {
      SmallOrder(order, []);
      return [];
    }
    var pairs, j := CollectKeys(a);
    var n, _ := UniquePairs(pairs, j, order);
    ghost var kept := pairs[..n];
    keys := KeysOf(pairs, n);
    KeysAreElements(a, order, kept, keys);
  }

  lemma KeysAreElements(a: seq<Option<string>>, order: seq<Pairs>, kept: seq<Pairs>, keys: seq<string>)
    requires QsortOf(order, KeyPairs(a)) && kept == Firsts(order)
    requires |keys| == |kept| && forall m :: 0 <= m < |keys| ==> keys[m] == kept[m].key
    ensures SortedKeys(keys) && forall k :: k in keys <==> Some(k) in a
  {
    FirstsOfOrdered(order);
    forall k ensures k in keys <==> Some(k) in a {
      KeyPairsHas(a, k);
      KeyIsElement(KeyPairs(a), order, kept, keys, k);
    }
  }

  lemma KeyIsElement(a: seq<Pairs>, order: seq<Pairs>, kept: seq<Pairs>, keys: seq<string>, k: string)
    requires multiset(order) == multiset(a) && Represents(order, kept)
      && forall x <- a :: x == Pairs(x.key, None, false)
    requires |keys| == |kept| && forall m :: 0 <= m < |keys| ==> keys[m] == kept[m].key
    ensures k in keys <==> Pairs(k, None, false) in a
  {
    var x := Pairs(k, None, false);
    if x in a {
      assert x in multiset(order);
      assert Kept(x, kept);
      var n :| 0 <= n < |kept| && Stands(x, kept[n]);
      assert keys[n] == k;
    }
    if k in keys {
      var n :| 0 <= n < |keys| && keys[n] == k;
      assert kept[n] in kept && kept[n] in order && kept[n] in multiset(order);
    }
  }
}
