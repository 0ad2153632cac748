/**
 hstore values as mathematical objects: lists of key/value pairs in the order hstore
 keeps them, the finite map such a list denotes, and the merges of two lists.
 */
module HStorePairs {
  import opened Memcmp

  datatype Option<T> = None | Some(value: T)

  /** None is the SQL null, which differs from the empty string. */
  datatype Pair = Pair(key: string, val: Option<string>)

  // ----- the order of keys -----

  /** Shorter keys first, keys of one length by their bytes. */
  function KeyCmp(a: string, b: string): (r: int)
    ensures -1 <= r <= 1
  {
    if |a| == |b| then MemCmp(a, b) else if |a| > |b| then 1 else -1
  }

  /** The shorter key is the smaller, of two equally long ones the one with the smaller first differing byte. */
  lemma KeyCmpMeaning(a: string, b: string, d: nat)
    ensures |a| < |b| ==> KeyCmp(a, b) == -1
    ensures d < |a| == |b| && a[..d] == b[..d] && a[d] < b[d] ==> KeyCmp(a, b) == -1
  {
    if d < |a| == |b| && a[..d] == b[..d] { MemCmpMeaning(a, b, d); }
  }

  lemma KeyCmpOrder(a: string, b: string)
    ensures KeyCmp(a, b) == 0 <==> a == b
    ensures KeyCmp(b, a) == -KeyCmp(a, b)
  {
    if |a| == |b| { MemCmpOrder(a, b); }
  }

  lemma KeyCmpTransitive(a: string, b: string, c: string)
    requires KeyCmp(a, b) < 0 && KeyCmp(b, c) < 0
    ensures KeyCmp(a, c) < 0
  {
    if |a| == |b| == |c| { MemCmpTransitive(a, b, c); }
  }

  // ----- sorted lists of pairs -----

  /** The key is below every key of p. */
  ghost predicate Below(k: string, p: seq<Pair>) {
    forall i :: 0 <= i < |p| ==> KeyCmp(k, p[i].key) < 0
  }

  /** Keys strictly increasing. */
  ghost predicate Sorted(p: seq<Pair>)
    decreases |p|, 1
  {
    p == [] || SortedFrom(p)
  }

  ghost predicate SortedFrom(p: seq<Pair>)
    requires p != []
    decreases |p|, 0
  {
    Below(p[0].key, p[1..]) && Sorted(p[1..])
  }

  ghost predicate SortedKeys(ks: seq<string>) {
    forall i, j :: 0 <= i < j < |ks| ==> KeyCmp(ks[i], ks[j]) < 0
  }

  ghost predicate HasKey(p: seq<Pair>, k: string) {
    exists i :: 0 <= i < |p| && p[i].key == k
  }

  lemma BelowLess(j: string, k: string, p: seq<Pair>)
    requires KeyCmp(j, k) < 0 && Below(k, p)
    ensures Below(j, p)
  {
    forall i | 0 <= i < |p| ensures KeyCmp(j, p[i].key) < 0 {
      KeyCmpTransitive(j, k, p[i].key);
    }
  }

  lemma BelowNotKey(k: string, p: seq<Pair>)
    requires Below(k, p)
    ensures !HasKey(p, k)
  {
    KeyCmpOrder(k, k);
  }

  // ----- the map a list denotes -----

  ghost function MapOf(p: seq<Pair>): map<string, Option<string>> {
    if p == [] then map[] else MapOf(p[1..])[p[0].key := p[0].val]
  }

  lemma {:induction false} MapHas(p: seq<Pair>, k: string)
    ensures k in MapOf(p) <==> HasKey(p, k)
  {
    if p != [] {
      MapHas(p[1..], k);
      if HasKey(p[1..], k) {
        var i :| 0 <= i < |p| - 1 && p[1..][i].key == k;
        assert p[i+1].key == k;
      }
      if HasKey(p, k) && p[0].key != k {
        var i :| 0 <= i < |p| && p[i].key == k;
        assert p[1..][i-1].key == k;
      }
    }
  }

  // ----- the merges, as lists -----

  /** hstore_concat: the right operand wins for equal keys. */
  ghost function Concat(p: seq<Pair>, q: seq<Pair>): seq<Pair>
    decreases |p| + |q|
  {
    if p == [] then q
    else if q == [] then p
    else
      var c := KeyCmp(p[0].key, q[0].key);
      if c < 0 then [p[0]] + Concat(p[1..], q)
      else if c == 0 then [q[0]] + Concat(p[1..], q[1..])
      else [q[0]] + Concat(p, q[1..])
  }

  /** hstore_delete_array. */
  ghost function DeleteKeys(p: seq<Pair>, ks: seq<string>): seq<Pair>
    decreases |p| + |ks|
  {
    if p == [] then []
    else if ks == [] then p
    else
      var c := KeyCmp(p[0].key, ks[0]);
      if c > 0 then DeleteKeys(p, ks[1..])
      else if c == 0 then DeleteKeys(p[1..], ks[1..])
      else [p[0]] + DeleteKeys(p[1..], ks)
  }

  /** hstore_delete_hstore: a pair goes only if the other operand holds the same pair. */
  ghost function DeletePairs(p: seq<Pair>, q: seq<Pair>): seq<Pair>
    decreases |p| + |q|
  {
    if p == [] then []
    else if q == [] then p
    else
      var c := KeyCmp(p[0].key, q[0].key);
      if c > 0 then DeletePairs(p, q[1..])
      else if c == 0 then (if p[0].val != q[0].val then [p[0]] else []) + DeletePairs(p[1..], q[1..])
      else [p[0]] + DeletePairs(p[1..], q)
  }

  // ----- they stay sorted -----

  lemma SortedCons(x: Pair, p: seq<Pair>)
    requires Sorted(p) && Below(x.key, p)
    ensures Sorted([x] + p)
  {
    assert ([x] + p)[1..] == p;
  }

  lemma BelowCons(k: string, x: Pair, p: seq<Pair>)
    requires KeyCmp(k, x.key) < 0 && Below(k, p)
    ensures Below(k, [x] + p)
  {
  }

  lemma BelowParts(k: string, p: seq<Pair>)
    requires p != []
    ensures Below(k, p) <==> KeyCmp(k, p[0].key) < 0 && Below(k, p[1..])
  {
    if KeyCmp(k, p[0].key) < 0 && Below(k, p[1..]) {
      BelowCons(k, p[0], p[1..]);
      assert p == [p[0]] + p[1..];
    }
  }

  lemma {:induction false} ConcatBelow(k: string, p: seq<Pair>, q: seq<Pair>)
    requires Below(k, p) && Below(k, q)
    ensures Below(k, Concat(p, q))
    decreases |p| + |q|
  {
    if p != [] && q != [] {
      BelowParts(k, p);
      BelowParts(k, q);
      var c := KeyCmp(p[0].key, q[0].key);
      if c < 0 {
        ConcatBelow(k, p[1..], q);
      } else if c == 0 {
        ConcatBelow(k, p[1..], q[1..]);
      } else {
        ConcatBelow(k, p, q[1..]);
      }
    }
  }

  lemma {:induction false} ConcatSorted(p: seq<Pair>, q: seq<Pair>)
    requires Sorted(p) && Sorted(q)
    ensures Sorted(Concat(p, q))
    decreases |p| + |q|
  {
    if p != [] && q != [] {
      var a, b := p[0].key, q[0].key;
      KeyCmpOrder(a, b);
      var c := KeyCmp(a, b);
      if c < 0 {
        ConcatSorted(p[1..], q);
        BelowLess(a, b, q[1..]);
        BelowParts(a, q);
        ConcatBelow(a, p[1..], q);
        SortedCons(p[0], Concat(p[1..], q));
      } else if c == 0 {
        ConcatSorted(p[1..], q[1..]);
        ConcatBelow(b, p[1..], q[1..]);
        SortedCons(q[0], Concat(p[1..], q[1..]));
      } else {
        ConcatSorted(p, q[1..]);
        BelowLess(b, a, p[1..]);
        BelowParts(b, p);
        ConcatBelow(b, p, q[1..]);
        SortedCons(q[0], Concat(p, q[1..]));
      }
    }
  }

  /** A key below the first key of a sorted list is below all, and not in the map. */
  lemma LowerNotIn(k: string, p: seq<Pair>)
    requires Sorted(p) && (p != [] ==> KeyCmp(k, p[0].key) < 0)
    ensures Below(k, p) && k !in MapOf(p)
  {
    if p != [] {
      BelowLess(k, p[0].key, p[1..]);
      BelowParts(k, p);
    }
    BelowNotKey(k, p);
    MapHas(p, k);
  }

  /** hstore_concat is map override. */
  lemma {:induction false} ConcatIsOverride(p: seq<Pair>, q: seq<Pair>)
    requires Sorted(p) && Sorted(q)
    ensures MapOf(Concat(p, q)) == MapOf(p) + MapOf(q)
    decreases |p| + |q|
  {
    if p != [] && q != [] {
      var a, b := p[0].key, q[0].key;
      KeyCmpOrder(a, b);
      var c := KeyCmp(a, b);
      if c < 0 {
        ConcatIsOverride(p[1..], q);
        assert Concat(p, q)[1..] == Concat(p[1..], q);
        LowerNotIn(a, q);
        OverrideOthers(MapOf(p[1..]), MapOf(q), a, p[0].val);
      } else if c == 0 {
        ConcatIsOverride(p[1..], q[1..]);
        assert Concat(p, q)[1..] == Concat(p[1..], q[1..]);
        OverrideBoth(MapOf(p[1..]), MapOf(q[1..]), a, p[0].val, q[0].val);
      } else {
        ConcatIsOverride(p, q[1..]);
        assert Concat(p, q)[1..] == Concat(p, q[1..]);
        OverrideNew(MapOf(p), MapOf(q[1..]), b, q[0].val);
      }
    }
  }

  lemma OverrideOthers<V>(m: map<string, V>, n: map<string, V>, k: string, v: V)
    requires k !in n
    ensures m[k := v] + n == (m + n)[k := v]
  {
  }

  lemma OverrideBoth<V>(m: map<string, V>, n: map<string, V>, k: string, v: V, w: V)
    ensures m[k := v] + n[k := w] == (m + n)[k := w]
  {
  }

  lemma OverrideNew<V>(m: map<string, V>, n: map<string, V>, k: string, v: V)
    ensures m + n[k := v] == (m + n)[k := v]
  {
  }

  ghost function KeySet(ks: seq<string>): set<string> { set k | k in ks }

  lemma {:induction false} DeleteKeysBelow(k: string, p: seq<Pair>, ks: seq<string>)
    requires Below(k, p)
    ensures Below(k, DeleteKeys(p, ks))
    decreases |p| + |ks|
  {
    if p != [] && ks != [] {
      BelowParts(k, p);
      var c := KeyCmp(p[0].key, ks[0]);
      if c > 0 {
        DeleteKeysBelow(k, p, ks[1..]);
      } else if c == 0 {
        DeleteKeysBelow(k, p[1..], ks[1..]);
      } else {
        DeleteKeysBelow(k, p[1..], ks);
      }
    }
  }

  lemma {:induction false} DeleteKeysSorted(p: seq<Pair>, ks: seq<string>)
    requires Sorted(p)
    ensures Sorted(DeleteKeys(p, ks))
    decreases |p| + |ks|
  {
    if p != [] && ks != [] {
      var c := KeyCmp(p[0].key, ks[0]);
      if c > 0 {
        DeleteKeysSorted(p, ks[1..]);
      } else if c == 0 {
        DeleteKeysSorted(p[1..], ks[1..]);
      } else {
        DeleteKeysSorted(p[1..], ks);
        DeleteKeysBelow(p[0].key, p[1..], ks);
        SortedCons(p[0], DeleteKeys(p[1..], ks));
      }
    }
  }

  lemma LowerNotAmong(k: string, ks: seq<string>)
    requires SortedKeys(ks) && (ks != [] ==> KeyCmp(k, ks[0]) < 0)
    ensures k !in ks
  {
    forall i | 0 <= i < |ks| ensures ks[i] != k {
      if i > 0 { KeyCmpTransitive(k, ks[0], ks[i]); }
      KeyCmpOrder(k, k);
    }
  }

  /** hstore_delete_array removes the keys, and nothing else. */
  lemma {:induction false} DeleteKeysIsRemoval(p: seq<Pair>, ks: seq<string>)
    requires Sorted(p) && SortedKeys(ks)
    ensures MapOf(DeleteKeys(p, ks)) == MapOf(p) - KeySet(ks)
    decreases |p| + |ks|
  {
    if ks == [] {
      assert KeySet(ks) == {};
    } else if p != [] {
      var a, b := p[0].key, ks[0];
      KeyCmpOrder(a, b);
      var c := KeyCmp(a, b);
      assert KeySet(ks) == {b} + KeySet(ks[1..]) by { assert ks == [b] + ks[1..]; }
      if c > 0 {
        DeleteKeysIsRemoval(p, ks[1..]);
        LowerNotIn(b, p);
        RemoveAbsent(MapOf(p), KeySet(ks[1..]), b);
      } else if c == 0 {
        DeleteKeysIsRemoval(p[1..], ks[1..]);
        LowerNotIn(a, p[1..]);
        RemoveAdded(MapOf(p[1..]), KeySet(ks[1..]), a, p[0].val);
      } else {
        DeleteKeysIsRemoval(p[1..], ks);
        assert DeleteKeys(p, ks)[1..] == DeleteKeys(p[1..], ks);
        LowerNotAmong(a, ks);
        RemoveOthers(MapOf(p[1..]), KeySet(ks), a, p[0].val);
      }
    }
  }

  lemma RemoveAbsent<V>(m: map<string, V>, ks: set<string>, k: string)
    requires k !in m
    ensures m - ({k} + ks) == m - ks
  {
  }

  lemma RemoveAdded<V>(m: map<string, V>, ks: set<string>, k: string, v: V)
    requires k !in m
    ensures m[k := v] - ({k} + ks) == m - ks
  {
  }

  lemma RemoveOthers<V>(m: map<string, V>, ks: set<string>, k: string, v: V)
    requires k !in ks
    ensures m[k := v] - ks == (m - ks)[k := v]
  {
  }

  lemma {:induction false} DeletePairsBelow(k: string, p: seq<Pair>, q: seq<Pair>)
    requires Below(k, p)
    ensures Below(k, DeletePairs(p, q))
    decreases |p| + |q|
  {
    if p != [] && q != [] {
      BelowParts(k, p);
      var c := KeyCmp(p[0].key, q[0].key);
      if c > 0 {
        DeletePairsBelow(k, p, q[1..]);
      } else if c == 0 {
        DeletePairsBelow(k, p[1..], q[1..]);
      } else {
        DeletePairsBelow(k, p[1..], q);
      }
    }
  }

  lemma {:induction false} DeletePairsSorted(p: seq<Pair>, q: seq<Pair>)
    requires Sorted(p)
    ensures Sorted(DeletePairs(p, q))
    decreases |p| + |q|
  {
    if p != [] && q != [] {
      var c := KeyCmp(p[0].key, q[0].key);
      if c > 0 {
        DeletePairsSorted(p, q[1..]);
      } else if c == 0 {
        DeletePairsSorted(p[1..], q[1..]);
        DeletePairsBelow(p[0].key, p[1..], q[1..]);
        SortedCons(p[0], DeletePairs(p[1..], q[1..]));
        assert [] + DeletePairs(p[1..], q[1..]) == DeletePairs(p[1..], q[1..]);
      } else {
        DeletePairsSorted(p[1..], q);
        DeletePairsBelow(p[0].key, p[1..], q);
        SortedCons(p[0], DeletePairs(p[1..], q));
      }
    }
  }

  /** The pairs of m that are not pairs of n. */
  ghost function PairsWithout(m: map<string, Option<string>>, n: map<string, Option<string>>)
    : map<string, Option<string>>
  {
    map k | k in m && !(k in n && n[k] == m[k]) :: m[k]
  }

  /** hstore_delete_hstore removes the pairs both operands hold, and nothing else. */
  lemma {:induction false} DeletePairsIsRemoval(p: seq<Pair>, q: seq<Pair>)
    requires Sorted(p) && Sorted(q)
    ensures MapOf(DeletePairs(p, q)) == PairsWithout(MapOf(p), MapOf(q))
    decreases |p| + |q|
  {
    if p != [] && q != [] {
      var a, b := p[0].key, q[0].key;
      KeyCmpOrder(a, b);
      var c := KeyCmp(a, b);
      if c > 0 {
        DeletePairsIsRemoval(p, q[1..]);
        LowerNotIn(b, p);
        WithoutAbsent(MapOf(p), MapOf(q[1..]), b, q[0].val);
      } else if c == 0 {
        DeletePairsIsRemoval(p[1..], q[1..]);
        LowerNotIn(a, p[1..]);
        LowerNotIn(a, q[1..]);
        var rest := DeletePairs(p[1..], q[1..]);
        assert ([p[0]] + rest)[1..] == rest && [] + rest == rest;
        WithoutBoth(MapOf(p[1..]), MapOf(q[1..]), a, p[0].val, q[0].val);
      } else {
        DeletePairsIsRemoval(p[1..], q);
        assert DeletePairs(p, q)[1..] == DeletePairs(p[1..], q);
        LowerNotIn(a, q);
        WithoutOthers(MapOf(p[1..]), MapOf(q), a, p[0].val);
      }
    }
  }

  lemma WithoutAbsent(m: map<string, Option<string>>, n: map<string, Option<string>>, k: string, v: Option<string>)
    requires k !in m
    ensures PairsWithout(m, n[k := v]) == PairsWithout(m, n)
  {
  }

  lemma WithoutBoth(m: map<string, Option<string>>, n: map<string, Option<string>>, k: string, v: Option<string>,
                    w: Option<string>)
    requires k !in m && k !in n
    ensures PairsWithout(m[k := v], n[k := w]) == if v != w then PairsWithout(m, n)[k := v] else PairsWithout(m, n)
  {
  }

  lemma WithoutOthers(m: map<string, Option<string>>, n: map<string, Option<string>>, k: string, v: Option<string>)
    requires k !in n
    ensures PairsWithout(m[k := v], n) == PairsWithout(m, n)[k := v]
  {
  }

  lemma EmptyMap(p: seq<Pair>)
    ensures MapOf(p) == map[] <==> p == []
  {
    if p != [] { assert p[0].key in MapOf(p); }
  }

  /** A map has one sorted list only. */
  lemma {:induction false} SortedUnique(p: seq<Pair>, q: seq<Pair>)
    requires Sorted(p) && Sorted(q) && MapOf(p) == MapOf(q)
    ensures p == q
  {
    EmptyMap(p);
    EmptyMap(q);
    if p != [] {
      var a, b := p[0].key, q[0].key;
      assert a in MapOf(p) && b in MapOf(q);
      KeyCmpOrder(a, b);
      if KeyCmp(a, b) < 0 { LowerNotIn(a, q); }
      if KeyCmp(b, a) < 0 { LowerNotIn(b, p); }
      LowerNotIn(a, p[1..]);
      LowerNotIn(a, q[1..]);
      assert MapOf(p[1..]) == MapOf(p) - {a} && MapOf(q[1..]) == MapOf(q) - {a};
      assert p[0].val == MapOf(p)[a] == MapOf(q)[a] == q[0].val;
      SortedUnique(p[1..], q[1..]);
      assert p == [p[0]] + p[1..] && q == [q[0]] + q[1..];
    }
  }

  // ----- sorted lists by index -----

  lemma {:induction false} SortedAt(p: seq<Pair>, i: nat, j: nat)
    requires Sorted(p) && i < j < |p|
    ensures KeyCmp(p[i].key, p[j].key) < 0
  {
    if i == 0 {
      assert p[1..][j-1] == p[j];
    } else {
      SortedAt(p[1..], i - 1, j - 1);
    }
  }

  lemma {:induction false} SortedByIndex(p: seq<Pair>)
    requires forall i, j :: 0 <= i < j < |p| ==> KeyCmp(p[i].key, p[j].key) < 0
    ensures Sorted(p)
  {
    if p != [] {
      var q := p[1..];
      assert forall i :: 0 <= i < |q| ==> q[i] == p[i+1];
      SortedByIndex(q);
    }
  }

  /** Item i of a sorted list is what the map holds under its key. */
  lemma {:induction false} MapAt(p: seq<Pair>, i: nat)
    requires Sorted(p) && i < |p|
    ensures p[i].key in MapOf(p) && MapOf(p)[p[i].key] == p[i].val
  {
    if i > 0 {
      MapAt(p[1..], i - 1);
      SortedAt(p, 0, i);
      KeyCmpOrder(p[0].key, p[i].key);
    }
  }
}
