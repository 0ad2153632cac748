/**
 The operators of hstore_op.c whose second operand is an array of keys: the array is turned
 into sorted keys first, whatever qsort does, and nulls in it are ignored.
 */
module HStoreArrays {
  import opened HStorePairs
  import opened HStoreLayout
  import opened HStoreOps
  import opened HStoreUnique
  import opened HStoreFind

  /** hstore_exists_any. */
  method HStoreExistsAny(hs: HStore, keys: seq<Option<string>>, order: seq<Pairs>, ghost p: seq<Pair>)
    returns (res: bool)
    requires Packed(hs, p) && QsortOf(order, KeyPairs(keys))
    ensures res <==> exists k :: Some(k) in keys && k in MapOf(p)
  {
    var ks := ArrayToPairs(keys, order);
    res := ExistsAnySorted(hs, ks, p);
    assert forall k :: k in ks <==> Some(k) in keys;
  }

  /** hstore_exists_all. */
  method HStoreExistsAll(hs: HStore, keys: seq<Option<string>>, order: seq<Pairs>, ghost p: seq<Pair>)
    returns (res: bool)
    requires Packed(hs, p) && QsortOf(order, KeyPairs(keys))
    ensures res <==> forall k :: Some(k) in keys ==> k in MapOf(p)
  {
    var ks := ArrayToPairs(keys, order);
    res := ExistsAllSorted(hs, ks, p);
    assert forall k :: k in ks <==> Some(k) in keys;
  }

  /** hstore_delete_array: exactly the keys of the array are gone. */
  method HStoreDeleteArray(hs: HStore, keys: seq<Option<string>>, order: seq<Pairs>, ghost p: seq<Pair>)
    returns (out: array<Cell>, ghost r: seq<Pair>)
    requires Packed(hs, p) && QsortOf(order, KeyPairs(keys))
    ensures fresh(out) && Packed(Pack(r), r) && Stored(out[..], Pack(r))
    ensures MapOf(r) == map k | k in MapOf(p) && Some(k) !in keys :: MapOf(p)[k]
  {
    var ks := ArrayToPairs(keys, order);
    out, r := DeleteSorted(hs, ks, p);
    assert MapOf(r) == map k | k in MapOf(p) && Some(k) !in keys :: MapOf(p)[k] by {
      assert forall k :: k in KeySet(ks) <==> Some(k) in keys;
    }
  }

  /** hstore_slice_to_hstore: the part of the map on the keys of the array. */
  method HStoreSlice(hs: HStore, keys: seq<Option<string>>, order: seq<Pairs>, ghost p: seq<Pair>)
    returns (out: Option<array<Cell>>, ghost r: seq<Pair>)
    requires Packed(hs, p) && QsortOf(order, KeyPairs(keys))
    ensures Sorted(r) && MapOf(r) == map k | k in MapOf(p) && Some(k) in keys :: MapOf(p)[k]
    ensures out.Some? ==> fresh(out.value) && Packed(Pack(r), r) && Stored(out.value[..], Pack(r))
    ensures out.None? <==> Pack(r).size > 0x3fff_ffff
  {
    var ks := ArrayToPairs(keys, order);
    out, r := SliceSorted(hs, ks, p);
    assert MapOf(r) == map k | k in MapOf(p) && Some(k) in keys :: MapOf(p)[k] by {
      assert forall k :: k in ks <==> Some(k) in keys;
    }
  }
}
