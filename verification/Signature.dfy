/**
 Bit signatures as index keys: _intbig_gist.c.  A signature has SIGLEN bytes; an integer
 is hashed to one of its bits.
 */
module Signature {
  import opened BoolQuery
  import opened IntGist

  const SIGLEN: nat := 252
  const SIGLENBIT: nat := 2016

  // ----- one byte -----

  function SetBitOf(b: bv8, i: nat): bv8
    requires i < 8
  {
    b | (1 << i)
  }

  predicate BitOf(b: bv8, i: nat)
    requires i < 8
  {
    (b >> i) & 1 == 1
  }

  lemma SetThenGet(b: bv8, i: nat, j: nat)
    requires i < 8 && j < 8
    ensures BitOf(SetBitOf(b, i), j) <==> i == j || BitOf(b, j)
  {
    // by cases, so that each leaves few shift distances
    if i < 4 {
      if j < 4 { } else { }
    } else {
      if j < 4 { } else { }
    }
  }

  lemma ZeroThenGet(j: nat)
    requires j < 8
    ensures !BitOf(0, j)
  {
  }

  lemma OnesThenGet(j: nat)
    requires j < 8
    ensures BitOf(0xff, j)
  {
  }

  /** A byte with a bit outside b has one that b lacks. */
  lemma OutsideThenGet(a: bv8, b: bv8, j: nat)
    requires j < 8 && a & !b == 0
    ensures BitOf(a, j) ==> BitOf(b, j)
  {
  }

  // ----- signatures -----

  predicate IsSign(s: seq<bv8>) { |s| == SIGLEN }

  /** GETBIT. */
  predicate GetBit(s: seq<bv8>, n: nat)
    requires IsSign(s) && n < SIGLENBIT
  {
    BitOf(s[n/8], n % 8)
  }

  /** HASHVAL: the value as an unsigned 32-bit integer, modulo the number of bits. */
  function HashVal(v: int): (n: nat)
    ensures n < SIGLENBIT
  {
    (v % 0x1_0000_0000) % SIGLENBIT
  }

  /** GISTTYPE: the flag ALLISTRUE, or the bits. */
  datatype Key = AllTrue | Sign(bits: seq<bv8>)

  predicate IsKey(k: Key) { k.Sign? ==> IsSign(k.bits) }

  predicate KeyBit(k: Key, n: nat)
    requires IsKey(k) && n < SIGLENBIT
  {
    k.AllTrue? || GetBit(k.bits, n)
  }

  /** Is the bit of v set? */
  predicate KeyHas(k: Key, v: int)
    requires IsKey(k)
  {
    KeyBit(k, HashVal(v))
  }

  /** HASH: set the bit of v. */
  method Hash(sign: array<bv8>, v: int)
    requires sign.Length == SIGLEN
    modifies sign
    ensures forall n :: 0 <= n < SIGLENBIT ==> GetBit(sign[..], n) == (GetBit(old(sign[..]), n) || n == HashVal(v))
  {
    var h := HashVal(v);
    ghost var s := sign[..];
    sign[h/8] := SetBitOf(sign[h/8], h % 8);
    forall n: nat | n < SIGLENBIT ensures GetBit(sign[..], n) == (GetBit(s, n) || n == h) {
      if n / 8 == h / 8 { SetThenGet(s[h/8], h % 8, n % 8); }
    }
  }

  /** Some value among the first k of vs hashes to n. */
  ghost predicate Hashed(vs: seq<int>, k: nat, n: nat)
    requires k <= |vs|
  {
    exists i :: 0 <= i < k && HashVal(vs[i]) == n
  }

  /** Start from a zeroed vector and hash every value. */
  method MakeSign(vs: seq<int>) returns (bits: seq<bv8>)
    ensures IsSign(bits) && forall n :: 0 <= n < SIGLENBIT ==> GetBit(bits, n) == Hashed(vs, |vs|, n)
  {
    var sign := new bv8[SIGLEN](_ => 0);
    forall n: nat | n < SIGLENBIT ensures !GetBit(sign[..], n) { ZeroThenGet(n % 8); }
    var i := 0;
    while i < |vs|
      invariant 0 <= i <= |vs|
      invariant forall n :: 0 <= n < SIGLENBIT ==> GetBit(sign[..], n) == Hashed(vs, i, n)
    {
      Hash(sign, vs[i]);
      HashedNext(vs, i);
      i := i + 1;
    }
    bits := sign[..];
    assert i == |vs|;
  }

  lemma HashedNext(vs: seq<int>, k: nat)
    requires k < |vs|
    ensures forall n :: Hashed(vs, k + 1, n) <==> Hashed(vs, k, n) || n == HashVal(vs[k])
  {
    forall n: nat ensures Hashed(vs, k + 1, n) <==> Hashed(vs, k, n) || n == HashVal(vs[k]) {
      if Hashed(vs, k + 1, n) {
        var i :| 0 <= i < k + 1 && HashVal(vs[i]) == n;
        assert i < k ==> Hashed(vs, k, n);
      }
      if Hashed(vs, k, n) {
        var i :| 0 <= i < k && HashVal(vs[i]) == n;
        assert i < k + 1;
      }
    }
  }

  /** g_intbig_compress for a leaf. */
  method CompressLeaf(vs: seq<int>) returns (key: Key)
    ensures key.Sign? && IsKey(key)
    ensures forall n :: 0 <= n < SIGLENBIT ==> KeyBit(key, n) == Hashed(vs, |vs|, n)
  {
    var bits := MakeSign(vs);
    key := Sign(bits);
  }

  /** g_intbig_compress for an inner key: all bits set becomes the flag. */
  method CompressInner(key: Key) returns (r: Key)
    requires IsKey(key)
    ensures IsKey(r) && forall n :: 0 <= n < SIGLENBIT ==> KeyBit(r, n) == KeyBit(key, n)
  {
    if key.AllTrue? { return key; }
    var i := 0;
    while i < SIGLEN
      invariant 0 <= i <= SIGLEN && forall k :: 0 <= k < i ==> key.bits[k] == 0xff
    {
      if key.bits[i] != 0xff { return key; }
      i := i + 1;
    }
    forall n: nat | n < SIGLENBIT ensures KeyBit(key, n) { OnesThenGet(n % 8); }
    r := AllTrue;
  }

  /** unionkey: or the bits into sbase, unless the key has the flag. */
  method UnionKey(sbase: array<bv8>, add: Key) returns (allTrue: bool)
    requires sbase.Length == SIGLEN && IsKey(add)
    modifies sbase
    ensures allTrue == add.AllTrue?
    ensures !allTrue ==> forall n :: 0 <= n < SIGLENBIT ==>
      GetBit(sbase[..], n) == (GetBit(old(sbase[..]), n) || KeyBit(add, n))
  {
    if add.AllTrue? { return true; }
    ghost var s := sbase[..];
    var i := 0;
    while i < SIGLEN
      invariant 0 <= i <= SIGLEN
      invariant forall k {:trigger sbase[k]} :: 0 <= k < SIGLEN ==>
        sbase[k] == if k < i then s[k] | add.bits[k] else s[k]
    {
      sbase[i] := sbase[i] | add.bits[i];
      i := i + 1;
    }
    forall n: nat | n < SIGLENBIT ensures GetBit(sbase[..], n) == (GetBit(s, n) || KeyBit(add, n)) {
    }
    allTrue := false;
  }

  /** One of the first k keys has bit n. */
  ghost predicate SomeBit(keys: seq<Key>, k: nat, n: nat)
    requires k <= |keys| && n < SIGLENBIT && forall i :: 0 <= i < |keys| ==> IsKey(keys[i])
  {
    exists i :: 0 <= i < k && KeyBit(keys[i], n)
  }

  /** g_intbig_union. */
  method GIntbigUnion(entries: seq<Key>) returns (key: Key)
    requires forall i :: 0 <= i < |entries| ==> IsKey(entries[i])
    ensures IsKey(key) && forall n :: 0 <= n < SIGLENBIT ==> KeyBit(key, n) == SomeBit(entries, |entries|, n)
  {
    var base := new bv8[SIGLEN](_ => 0);
    forall n: nat | n < SIGLENBIT ensures !GetBit(base[..], n) { ZeroThenGet(n % 8); }
    var i := 0;
    while i < |entries|
      invariant 0 <= i <= |entries|
      invariant forall n :: 0 <= n < SIGLENBIT ==> GetBit(base[..], n) == SomeBit(entries, i, n)
    {
      var allTrue := UnionKey(base, entries[i]);
      if allTrue {
        assert forall n: nat :: n < SIGLENBIT ==> KeyBit(entries[i], n);
        return AllTrue;
      }
      SomeBitNext(entries, i);
      i := i + 1;
    }
    key := Sign(base[..]);
  }

  lemma SomeBitNext(keys: seq<Key>, k: nat)
    requires k < |keys| && forall i :: 0 <= i < |keys| ==> IsKey(keys[i])
    ensures forall n :: 0 <= n < SIGLENBIT ==> SomeBit(keys, k + 1, n) == (SomeBit(keys, k, n) || KeyBit(keys[k], n))
  {
  }

  // ----- consistency -----

  method IntbigOverlap(a: Key, b: seq<int>) returns (r: bool)
    requires IsKey(a) && a.Sign?
    ensures r <==> exists i :: 0 <= i < |b| && KeyHas(a, b[i])
  {
    var i := 0;
    while i < |b|
      invariant 0 <= i <= |b| && forall k :: 0 <= k < i ==> !KeyHas(a, b[k])
    {
      if GetBit(a.bits, HashVal(b[i])) { return true; }
      i := i + 1;
    }
    r := false;
  }

  method IntbigContains(a: Key, b: seq<int>) returns (r: bool)
    requires IsKey(a) && a.Sign?
    ensures r <==> forall i :: 0 <= i < |b| ==> KeyHas(a, b[i])
  {
    var i := 0;
    while i < |b|
      invariant 0 <= i <= |b| && forall k :: 0 <= k < i ==> KeyHas(a, b[k])
    {
      if !GetBit(a.bits, HashVal(b[i])) { return false; }
      i := i + 1;
    }
    r := true;
  }

  /** What a signature can tell about a search. */
  ghost predicate MaySign(s: Search, key: Key, leaf: bool)
    requires IsKey(key)
  {
    key.AllTrue? ||
    match s.strategy
    case Overlap => exists i :: 0 <= i < |s.keys| && KeyHas(key, s.keys[i])
    case Same =>
      if leaf then forall n :: 0 <= n < SIGLENBIT ==> KeyBit(key, n) == Hashed(s.keys, |s.keys|, n)
      else forall i :: 0 <= i < |s.keys| ==> KeyHas(key, s.keys[i])
    case Contains => forall i :: 0 <= i < |s.keys| ==> KeyHas(key, s.keys[i])
    case ContainedBy =>
      if leaf then forall n :: 0 <= n < SIGLENBIT ==> KeyBit(key, n) ==> Hashed(s.keys, |s.keys|, n)
      else exists i :: 0 <= i < |s.keys| && KeyHas(key, s.keys[i])
    case BooleanSearch => EvalLossy(s.q, (v: int) => KeyHas(key, v))
    case Unknown => false
  }

  /** g_intbig_consistent answers yes exactly when the signature leaves the search open. */
  method GIntbigConsistent(key: Key, s: Search, leaf: bool) returns (retval: bool)
    requires IsKey(key) && WellFormed(s)
    ensures retval <==> MaySign(s, key, leaf)
    ensures key.AllTrue? ==> retval
    ensures key.Sign? && OnSets(s) ==> (retval <==> if leaf then SomeLeaf(s, key) else SomeBelow(s, key))
  {
    if key.Sign? && OnSets(s) { SignPrecise(s, key); }
    if key.AllTrue? { return true; }
    match s.strategy {
      case BooleanSearch =>
        SignAnswers(s.items, key, s.q);
        retval := Execute(s.items, |s.items| - 1, InSign(s.items, key), false);
      case Overlap => retval := IntbigOverlap(key, s.keys);
      case Same =>
        if leaf {
          retval := SignSame(key.bits, s.keys);
        } else {
          retval := IntbigContains(key, s.keys);
        }
      case Contains => retval := IntbigContains(key, s.keys);
      case ContainedBy =>
        if leaf {
          retval := SignWithin(key.bits, s.keys);
        } else {
          retval := IntbigOverlap(key, s.keys);
        }
      case Unknown => retval := false;
    }
  }

  /** Compare a leaf signature with that of the query, byte by byte. */
  method SignSame(de: seq<bv8>, vs: seq<int>) returns (r: bool)
    requires IsSign(de)
    ensures r <==> forall n :: 0 <= n < SIGLENBIT ==> GetBit(de, n) == Hashed(vs, |vs|, n)
  {
    var dq := MakeSign(vs);
    var i := 0;
    while i < SIGLEN
      invariant 0 <= i <= SIGLEN && forall k :: 0 <= k < i ==> de[k] == dq[k]
    {
      if de[i] != dq[i] {
        ByteDiffers(de, dq, i);
        return false;
      }
      i := i + 1;
    }
    r := true;
  }

  /** Is every bit of a leaf signature in that of the query? */
  method SignWithin(de: seq<bv8>, vs: seq<int>) returns (r: bool)
    requires IsSign(de)
    ensures r <==> forall n :: 0 <= n < SIGLENBIT ==> GetBit(de, n) ==> Hashed(vs, |vs|, n)
  {
    var dq := MakeSign(vs);
    var i := 0;
    while i < SIGLEN
      invariant 0 <= i <= SIGLEN && forall k :: 0 <= k < i ==> de[k] & !dq[k] == 0
    {
      if de[i] & !dq[i] != 0 {
        ByteOutside(de, dq, i);
        return false;
      }
      i := i + 1;
    }
    forall n: nat | n < SIGLENBIT ensures GetBit(de, n) ==> GetBit(dq, n) {
      OutsideThenGet(de[n/8], dq[n/8], n % 8);
    }
    r := true;
  }

  /** Bytes that differ differ in a bit. */
  lemma ByteBits(a: bv8, b: bv8)
    ensures a != b ==> exists j :: 0 <= j < 8 && BitOf(a, j) != BitOf(b, j)
    ensures a & !b != 0 ==> exists j :: 0 <= j < 8 && BitOf(a, j) && !BitOf(b, j)
  {
    if a != b {
      assert BitOf(a, 0) != BitOf(b, 0) || BitOf(a, 1) != BitOf(b, 1)
          || BitOf(a, 2) != BitOf(b, 2) || BitOf(a, 3) != BitOf(b, 3)
          || BitOf(a, 4) != BitOf(b, 4) || BitOf(a, 5) != BitOf(b, 5)
          || BitOf(a, 6) != BitOf(b, 6) || BitOf(a, 7) != BitOf(b, 7);
    }
    if a & !b != 0 {
      assert (BitOf(a, 0) && !BitOf(b, 0)) || (BitOf(a, 1) && !BitOf(b, 1))
          || (BitOf(a, 2) && !BitOf(b, 2)) || (BitOf(a, 3) && !BitOf(b, 3))
          || (BitOf(a, 4) && !BitOf(b, 4)) || (BitOf(a, 5) && !BitOf(b, 5))
          || (BitOf(a, 6) && !BitOf(b, 6)) || (BitOf(a, 7) && !BitOf(b, 7));
    }
  }

  lemma ByteDiffers(de: seq<bv8>, dq: seq<bv8>, i: nat)
    requires IsSign(de) && IsSign(dq) && i < SIGLEN && de[i] != dq[i]
    ensures exists n :: 0 <= n < SIGLENBIT && GetBit(de, n) != GetBit(dq, n)
  {
    ByteBits(de[i], dq[i]);
    var j :| 0 <= j < 8 && BitOf(de[i], j) != BitOf(dq[i], j);
    var n := 8 * i + j;
    assert n / 8 == i && n % 8 == j;
    assert GetBit(de, n) != GetBit(dq, n);
  }

  lemma ByteOutside(de: seq<bv8>, dq: seq<bv8>, i: nat)
    requires IsSign(de) && IsSign(dq) && i < SIGLEN && de[i] & !dq[i] != 0
    ensures exists n :: 0 <= n < SIGLENBIT && GetBit(de, n) && !GetBit(dq, n)
  {
    ByteBits(de[i], dq[i]);
    var j :| 0 <= j < 8 && BitOf(de[i], j) && !BitOf(dq[i], j);
    var n := 8 * i + j;
    assert n / 8 == i && n % 8 == j;
    assert GetBit(de, n) && !GetBit(dq, n);
  }

  /** checkcondition_bit: the answer of a signature for an item. */
  function InSign(items: seq<Item>, key: Key): nat -> bool
    requires IsKey(key)
  {
    (k: nat) => if k < |items| then KeyHas(key, items[k].val) else false
  }

  lemma SignAnswers(items: seq<Item>, key: Key, q: Query)
    requires items == Exact(q) && WellLinked(items) && IsKey(key)
    ensures Execute(items, |items| - 1, InSign(items, key), false) == EvalLossy(q, (v: int) => KeyHas(key, v))
  {
    WholeArray(items, q, InSign(items, key), (v: int) => KeyHas(key, v));
  }

  // ----- nothing is lost -----

  /** The bits of every value of the array are set. */
  ghost predicate Covers(key: Key, leaf: seq<int>)
    requires IsKey(key)
  {
    forall i :: 0 <= i < |leaf| ==> KeyHas(key, leaf[i])
  }

  /** The key made for the array itself. */
  ghost predicate IsLeafKey(key: Key, leaf: seq<int>)
    requires IsKey(key)
  {
    forall n :: 0 <= n < SIGLENBIT ==> KeyBit(key, n) == Hashed(leaf, |leaf|, n)
  }

  lemma SameHashed(a: seq<int>, b: seq<int>, n: nat)
    requires forall v :: v in a ==> v in b
    ensures Hashed(a, |a|, n) ==> Hashed(b, |b|, n)
  {
    if Hashed(a, |a|, n) {
      var i :| 0 <= i < |a| && HashVal(a[i]) == n;
      assert a[i] in a && a[i] in b;
    }
  }

  /** An array that matches passes the test on its own signature and on any that covers it. */
  lemma SignNeverLoses(s: Search, leaf: seq<int>, key: Key, atLeaf: bool)
    requires IsKey(key) && Covers(key, leaf) && (atLeaf ==> IsLeafKey(key, leaf))
    requires Matches(s, leaf) && (s.strategy == ContainedBy && !atLeaf ==> leaf != [])
    ensures MaySign(s, key, atLeaf)
  {
    match s.strategy
    case Overlap =>
      var v :| v in leaf && v in s.keys;
      ValueHas(key, leaf, v);
      var i :| 0 <= i < |s.keys| && s.keys[i] == v;
      assert KeyHas(key, s.keys[i]);
    case Same =>
      if atLeaf {
        forall n | 0 <= n < SIGLENBIT ensures KeyBit(key, n) == Hashed(s.keys, |s.keys|, n) {
          SameHashed(leaf, s.keys, n);
          SameHashed(s.keys, leaf, n);
        }
      } else {
        KeysHave(s, key, leaf);
      }
    case Contains => KeysHave(s, key, leaf);
    case ContainedBy =>
      if atLeaf {
        forall n | 0 <= n < SIGLENBIT && KeyBit(key, n) ensures Hashed(s.keys, |s.keys|, n) {
          SameHashed(leaf, s.keys, n);
        }
      } else {
        var v := leaf[0];
        assert v in leaf && KeyHas(key, v);
        var i :| 0 <= i < |s.keys| && s.keys[i] == v;
        assert KeyHas(key, s.keys[i]);
      }
    case BooleanSearch =>
      forall v | v in leaf ensures KeyHas(key, v) { ValueHas(key, leaf, v); }
      LossyNeverLoses(s.q, Has(leaf), (v: int) => KeyHas(key, v));
    case Unknown =>
  }

  /**
   For contained-by the page test asks for a common bit: of all arrays the condition is true
   of, exactly the empty one can be lost.
   */
  lemma SignContainedBySafeIffNonEmpty(s: Search, leaf: seq<int>)
    requires s.strategy == ContainedBy && Matches(s, leaf)
    ensures (forall key :: IsKey(key) && Covers(key, leaf) ==> MaySign(s, key, false)) <==> leaf != []
  {
    if leaf == [] {
      var none := Sign(seq(SIGLEN, _ => 0));
      assert IsKey(none) && Covers(none, leaf);
      forall i | 0 <= i < |s.keys| ensures !KeyHas(none, s.keys[i]) { ZeroThenGet(HashVal(s.keys[i]) % 8); }
      assert !MaySign(s, none, false);
    } else {
      forall key | IsKey(key) && Covers(key, leaf) ensures MaySign(s, key, false) {
        SignNeverLoses(s, leaf, key, false);
      }
    }
  }

  lemma ValueHas(key: Key, leaf: seq<int>, v: int)
    requires IsKey(key) && Covers(key, leaf) && v in leaf
    ensures KeyHas(key, v)
  {
    var i :| 0 <= i < |leaf| && leaf[i] == v;
  }

  lemma KeysHave(s: Search, key: Key, leaf: seq<int>)
    requires IsKey(key) && Covers(key, leaf) && forall v :: v in s.keys ==> v in leaf
    ensures forall i :: 0 <= i < |s.keys| ==> KeyHas(key, s.keys[i])
  {
    forall i | 0 <= i < |s.keys| ensures KeyHas(key, s.keys[i]) {
      assert s.keys[i] in s.keys;
      ValueHas(key, leaf, s.keys[i]);
    }
  }

  // ----- nothing is kept without a reason -----

  /** The first bits count for themselves. */
  lemma HashVals(v: int)
    ensures 0 <= v < 2016 ==> HashVal(v) == v
    ensures 0 <= v && v + 2016 < 0x1_0000_0000 ==> HashVal(v + 2016) == HashVal(v)
    ensures -0x8000_0000 <= v < 0 ==> HashVal(v) == HashVal(v + 0x1_0000_0000)
  {
  }

  /** The numbers of the bits below k that are set. */
  ghost function BitsOf(key: Key, k: nat): (l: seq<int>)
    requires IsKey(key) && k <= SIGLENBIT
    ensures forall v :: v in l <==> 0 <= v < k && KeyBit(key, v)
  {
    if k == 0 then [] else BitsOf(key, k - 1) + if KeyBit(key, k - 1) then [k-1] else []
  }

  /** The values whose bits are set. */
  ghost function Kept(key: Key, vs: seq<int>): (l: seq<int>)
    requires IsKey(key)
    ensures forall v :: v in l <==> v in vs && KeyHas(key, v)
  {
    if vs == [] then [] else (if KeyHas(key, vs[0]) then [vs[0]] else []) + Kept(key, vs[1..])
  }

  /** An array with every bit of the key in it, and the values asked for as far as the key allows. */
  ghost function Fullest(key: Key, vs: seq<int>): seq<int>
    requires IsKey(key)
  {
    BitsOf(key, SIGLENBIT) + Kept(key, vs)
  }

  lemma FullestIn(key: Key, vs: seq<int>, v: int)
    requires IsKey(key)
    ensures v in Fullest(key, vs) ==> KeyHas(key, v)
    ensures v in vs ==> (v in Fullest(key, vs) <==> KeyHas(key, v))
  {
    if v in BitsOf(key, SIGLENBIT) { HashVals(v); }
  }

  lemma FullestCovers(key: Key, vs: seq<int>)
    requires IsKey(key)
    ensures Covers(key, Fullest(key, vs))
  {
    var l := Fullest(key, vs);
    forall i | 0 <= i < |l| ensures KeyHas(key, l[i]) { FullestIn(key, vs, l[i]); }
  }

  lemma FullestHashes(key: Key, vs: seq<int>, n: nat)
    requires IsKey(key) && n < SIGLENBIT
    ensures var l := Fullest(key, vs); KeyBit(key, n) == Hashed(l, |l|, n)
  {
    var l := Fullest(key, vs);
    if KeyBit(key, n) {
      assert n in BitsOf(key, SIGLENBIT);
      ElementHashes(l, n);
    } else if Hashed(l, |l|, n) {
      var i :| 0 <= i < |l| && HashVal(l[i]) == n;
      FullestIn(key, vs, l[i]);
    }
  }

  lemma FullestFits(key: Key, vs: seq<int>)
    requires IsKey(key)
    ensures IsLeafKey(key, Fullest(key, vs))
  {
    var l := Fullest(key, vs);
    forall n | 0 <= n < SIGLENBIT ensures KeyBit(key, n) == Hashed(l, |l|, n) { FullestHashes(key, vs, n); }
  }

  lemma ElementHashes(l: seq<int>, n: nat)
    requires n < SIGLENBIT && n in l
    ensures Hashed(l, |l|, n)
  {
    HashVals(n);
    var i :| 0 <= i < |l| && l[i] == n;
    assert HashVal(l[i]) == n;
  }

  lemma LeafKeyCovers(key: Key, l: seq<int>)
    requires IsKey(key) && IsLeafKey(key, l)
    ensures Covers(key, l)
  {
    forall i | 0 <= i < |l| ensures KeyHas(key, l[i]) { assert Hashed(l, |l|, HashVal(l[i])); }
  }

  /** Some array that the key was made for, or may cover, meets the condition. */
  ghost predicate SomeLeaf(s: Search, key: Key)
    requires IsKey(key)
  {
    exists l :: IsLeafKey(key, l) && Matches(s, l)
  }

  ghost predicate SomeBelow(s: Search, key: Key)
    requires IsKey(key)
  {
    exists l :: Covers(key, l) && Matches(s, l) && (s.strategy == ContainedBy ==> l != [])
  }

  ghost predicate OnSets(s: Search) { s.strategy != BooleanSearch && s.strategy != Unknown }

  lemma KeptKeys(s: Search, key: Key)
    requires IsKey(key)
    ensures forall i :: 0 <= i < |s.keys| && KeyHas(key, s.keys[i]) ==> s.keys[i] in Fullest(key, s.keys)
  {
    forall i | 0 <= i < |s.keys| && KeyHas(key, s.keys[i]) ensures s.keys[i] in Fullest(key, s.keys) {
      FullestIn(key, s.keys, s.keys[i]);
    }
  }

  /** A yes at a leaf: some array with that signature matches. */
  lemma LeafYes(s: Search, key: Key)
    requires IsKey(key) && key.Sign? && OnSets(s) && MaySign(s, key, true)
    ensures SomeLeaf(s, key)
  {
    FullestFits(key, s.keys);
    KeptKeys(s, key);
    match s.strategy
    case Same => assert IsLeafKey(key, s.keys) && Matches(s, s.keys);
    case ContainedBy => KeptFits(key, s.keys);
    case Overlap => assert Matches(s, Fullest(key, s.keys));
    case Contains => assert Matches(s, Fullest(key, s.keys));
    case _ =>
  }

  /** If the query has all bits of the key, its values with bits in the key make the key. */
  lemma KeptFits(key: Key, vs: seq<int>)
    requires IsKey(key) && forall n :: 0 <= n < SIGLENBIT && KeyBit(key, n) ==> Hashed(vs, |vs|, n)
    ensures IsLeafKey(key, Kept(key, vs))
  {
    var l := Kept(key, vs);
    forall n | 0 <= n < SIGLENBIT ensures KeyBit(key, n) == Hashed(l, |l|, n) {
      if KeyBit(key, n) {
        var i :| 0 <= i < |vs| && HashVal(vs[i]) == n;
        assert vs[i] in vs && vs[i] in l;
        var j :| 0 <= j < |l| && l[j] == vs[i];
        assert HashVal(l[j]) == n;
      }
      if Hashed(l, |l|, n) {
        var j :| 0 <= j < |l| && HashVal(l[j]) == n;
        assert l[j] in l;
      }
    }
  }

  lemma PageYes(s: Search, key: Key)
    requires IsKey(key) && key.Sign? && OnSets(s) && MaySign(s, key, false)
    ensures SomeBelow(s, key)
  {
    var l := Kept(key, s.keys);
    assert Covers(key, l) by { assert forall i :: 0 <= i < |l| ==> l[i] in l; }
    forall i | 0 <= i < |s.keys| && KeyHas(key, s.keys[i]) ensures s.keys[i] in l { }
    assert Matches(s, l);
  }

  /**
   For the four set operators a signature answers yes exactly if it leaves the condition
   open: some array with just this signature meets it, or, on a page, some array whose
   bits are in the signature, the empty array not being one of them for contained-by.
   */
  lemma SignPrecise(s: Search, key: Key)
    requires IsKey(key) && key.Sign? && OnSets(s)
    ensures MaySign(s, key, true) <==> SomeLeaf(s, key)
    ensures MaySign(s, key, false) <==> SomeBelow(s, key)
  {
    if MaySign(s, key, true) { LeafYes(s, key); }
    if MaySign(s, key, false) { PageYes(s, key); }
    if l :| IsLeafKey(key, l) && Matches(s, l) {
      LeafKeyCovers(key, l);
      SignNeverLoses(s, l, key, true);
    }
    if l :| Covers(key, l) && Matches(s, l) && (s.strategy == ContainedBy ==> l != []) {
      SignNeverLoses(s, l, key, false);
    }
  }

  /** Some array for the key meets the query after its NOTs have been replaced. */
  ghost predicate SomeReplaced(q: Query, key: Key, leaf: bool)
    requires IsKey(key)
  {
    exists other, l :: Replaced(q, other) && Covers(key, l) && (leaf ==> IsLeafKey(key, l)) && Eval(other, Has(l))
  }

  /** For boolean queries the same holds up to what the NOTs say. */
  lemma SignPreciseBoolean(s: Search, key: Key, leaf: bool)
    requires IsKey(key) && key.Sign? && s.strategy == BooleanSearch
    ensures MaySign(s, key, leaf) <==> SomeReplaced(s.q, key, leaf)
  {
    var has := (v: int) => KeyHas(key, v);
    if MaySign(s, key, leaf) {
      var other := Loosened(s.q);
      var l := Fullest(key, ValueList(s.q));
      FullestFits(key, ValueList(s.q));
      FullestCovers(key, ValueList(s.q));
      forall n | n in Values(s.q) && has(n) ensures Has(l)(n) { FullestIn(key, ValueList(s.q), n); }
      LossyNeverLoses(s.q, has, Has(l));
      LoosenedIsLossy(s.q, Has(l));
      assert Replaced(s.q, other) && Covers(key, l) && Eval(other, Has(l));
    }
    if other, l :| Replaced(s.q, other) && Covers(key, l) && (leaf ==> IsLeafKey(key, l)) && Eval(other, Has(l)) {
      ReplacedIsLossy(s.q, other, Has(l));
      forall v | v in l ensures KeyHas(key, v) { ValueHas(key, l, v); }
      LossyNeverLoses(s.q, Has(l), has);
    }
  }

  datatype SignTree = SignLeaf(key: Key, elems: seq<int>) | SignPage(key: Key, children: seq<SignTree>)

  /** Leaf keys hash the array; page keys are the union of the keys below them. */
  ghost predicate ValidSignTree(t: SignTree) {
    IsKey(t.key) &&
    match t
    case SignLeaf(key, elems) => IsLeafKey(key, elems)
    case SignPage(key, children) =>
      && (forall i :: 0 <= i < |children| ==> ValidSignTree(children[i]))
      && (forall i, n :: 0 <= i < |children| && 0 <= n < SIGLENBIT ==> KeyBit(children[i].key, n) ==> KeyBit(key, n))
  }

  ghost predicate SignHasLeaf(t: SignTree, l: seq<int>) {
    match t
    case SignLeaf(_, elems) => elems == l
    case SignPage(_, children) => exists i :: 0 <= i < |children| && SignHasLeaf(children[i], l)
  }

  /** The search descends to leaf l. */
  ghost predicate SignReached(s: Search, t: SignTree, l: seq<int>)
    requires ValidSignTree(t)
  {
    MaySign(s, t.key, t.SignLeaf?) &&
    match t
    case SignLeaf(_, elems) => elems == l
    case SignPage(_, children) => exists i :: 0 <= i < |children| && SignReached(s, children[i], l)
  }

  lemma {:induction false} SignKeyCovers(t: SignTree, l: seq<int>)
    requires ValidSignTree(t) && SignHasLeaf(t, l)
    ensures Covers(t.key, l)
    decreases t
  {
    match t
    case SignLeaf(key, elems) =>
      forall i | 0 <= i < |l| ensures KeyHas(key, l[i]) {
        assert Hashed(l, |l|, HashVal(l[i]));
      }
    case SignPage(key, children) =>
      var i :| 0 <= i < |children| && SignHasLeaf(children[i], l);
      SignKeyCovers(children[i], l);
  }

  /** A search over signatures reaches every leaf that matches; recheck then decides. */
  lemma {:induction false} SignSearchComplete(s: Search, t: SignTree, l: seq<int>)
    requires ValidSignTree(t) && SignHasLeaf(t, l) && Matches(s, l)
    requires s.strategy == ContainedBy ==> l != []
    ensures SignReached(s, t, l)
    decreases t
  {
    SignKeyCovers(t, l);
    SignNeverLoses(s, l, t.key, t.SignLeaf?);
    if t.SignPage? {
      var i :| 0 <= i < |t.children| && SignHasLeaf(t.children[i], l);
      SignSearchComplete(s, t.children[i], l);
    }
  }
}
