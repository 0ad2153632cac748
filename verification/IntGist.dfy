/**
 The GiST index over sorted integer sets: union and consistency methods, and the result
 that descending only into consistent pages loses no matching leaf.
 */
module IntGist {
  import opened BoolQuery
  import opened IntTool
  import opened RangeKey

  datatype Strategy = Overlap | Same | Contains | ContainedBy | BooleanSearch | Unknown

  /** A search condition: an array, or a boolean query with its items. */
  datatype Search = Search(strategy: Strategy, keys: seq<int>, items: seq<Item>, q: Query)

  /** The items are those bqarr_in built for q. */
  ghost predicate WellFormed(s: Search) {
    s.strategy == BooleanSearch ==> s.items == Exact(s.q) && WellLinked(s.items)
  }

  function Has(elems: seq<int>): int -> bool { v => v in elems }

  // ----- what the operators mean -----

  /** The plain set operator on a stored array. */
  ghost predicate Matches(s: Search, leaf: seq<int>) {
    match s.strategy
    case Overlap => exists v :: v in leaf && v in s.keys
    case Same => SameElements(leaf, s.keys)
    case Contains => forall v :: v in s.keys ==> v in leaf
    case ContainedBy => forall v :: v in leaf ==> v in s.keys
    case BooleanSearch => Eval(s.q, Has(leaf))
    case Unknown => false
  }

  /** The test made on the key of an inner page. */
  ghost predicate MayMatch(s: Search, key: seq<int>) {
    match s.strategy
    case Overlap => exists v :: v in key && v in s.keys
    case Same => forall v :: v in s.keys ==> v in key
    case Contains => forall v :: v in s.keys ==> v in key
    case ContainedBy => exists v :: v in key && v in s.keys
    case BooleanSearch => EvalLossy(s.q, Has(key))
    case Unknown => false
  }

  // ----- the methods -----

  /** checkcondition_arr: binary search in arr[low..high]. */
  function Searched(arr: seq<int>, val: int, low: nat, high: nat): bool
    requires high <= |arr|
    decreases high - low
  {
    if low < high then
      var middle := low + (high - low) / 2;
      if arr[middle] == val then true
      else if arr[middle] < val then Searched(arr, val, middle + 1, high)
      else Searched(arr, val, low, middle)
    else false
  }

  lemma {:induction false} SearchedIn(arr: seq<int>, val: int, low: nat, high: nat)
    requires Ascending(arr) && low <= high <= |arr|
    requires (forall k :: 0 <= k < low ==> arr[k] < val) && (forall k :: high <= k < |arr| ==> arr[k] > val)
    ensures Searched(arr, val, low, high) <==> val in arr
    decreases high - low
  {
    if low < high {
      var middle := low + (high - low) / 2;
      if arr[middle] < val {
        SearchedIn(arr, val, middle + 1, high);
      } else if arr[middle] > val {
        SearchedIn(arr, val, low, middle);
      }
    }
  }

  /** checkcondition_arr as a loop; in a sorted array it decides membership. */
  method CheckConditionArr(arr: seq<int>, val: int) returns (r: bool)
    ensures r == Searched(arr, val, 0, |arr|)
    ensures Ascending(arr) ==> (r <==> val in arr)
  {
    if Ascending(arr) { SearchedIn(arr, val, 0, |arr|); }
    var stopLow, stopHigh := 0, |arr|;
    while stopLow < stopHigh
      invariant 0 <= stopLow <= stopHigh <= |arr|
      invariant Searched(arr, val, stopLow, stopHigh) == Searched(arr, val, 0, |arr|)
    {
      var stopMiddle := stopLow + (stopHigh - stopLow) / 2;
      if arr[stopMiddle] == val {
        return true;
      } else if arr[stopMiddle] < val {
        stopLow := stopMiddle + 1;
      } else {
        stopHigh := stopMiddle;
      }
    }
    r := false;
  }

  /** g_int_same. */
  method GIntSame(a: seq<int>, b: seq<int>) returns (r: bool)
    requires Strict(a) && Strict(b)
    ensures r <==> SameElements(a, b)
  {
    if |a| != |b| {
      DifferentLength(a, b);
      return false;
    }
    var n := 0;
    while n < |a|
      invariant 0 <= n <= |a| && a[..n] == b[..n]
    {
      if a[n] != b[n] {
        DifferentAt(a, b, n);
        return false;
      }
      n := n + 1;
    }
    assert a[..n] == a && b[..n] == b;
    r := true;
  }

  lemma DifferentAt(a: seq<int>, b: seq<int>, n: nat)
    requires Strict(a) && Strict(b) && n < |a| && n < |b| && a[..n] == b[..n] && a[n] != b[n]
    ensures !SameElements(a, b)
  {
    if a[n] < b[n] { SmallestMissing(a, b, n); } else { SmallestMissing(b, a, n); }
  }

  lemma SmallestMissing(a: seq<int>, b: seq<int>, n: nat)
    requires Strict(a) && Strict(b) && n < |a| && n <= |b| && a[..n] == b[..n]
    requires n < |b| ==> a[n] < b[n]
    ensures a[n] in a && a[n] !in b
  {
    forall k | 0 <= k < |b| ensures b[k] != a[n] {
      if k < n { assert b[k] == b[..n][k] == a[..n][k] == a[k]; }
    }
  }

  lemma {:induction false} DifferentLength(a: seq<int>, b: seq<int>)
    requires Strict(a) && Strict(b) && |a| != |b|
    ensures !SameElements(a, b)
  {
    var n := 0;
    while n < |a| && n < |b| && a[n] == b[n]
      invariant 0 <= n <= |a| && n <= |b| && a[..n] == b[..n]
    {
      n := n + 1;
    }
    if n < |a| && n < |b| {
      DifferentAt(a, b, n);
    } else if n < |a| {
      SmallestMissing(a, b, n);
    } else {
      SmallestMissing(b, a, n);
    }
  }

  /** g_int_consistent: the key is sorted; the query array is copied, sorted and made unique. */
  method GIntConsistent(key: seq<int>, s: Search, leaf: bool) returns (retval: bool)
    requires Strict(key) && WellFormed(s)
    ensures retval <==> if leaf then Matches(s, key) else MayMatch(s, key)
    ensures !leaf && s.strategy != BooleanSearch ==> (retval <==> SomeWithin(s, key))
  {
    if !leaf && s.strategy != BooleanSearch { PagePrecise(s, key); }
    if s.strategy == BooleanSearch {
      retval := ExecConsistent(s.items, key, leaf, s.q);
      return;
    }
    var copy := new int[|s.keys|](i => if 0 <= i < |s.keys| then s.keys[i] else 0);
    assert copy[..] == s.keys;
    var num := PrepareArr(copy);
    var query := copy[..num];
    match s.strategy {
      case Overlap => retval := InnerIntOverlap(key, query);
      case Same =>
        if leaf {
          retval := GIntSame(key, query);
        } else {
          retval := InnerIntContains(key, query);
        }
      case Contains => retval := InnerIntContains(key, query);
      case ContainedBy =>
        if leaf {
          retval := InnerIntContains(query, key);
        } else {
          retval := InnerIntOverlap(key, query);
        }
      case _ => retval := false;
    }
  }

  /** execconsistent: evaluate the query over a sorted array. */
  method ExecConsistent(items: seq<Item>, arr: seq<int>, calcnot: bool, ghost q: Query) returns (r: bool)
    requires items == Exact(q) && WellLinked(items) && Ascending(arr)
    ensures r == if calcnot then Eval(q, Has(arr)) else EvalLossy(q, Has(arr))
  {
    ArrayAnswers(items, arr, q);
    r := Execute(items, |items| - 1, InArray(items, arr), calcnot);
  }

  /** What checkcondition_arr answers for an item. */
  function InArray(items: seq<Item>, arr: seq<int>): nat -> bool {
    (k: nat) => if k < |items| then Searched(arr, items[k].val, 0, |arr|) else false
  }

  lemma ArrayAnswers(items: seq<Item>, arr: seq<int>, q: Query)
    requires items == Exact(q) && WellLinked(items) && Ascending(arr)
    ensures Execute(items, |items| - 1, InArray(items, arr), true) == Eval(q, Has(arr))
    ensures Execute(items, |items| - 1, InArray(items, arr), false) == EvalLossy(q, Has(arr))
  {
    SearchAnswers(items, arr);
    WholeArray(items, q, InArray(items, arr), Has(arr));
  }

  lemma SearchAnswers(items: seq<Item>, arr: seq<int>)
    requires Ascending(arr)
    ensures Answers(items, InArray(items, arr), Has(arr))
  {
    forall k: nat | k < |items| ensures InArray(items, arr)(k) == Has(arr)(items[k].val) {
      SearchedIn(arr, items[k].val, 0, |arr|);
    }
  }

  /**
   g_int_union: all keys one after the other, sorted, duplicates removed.  Of qsort only
   its result matters, a sorted permutation; the insertion sort stands in for it.
   */
  method GIntUnion(entries: seq<seq<int>>) returns (res: seq<int>)
    ensures Strict(res) && forall v :: v in res <==> exists i :: 0 <= i < |entries| && v in entries[i]
  {
    var all := [];
    var i := 0;
    while i < |entries|
      invariant 0 <= i <= |entries|
      invariant forall v :: v in all <==> exists k :: 0 <= k < i && v in entries[k]
    {
      all := all + entries[i];
      i := i + 1;
    }
    var buf := new int[|all|](k => if 0 <= k < |all| then all[k] else 0);
    assert buf[..] == all;
    if buf.Length > 1 {
      var dups := ISort(buf);
      SameMultiset(buf[..], all);
    }
    var num := IntUnique(buf);
    res := buf[..num];
  }

  lemma SameMultiset(a: seq<int>, b: seq<int>)
    requires multiset(a) == multiset(b)
    ensures SameElements(a, b)
  {
    assert forall v :: v in a <==> v in multiset(a);
    assert forall v :: v in b <==> v in multiset(b);
  }

  // ----- one key over one leaf -----

  /** A page key that covers a matching leaf passes the page test. */
  lemma NeverPrunes(s: Search, leaf: seq<int>, key: seq<int>)
    requires forall v :: v in leaf ==> v in key
    requires Matches(s, leaf) && (s.strategy == ContainedBy ==> leaf != [])
    ensures MayMatch(s, key)
  {
    match s.strategy
    case Overlap => var v :| v in leaf && v in s.keys; assert v in key;
    case ContainedBy =>
      var v := leaf[0];
      assert v in leaf;
      assert v in key;
      assert v in s.keys;
    case BooleanSearch => LossyNeverLoses(s.q, Has(leaf), Has(key));
    case _ =>
  }

  /**
   For contained-by the hypothesis is needed: the page test is overlap, so of all leaves
   the condition is true of, exactly the empty one can be lost.
   */
  lemma ContainedBySafeIffNonEmpty(s: Search, leaf: seq<int>)
    requires s.strategy == ContainedBy && Matches(s, leaf)
    ensures (forall key: seq<int> :: (forall v :: v in leaf ==> v in key) ==> MayMatch(s, key)) <==> leaf != []
  {
    if leaf == [] {
      assert !MayMatch(s, []);
    } else {
      forall key: seq<int> | forall v :: v in leaf ==> v in key ensures MayMatch(s, key) {
        NeverPrunes(s, leaf, key);
      }
    }
  }

  /** Some leaf below the key, not empty for contained-by, meets the condition. */
  ghost predicate SomeWithin(s: Search, key: seq<int>) {
    exists l :: Within(l, key) && Matches(s, l) && (s.strategy == ContainedBy ==> l != [])
  }

  /** The page test says yes only where some leaf that fits the key matches. */
  lemma PagePrecise(s: Search, key: seq<int>)
    requires s.strategy != BooleanSearch
    ensures MayMatch(s, key) <==> SomeWithin(s, key)
  {
    if MayMatch(s, key) {
      match s.strategy
      case Overlap => assert Within(key, key) && Matches(s, key);
      case Same => assert Within(s.keys, key) && Matches(s, s.keys);
      case Contains => assert Within(key, key) && Matches(s, key);
      case ContainedBy =>
        var v :| v in key && v in s.keys;
        assert Within([v], key) && Matches(s, [v]);
      case _ =>
    }
    if l :| Within(l, key) && Matches(s, l) && (s.strategy == ContainedBy ==> l != []) { NeverPrunes(s, l, key); }
  }

  /** A query with something in place of its NOTs is true of a leaf that fits the key. */
  ghost predicate SomeReplacedWithin(q: Query, key: seq<int>) {
    exists other, l :: Replaced(q, other) && Within(l, key) && Eval(other, Has(l))
  }

  /** For a boolean query the yes may also be owed to another query in place of a NOT. */
  lemma PagePreciseBoolean(s: Search, key: seq<int>)
    requires s.strategy == BooleanSearch
    ensures MayMatch(s, key) <==> SomeReplacedWithin(s.q, key)
  {
    if MayMatch(s, key) {
      LoosenedIsLossy(s.q, Has(key));
      assert Replaced(s.q, Loosened(s.q)) && Within(key, key) && Eval(Loosened(s.q), Has(key));
    }
    if other, l :| Replaced(s.q, other) && Within(l, key) && Eval(other, Has(l)) {
      ReplacedIsLossy(s.q, other, Has(l));
      LossyNeverLoses(s.q, Has(l), Has(key));
    }
  }

  // ----- whole trees -----

  datatype Tree = Leaf(elems: seq<int>) | Page(key: seq<int>, children: seq<Tree>)

  /** The key as the methods see it, that is, after decompression. */
  ghost function Open(key: seq<int>): seq<int> {
    if |key| == 2 * MAXNUMRANGE then Expand(key, MAXNUMRANGE) else key
  }

  ghost function KeyOf(t: Tree): seq<int> {
    match t
    case Leaf(elems) => elems
    case Page(key, _) => Open(key)
  }

  /** key is what compression stores for the set u. */
  ghost predicate Stored(u: seq<int>, key: seq<int>) {
    if |u| < 2 * MAXNUMRANGE then key == u
    else |key| == 2 * MAXNUMRANGE && Parted(u, key, MAXNUMRANGE)
  }

  /** A sorted set, or a full number of ranges in order. */
  ghost predicate IsKey(key: seq<int>) {
    if |key| < 2 * MAXNUMRANGE then Strict(key) else Ranged(key, MAXNUMRANGE)
  }

  lemma OpenStrict(key: seq<int>)
    requires IsKey(key)
    ensures Strict(Open(key))
  {
    if |key| >= 2 * MAXNUMRANGE { ExpandStrict(key, MAXNUMRANGE, MAXNUMRANGE); }
  }

  lemma OpenCovers(u: seq<int>, key: seq<int>)
    requires Strict(u) && Stored(u, key)
    ensures IsKey(key) && Within(u, Open(key))
  {
    if |u| >= 2 * MAXNUMRANGE {
      CompressionCovers(u, key, MAXNUMRANGE);
    }
  }

  /** What compression stores can be opened again exactly if it is the set itself or without the largest int. */
  lemma StoredOpens(u: seq<int>, key: seq<int>)
    requires Strict(u) && Int4s(u) && Stored(u, key)
    ensures Opens(key) <==> |u| < 2 * MAXNUMRANGE || INT_MAX !in u
  {
    if |u| >= 2 * MAXNUMRANGE { EveryRangeEnds(u, key, MAXNUMRANGE); }
  }

  /** l is one of the leaves of t. */
  ghost predicate HasLeaf(t: Tree, l: seq<int>) {
    match t
    case Leaf(elems) => elems == l
    case Page(_, children) => exists i :: 0 <= i < |children| && HasLeaf(children[i], l)
  }

  ghost predicate Within(l: seq<int>, key: seq<int>) { forall v :: v in l ==> v in key }

  /** Every leaf below a page is within its opened key. */
  ghost predicate Covered(key: seq<int>, children: seq<Tree>) {
    forall i, l :: 0 <= i < |children| && HasLeaf(children[i], l) ==> Within(l, Open(key))
  }

  ghost predicate ValidTree(t: Tree) {
    match t
    case Leaf(elems) => Strict(elems) && |elems| < 2 * MAXNUMRANGE
    case Page(key, children) =>
      IsKey(key) && Covered(key, children) && forall i :: 0 <= i < |children| ==> ValidTree(children[i])
  }

  ghost predicate Consistent(s: Search, t: Tree) {
    match t
    case Leaf(elems) => Matches(s, elems)
    case Page(_, _) => MayMatch(s, KeyOf(t))
  }

  /** The search reaches leaf l: every key on some way down to it is consistent. */
  ghost predicate Found(s: Search, t: Tree, l: seq<int>) {
    Consistent(s, t) &&
    match t
    case Leaf(elems) => elems == l
    case Page(_, children) => exists i :: 0 <= i < |children| && Found(s, children[i], l)
  }

  /**
   The search finds exactly the leaves that match, for every strategy and every tree
   whose keys cover the leaves below them; for contained-by, among the non-empty leaves.
   */
  lemma {:induction false} SearchIsExact(s: Search, t: Tree, l: seq<int>)
    requires ValidTree(t) && (s.strategy == ContainedBy ==> l != [])
    ensures Found(s, t, l) <==> HasLeaf(t, l) && Matches(s, l)
    decreases t
  {
    match t
    case Leaf(_) =>
    case Page(key, children) =>
      forall i | 0 <= i < |children|
        ensures Found(s, children[i], l) <==> HasLeaf(children[i], l) && Matches(s, l)
      {
        SearchIsExact(s, children[i], l);
      }
      if HasLeaf(t, l) && Matches(s, l) {
        var i :| 0 <= i < |children| && HasLeaf(children[i], l);
        assert Within(l, Open(key));
        NeverPrunes(s, l, KeyOf(t));
      }
  }

  // ----- whether a search ends -----

  /** Every page key of the tree can be opened. */
  ghost predicate AllOpen(t: Tree) {
    match t
    case Leaf(_) => true
    case Page(key, children) => Opens(key) && forall i :: 0 <= i < |children| ==> AllOpen(children[i])
  }

  /** The search opens the key of every page it comes to, and each of them can be opened. */
  ghost predicate Ends(s: Search, t: Tree) {
    match t
    case Leaf(_) => true
    case Page(key, children) =>
      Opens(key) && (MayMatch(s, KeyOf(t)) ==> forall i :: 0 <= i < |children| ==> Ends(s, children[i]))
  }

  /** A search that comes to every page. */
  ghost function SearchAll(): Search { Search(BooleanSearch, [], Exact(Not(Val(0))), Not(Val(0))) }

  lemma {:induction false} OpenEnds(s: Search, t: Tree)
    requires AllOpen(t)
    ensures Ends(s, t)
    decreases t
  {
    match t
    case Leaf(_) =>
    case Page(_, children) =>
      forall i | 0 <= i < |children| ensures Ends(s, children[i]) { OpenEnds(s, children[i]); }
  }

  lemma {:induction false} EndsOpen(t: Tree)
    requires Ends(SearchAll(), t)
    ensures AllOpen(t)
    decreases t
  {
    match t
    case Leaf(_) =>
    case Page(_, children) =>
      assert MayMatch(SearchAll(), KeyOf(t));
      forall i | 0 <= i < |children| ensures AllOpen(children[i]) { EndsOpen(children[i]); }
  }

  /** Every search of a tree ends exactly if all its page keys can be opened. */
  lemma SearchesEndIff(t: Tree)
    ensures (forall s :: WellFormed(s) ==> Ends(s, t)) <==> AllOpen(t)
  {
    if AllOpen(t) {
      forall s | WellFormed(s) ensures Ends(s, t) { OpenEnds(s, t); }
    } else {
      LinkedIsWellLinked(Not(Val(0)));
      LinksRightIffFit(Not(Val(0)));
      assert WellFormed(SearchAll());
      if Ends(SearchAll(), t) { EndsOpen(t); }
    }
  }

  // ----- where the keys of a tree come from -----

  /** u unites the opened keys of the children. */
  ghost predicate Unites(u: seq<int>, children: seq<Tree>) {
    forall v :: v in u <==> exists i :: 0 <= i < |children| && v in KeyOf(children[i])
  }

  lemma KeyCoversLeaves(t: Tree, l: seq<int>)
    requires ValidTree(t) && HasLeaf(t, l)
    ensures Within(l, KeyOf(t))
  {
  }

  /** The key is what the union of the opened keys of the children compresses to. */
  ghost predicate UnionKey(key: seq<int>, children: seq<Tree>) {
    exists u: seq<int> :: Strict(u) && Unites(u, children) && Stored(u, key)
  }

  lemma UnionKeyValid(key: seq<int>, children: seq<Tree>)
    requires UnionKey(key, children) && forall i :: 0 <= i < |children| ==> ValidTree(children[i])
    ensures ValidTree(Page(key, children))
  {
    var u: seq<int> :| Strict(u) && Unites(u, children) && Stored(u, key);
    OpenCovers(u, key);
    forall i, l | 0 <= i < |children| && HasLeaf(children[i], l) ensures Within(l, Open(key)) {
      KeyCoversLeaves(children[i], l);
      assert forall v :: v in l ==> v in KeyOf(children[i]);
    }
  }

  /** gistunion and compression: the key of a page from the opened keys of its entries. */
  method PageKey(keys: seq<seq<int>>, ghost children: seq<Tree>) returns (key: seq<int>)
    requires |keys| == |children| && forall i :: 0 <= i < |keys| ==> keys[i] == KeyOf(children[i])
    requires forall i :: 0 <= i < |keys| ==> Int4Values(keys[i])
    ensures UnionKey(key, children)
  {
    var u := GIntUnion(keys);
    assert Unites(u, children);
    assert u != [] ==> u[0] in u && u[|u|-1] in u;
    key := Compress(u);
    assert Stored(u, key);
  }

  ghost predicate UnitesTwo(u: seq<int>, a: seq<int>, b: seq<int>) {
    forall v :: v in u <==> v in a || v in b
  }

  /** The key is kept if the entry adds nothing, and else the union is compressed. */
  ghost predicate Adjusted(page: seq<int>, entry: seq<int>, key: seq<int>) {
    || (Within(entry, Open(page)) && key == page)
    || exists u: seq<int> :: Strict(u) && UnitesTwo(u, Open(page), entry) && Stored(u, key)
  }

  /** key covers what page covers, and the entry. */
  lemma AdjustedCovers(page: seq<int>, entry: seq<int>, key: seq<int>)
    requires IsKey(page) && Adjusted(page, entry, key)
    ensures IsKey(key) && Within(Open(page), Open(key)) && Within(entry, Open(key))
  {
    if u: seq<int> :| Strict(u) && UnitesTwo(u, Open(page), entry) && Stored(u, key) {
      OpenCovers(u, key);
      assert forall v :: v in u ==> v in Open(key);
    }
  }

  /**
   gistgetadjusted: on the way down an insertion unites the opened key of each page with the
   new entry; the stored key is kept if that adds nothing, and else the union is compressed.
   */
  method AdjustKey(page: seq<int>, entry: seq<int>) returns (r: Result<seq<int>>)
    requires IsKey(page) && Int4Values(page) && Int4Values(entry)
    ensures r.Overrun? <==> !Opens(page)
    ensures r.Done? ==> Adjusted(page, entry, r.value)
    ensures r.Done? && Within(entry, Open(page)) ==> r.value == page
  {
    OpenStrict(page);
    OpenInt4(page);
    var both := Decompress(page, MAXNUMRANGE);
    if both.Overrun? { return Overrun; }
    var u := GIntUnion([both.value, entry]);
    AllOfTwo(both.value, entry);
    assert UnitesTwo(u, both.value, entry);
    var same := GIntSame(both.value, u);
    if same { return Done(page); }
    assert u != [] ==> u[0] in u && u[|u|-1] in u;
    var key := Compress(u);
    assert Stored(u, key);
    r := Done(key);
  }

  lemma OpenInt4(key: seq<int>)
    requires IsKey(key) && Int4Values(key)
    ensures Int4Values(Open(key))
  {
    if |key| >= 2 * MAXNUMRANGE {
      forall v | v in Expand(key, MAXNUMRANGE) ensures IsInt4(v) {
        ExpandMembers(key, MAXNUMRANGE, v);
        var k :| 0 <= k < MAXNUMRANGE && InRange(key, k, v);
        assert key[2*k] in key && key[2*k+1] in key;
      }
    }
  }

  lemma AllOfTwo(a: seq<int>, b: seq<int>)
    ensures forall v :: (exists i :: 0 <= i < |[a, b]| && v in [a, b][i]) <==> v in a || v in b
  {
    forall v ensures (exists i :: 0 <= i < |[a, b]| && v in [a, b][i]) <==> v in a || v in b {
      if v in a { assert v in [a, b][0]; }
      if v in b { assert v in [a, b][1]; }
    }
  }
}
