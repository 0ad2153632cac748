/**
 Boolean queries over the inverted index: query extraction, the consistency check, and
 the result that an index scan finds exactly the arrays the query is true of.
 */
module QueryGin {
  import opened BoolQuery

  /** The values of the VAL items, in order: the keys GIN is asked for. */
  function Vals(items: seq<Item>): (v: seq<int>)
    ensures |v| <= |items|
  {
    if items == [] then []
    else Vals(items[..|items|-1]) + if items[|items|-1].kind == VAL then [items[|items|-1].val] else []
  }

  /** How many of the first k items are VAL items. */
  function Rank(items: seq<Item>, k: nat): nat
    requires k <= |items|
  {
    |Vals(items[..k])|
  }

  lemma {:induction false} ValsPrefix(items: seq<Item>, k: nat)
    requires k <= |items|
    ensures Vals(items[..k]) <= Vals(items)
    decreases |items| - k
  {
    if k == |items| {
      assert items[..k] == items;
    } else {
      ValsPrefix(items, k + 1);
      assert items[..k+1][..k] == items[..k];
    }
  }

  lemma RankNext(items: seq<Item>, k: nat)
    requires k < |items|
    ensures Rank(items, k + 1) == Rank(items, k) + (if items[k].kind == VAL then 1 else 0)
    ensures items[k].kind == VAL ==> Rank(items, k) < |Vals(items)| && Vals(items)[Rank(items, k)] == items[k].val
  {
    var p := items[..k+1];
    assert p[..k] == items[..k] && p[k] == items[k];
    ValsPrefix(items, k + 1);
    if items[k].kind == VAL { assert Vals(p)[Rank(items, k)] == items[k].val; }
  }

  /** The boolean branch of ginint4_queryextract. */
  method QueryExtract(items: seq<Item>) returns (entries: seq<int>, searchAll: bool)
    requires WellLinked(items)
    ensures entries == Vals(items)
    ensures items != [] ==> searchAll == !ContainsRequiredValue(items, |items| - 1)
  {
    entries, searchAll := [], false;
    if |items| == 0 { return; }
    searchAll := !ContainsRequiredValue(items, |items| - 1);
    var res := new int[|items|];
    var nentries, i := 0, 0;
    while i < |items|
      invariant 0 <= i <= |items| && nentries <= i && res[..nentries] == Vals(items[..i])
    {
      assert items[..i+1][..i] == items[..i];
      if items[i].kind == VAL {
        res[nentries] := items[i].val;
        nentries := nentries + 1;
      }
      i := i + 1;
    }
    assert items[..i] == items;
    entries := res[..nentries];
  }

  /** gin_bool_consistent: check[j] tells whether the j-th VAL item is in the array. */
  method GinBoolConsistent(items: seq<Item>, check: seq<bool>, ghost q: Query, ghost present: int -> bool)
    returns (r: bool)
    requires items != [] ==> items == Exact(q)
    requires WellLinked(items) && |check| == |Vals(items)|
    requires forall j :: 0 <= j < |check| ==> check[j] == present(Vals(items)[j])
    ensures r <==> items != [] && Eval(q, present)
  {
    if |items| <= 0 { return false; }
    var mapped := new bool[|items|](_ => false);
    var i, j := 0, 0;
    while i < |items|
      invariant 0 <= i <= |items| && j == Rank(items, i)
      invariant forall k {:trigger mapped[k]} :: 0 <= k < i && items[k].kind == VAL ==>
        mapped[k] == present(items[k].val)
    {
      RankNext(items, i);
      if items[i].kind == VAL {
        mapped[i] := check[j];
        j := j + 1;
      }
      i := i + 1;
    }
    MappedCheck(items, mapped[..], q, present);
    r := Execute(items, |items| - 1, Lookup(mapped[..]), true);
  }

  /** checkcondition_gin: the answer stored for the item. */
  function Lookup(mapped: seq<bool>): nat -> bool {
    (k: nat) => if k < |mapped| then mapped[k] else false
  }

  lemma MappedCheck(items: seq<Item>, mapped: seq<bool>, q: Query, present: int -> bool)
    requires items == Exact(q) && WellLinked(items) && |mapped| == |items|
    requires forall k {:trigger mapped[k]} :: 0 <= k < |items| && items[k].kind == VAL ==>
      mapped[k] == present(items[k].val)
    ensures Execute(items, |items| - 1, Lookup(mapped), true) == Eval(q, present)
  {
    WholeArray(items, q, Lookup(mapped), present);
  }

  /** The entries are the values of the query from left to right. */
  lemma {:induction false} ValsOfExact(q: Query)
    ensures Vals(Exact(q)) == ValueList(q)
  {
    match q {
      case Val(n) => assert Exact(q)[..0] == [];
      case Not(a) =>
        ValsOfExact(a);
        assert Exact(q)[..Size(a)] == Exact(a);
      case Bin(_, l, r) =>
        ValsOfExact(l);
        ValsOfExact(r);
        assert Exact(q)[..Size(l)+Size(r)] == Exact(l) + Exact(r);
        ValsConcat(Exact(l), Exact(r));
    }
  }

  lemma {:induction false} ValsConcat(a: seq<Item>, b: seq<Item>)
    ensures Vals(a + b) == Vals(a) + Vals(b)
    decreases |b|
  {
    if b == [] {
      assert a + b == a;
    } else {
      assert (a + b)[..|a|+|b|-1] == a + b[..|b|-1];
      ValsConcat(a, b[..|b|-1]);
    }
  }

  /** The scan visits an array if the search mode is ALL or the array holds one of the keys. */
  ghost predicate Visited(items: seq<Item>, present: int -> bool)
    requires WellLinked(items) && items != []
  {
    ContainsRequiredValue(items, |items| - 1) ==> exists n :: n in Vals(items) && present(n)
  }

  /**
   An array is found if it is visited and passes the consistency check.  That finds
   exactly the arrays the query is true of: no visit is missing, no recheck is needed.
   */
  lemma GinScanExact(q: Query, items: seq<Item>, present: int -> bool, chk: nat -> bool)
    requires items == Exact(q) && WellLinked(items)
    requires Answers(items, chk, present)
    ensures Visited(items, present) && Execute(items, |items| - 1, chk, true) <==> Eval(q, present)
  {
    WholeArray(items, q, chk, present);
    ValsOfExact(q);
    if !Visited(items, present) {
      WholeArrayNeeds(items, q, present);
    }
  }
}
