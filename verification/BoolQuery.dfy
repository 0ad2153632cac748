/**
 Boolean queries over integers: the tree a query denotes, the flat array of items in
 reverse Polish order with back links to left operands, and the interpreters that run
 over that array.
 */
module BoolQuery {
  datatype Op = And | Or

  datatype Query = Val(n: int) | Not(arg: Query) | Bin(op: Op, l: Query, r: Query)

  /** Truth of a query when present tells which integers are in the array. */
  predicate Eval(q: Query, present: int -> bool) {
    match q
    case Val(n) => present(n)
    case Not(a) => !Eval(a, present)
    case Bin(And, l, r) => Eval(l, present) && Eval(r, present)
    case Bin(Or, l, r) => Eval(l, present) || Eval(r, present)
  }

  function Size(q: Query): (n: nat)
    ensures n > 0
  {
    match q
    case Val(_) => 1
    case Not(a) => Size(a) + 1
    case Bin(_, l, r) => Size(l) + Size(r) + 1
  }

  ghost function Values(q: Query): set<int> {
    match q
    case Val(n) => {n}
    case Not(a) => Values(a)
    case Bin(_, l, r) => Values(l) + Values(r)
  }

  /** The values as they come in the text. */
  ghost function ValueList(q: Query): (vs: seq<int>)
    ensures forall n :: n in vs <==> n in Values(q)
  {
    match q
    case Val(n) => [n]
    case Not(a) => ValueList(a)
    case Bin(_, l, r) => ValueList(l) + ValueList(r)
  }

  // ----- flat forms -----

  datatype Kind = VAL | OPR

  /** A list node of the parser: an item without its link. */
  datatype Node = Node(kind: Kind, val: int)

  /** ITEM: left is the distance to the left operand. */
  datatype Item = Item(kind: Kind, left: int, val: int)

  const BANG: int := 33
  const AMP: int := 38
  const BAR: int := 124

  function Code(op: Op): int { if op.And? then AMP else BAR }

  /** Conversion to int2, the type of the link field. */
  function Int2(x: int): int { (x + 0x8000) % 0x1_0000 - 0x8000 }

  ghost function Polish(q: Query): (p: seq<Node>)
    ensures |p| == Size(q)
  {
    match q
    case Val(n) => [Node(VAL, n)]
    case Not(a) => Polish(a) + [Node(OPR, BANG)]
    case Bin(op, l, r) => Polish(l) + Polish(r) + [Node(OPR, Code(op))]
  }

  /**
   The items of q.  The link of a binary operator is the distance to the item before its
   right operand, which is the root of its left operand.
   */
  ghost function Exact(q: Query): (p: seq<Item>)
    ensures |p| == Size(q)
  {
    match q
    case Val(n) => [Item(VAL, 0, n)]
    case Not(a) => Exact(a) + [Item(OPR, -1, BANG)]
    case Bin(op, l, r) => Exact(l) + Exact(r) + [Item(OPR, -(Size(r) + 1), Code(op))]
  }

  /** The same items with links as an int2 field holds them. */
  ghost function Linked(q: Query): (p: seq<Item>)
    ensures |p| == Size(q)
  {
    match q
    case Val(n) => [Item(VAL, 0, n)]
    case Not(a) => Linked(a) + [Item(OPR, -1, BANG)]
    case Bin(op, l, r) => Linked(l) + Linked(r) + [Item(OPR, Int2(-(Size(r) + 1)), Code(op))]
  }

  /** Walking back from pos along the links spells q, with right links. */
  ghost predicate Represents(items: seq<Item>, pos: int, q: Query)
    decreases q
  {
    0 <= pos < |items| &&
    match q
    case Val(n) => items[pos] == Item(VAL, 0, n)
    case Not(a) => items[pos] == Item(OPR, -1, BANG) && Represents(items, pos - 1, a)
    case Bin(op, l, r) =>
      && items[pos] == Item(OPR, -(Size(r) + 1), Code(op))
      && Represents(items, pos - 1, r) && Represents(items, pos + items[pos].left, l)
  }

  /** The items ending at pos are those of q. */
  ghost predicate ExactAt(items: seq<Item>, pos: int, q: Query) {
    Size(q) - 1 <= pos < |items| && items[pos+1-Size(q)..pos+1] == Exact(q)
  }

  lemma {:induction false} ExactRepresents(items: seq<Item>, pos: int, q: Query)
    requires ExactAt(items, pos, q)
    ensures Represents(items, pos, q)
    decreases q
  {
    ExactRoot(items, pos, q);
    match q {
      case Val(_) =>
      case Not(a) =>
        ExactArgument(items, pos, q);
        ExactRepresents(items, pos - 1, a);
      case Bin(_, l, r) =>
        ExactOperands(items, pos, q);
        ExactRepresents(items, pos - 1, r);
        ExactRepresents(items, pos - 1 - Size(r), l);
    }
  }

  lemma ExactRoot(items: seq<Item>, pos: int, q: Query)
    requires ExactAt(items, pos, q)
    ensures q.Val? ==> items[pos] == Item(VAL, 0, q.n)
    ensures q.Not? ==> items[pos] == Item(OPR, -1, BANG)
    ensures q.Bin? ==> items[pos] == Item(OPR, -(Size(q.r) + 1), Code(q.op))
  {
    assert items[pos] == items[pos+1-Size(q)..pos+1][Size(q)-1];
  }

  lemma ExactArgument(items: seq<Item>, pos: int, q: Query)
    requires q.Not? && ExactAt(items, pos, q)
    ensures ExactAt(items, pos - 1, q.arg)
  {
    SubSlice(items, pos + 1 - Size(q), pos + 1, 0, Size(q.arg));
  }

  lemma ExactOperands(items: seq<Item>, pos: int, q: Query)
    requires q.Bin? && ExactAt(items, pos, q)
    ensures ExactAt(items, pos - 1, q.r) && ExactAt(items, pos - 1 - Size(q.r), q.l)
  {
    var base, m, k := pos + 1 - Size(q), Size(q.l), Size(q.l) + Size(q.r);
    SubSlice(items, base, pos + 1, 0, m);
    SubSlice(items, base, pos + 1, m, k);
    assert Exact(q)[..m] == Exact(q.l) && Exact(q)[m..k] == Exact(q.r);
  }

  lemma SubSlice<T>(s: seq<T>, i: nat, j: nat, m: nat, n: nat)
    requires i <= j <= |s| && m <= n <= j - i
    ensures s[i..j][m..n] == s[i+m..i+n]
  {
    var a, b := s[i..j][m..n], s[i+m..i+n];
    assert forall k {:trigger a[k]} :: 0 <= k < n - m ==> a[k] == b[k];
  }

  /** Every right operand is short enough for its length to fit the link field. */
  ghost predicate LinksFit(q: Query) {
    match q
    case Val(_) => true
    case Not(a) => LinksFit(a)
    case Bin(_, l, r) => LinksFit(l) && LinksFit(r) && Size(r) < 0x8000
  }

  /**
   The links written by findoprnd are right exactly when every right operand has at most
   32767 items; a longer one makes its link wrap around in the int2 field.
   */
  lemma {:induction false} LinksRightIffFit(q: Query)
    ensures Linked(q) == Exact(q) <==> LinksFit(q)
  {
    match q {
      case Val(_) =>
      case Not(a) =>
        LinksRightIffFit(a);
        assert Linked(q)[..Size(a)] == Linked(a) && Exact(q)[..Size(a)] == Exact(a);
      case Bin(op, l, r) =>
        LinksRightIffFit(l);
        LinksRightIffFit(r);
        Int2Fits(Size(r) + 1);
        SameThirds(Linked(l), Linked(r), Item(OPR, Int2(-(Size(r) + 1)), Code(op)),
                   Exact(l), Exact(r), Item(OPR, -(Size(r) + 1), Code(op)));
    }
  }

  lemma SameThirds<T>(a: seq<T>, b: seq<T>, x: T, a': seq<T>, b': seq<T>, x': T)
    requires |a| == |a'| && |b| == |b'|
    ensures a + b + [x] == a' + b' + [x'] <==> a == a' && b == b' && x == x'
  {
    var p, p', m, k := a + b + [x], a' + b' + [x'], |a|, |a| + |b|;
    if p == p' {
      assert a == p[..m] == p'[..m] == a' && b == p[m..k] == p'[m..k] == b' && p[k] == x && p'[k] == x';
    }
  }

  lemma Int2Fits(n: int)
    requires 0 < n
    ensures Int2(-n) == -n <==> n <= 0x8000
  {
  }

  /**
   The link over a longer right operand never is the right one: depending on the length it points
   past the array, at the operator itself, or at an item of the right operand.
   */
  lemma LongOperandWraps(op: Op, l: Query, r: Query)
    requires 0x8000 <= Size(r)
    ensures var items := Linked(Bin(op, l, r));
      var root, link, m := |items| - 1, items[|items|-1].left, (Size(r) + 1) % 0x1_0000;
      && link != -(Size(r) + 1)
      && (0x8000 < m ==> link == 0x1_0000 - m && |items| <= root + link)
      && (m == 0 ==> link == 0)
      && (0 < m <= 0x8000 ==> link == -m && Size(l) <= root + link < root)
  {
    Int2Of(Size(r) + 1);
  }

  lemma Int2Of(n: int)
    requires 0 < n
    ensures var m := n % 0x1_0000; Int2(-n) == if m > 0x8000 then 0x1_0000 - m else -m
  {
    assert n == n / 0x1_0000 * 0x1_0000 + n % 0x1_0000;
  }

  // ----- the interpreters -----

  /** Links stay inside the array and point strictly back, so that execute terminates. */
  ghost predicate WellLinked(items: seq<Item>) {
    forall k :: 0 <= k < |items| && items[k].kind == OPR ==>
      0 < k && (items[k].val != BANG ==> 0 <= k + items[k].left < k)
  }

  lemma {:induction false} LinkedIsWellLinked(q: Query)
    requires LinksFit(q)
    ensures WellLinked(Linked(q))
  {
    match q {
      case Val(_) =>
      case Not(a) =>
        LinkedIsWellLinked(a);
        JoinWellLinked([], Linked(a), Item(OPR, -1, BANG));
        assert [] + Linked(a) == Linked(a);
      case Bin(op, l, r) =>
        LinkedIsWellLinked(l);
        LinkedIsWellLinked(r);
        Int2Fits(Size(r) + 1);
        JoinWellLinked(Linked(l), Linked(r), Item(OPR, -(Size(r) + 1), Code(op)));
    }
  }

  lemma JoinWellLinked(a: seq<Item>, b: seq<Item>, root: Item)
    requires WellLinked(a) && WellLinked(b) && b != []
    requires root.val != BANG ==> a != [] && root.left == -(|b| + 1)
    ensures WellLinked(a + b + [root])
  {
    var p := a + b + [root];
    forall k | 0 <= k < |p| && p[k].kind == OPR ensures 0 < k && (p[k].val != BANG ==> 0 <= k + p[k].left < k) {
      if k < |a| {
        assert p[k] == a[k];
      } else if k < |a| + |b| {
        assert p[k] == b[k-|a|];
      }
    }
  }

  /** execute(): chk tests the item at an index; calcnot false takes every NOT for true. */
  function Execute(items: seq<Item>, cur: nat, chk: nat -> bool, calcnot: bool): bool
    requires WellLinked(items) && cur < |items|
    decreases cur
  {
    var item := items[cur];
    if item.kind == VAL then chk(cur)
    else if item.val == BANG then
      if calcnot then (if Execute(items, cur - 1, chk, calcnot) then false else true) else true
    else if item.val == AMP then
      if Execute(items, cur + item.left, chk, calcnot) then Execute(items, cur - 1, chk, calcnot) else false
    else
      if Execute(items, cur + item.left, chk, calcnot) then true else Execute(items, cur - 1, chk, calcnot)
  }

  /** The reading with every NOT taken for true. */
  ghost predicate EvalLossy(q: Query, present: int -> bool) {
    match q
    case Val(n) => present(n)
    case Not(_) => true
    case Bin(And, l, r) => EvalLossy(l, present) && EvalLossy(r, present)
    case Bin(Or, l, r) => EvalLossy(l, present) || EvalLossy(r, present)
  }

  /** chk answers for VAL items what present answers for their values. */
  ghost predicate Answers(items: seq<Item>, chk: nat -> bool, present: int -> bool) {
    forall k: nat :: k < |items| && items[k].kind == VAL ==> chk(k) == present(items[k].val)
  }

  lemma {:induction false} ExecuteComputesEval(items: seq<Item>, pos: nat, q: Query, chk: nat -> bool,
                                               present: int -> bool)
    requires WellLinked(items) && Represents(items, pos, q) && Answers(items, chk, present)
    ensures Execute(items, pos, chk, true) == Eval(q, present)
    ensures Execute(items, pos, chk, false) == EvalLossy(q, present)
    decreases q
  {
    match q {
      case Val(_) =>
      case Not(a) => ExecuteComputesEval(items, pos - 1, a, chk, present);
      case Bin(_, l, r) =>
        ExecuteComputesEval(items, pos - 1, r, chk, present);
        ExecuteComputesEval(items, pos + items[pos].left, l, chk, present);
    }
  }

  lemma WholeRepresents(items: seq<Item>, q: Query)
    requires items == Exact(q)
    ensures items != [] && Represents(items, |items| - 1, q)
  {
    WholeExact(q);
    ExactRepresents(items, |items| - 1, q);
  }

  lemma WholeExact(q: Query)
    ensures ExactAt(Exact(q), Size(q) - 1, q)
  {
    var items := Exact(q);
    assert items[0..|items|] == items;
  }

  /** Execution starts at the last item. */
  lemma WholeArray(items: seq<Item>, q: Query, chk: nat -> bool, present: int -> bool)
    requires items == Exact(q) && WellLinked(items) && Answers(items, chk, present)
    ensures Execute(items, |items| - 1, chk, true) == Eval(q, present)
    ensures Execute(items, |items| - 1, chk, false) == EvalLossy(q, present)
  {
    WholeRepresents(items, q);
    ExecuteComputesEval(items, |items| - 1, q, chk, present);
  }

  /**
   A key that covers an array (whatever is in the array is in the key) makes the lossy
   reading true whenever the query is true of the array; and a key covering a key
   inherits a lossy yes.
   */
  lemma {:induction false} LossyNeverLoses(q: Query, elems: int -> bool, key: int -> bool)
    requires forall n :: n in Values(q) && elems(n) ==> key(n)
    ensures Eval(q, elems) ==> EvalLossy(q, key)
    ensures EvalLossy(q, elems) ==> EvalLossy(q, key)
  {
    match q {
      case Val(_) =>
      case Not(_) =>
      case Bin(_, l, r) =>
        LossyNeverLoses(l, elems, key);
        LossyNeverLoses(r, elems, key);
    }
  }

  /** Every outermost NOT, with what it negates, has been replaced by some query. */
  ghost predicate Replaced(q: Query, other: Query) {
    match q
    case Val(_) => other == q
    case Not(_) => true
    case Bin(op, l, r) => other.Bin? && other.op == op && Replaced(l, other.l) && Replaced(r, other.r)
  }

  /** A query that is always true. */
  ghost function Truth(): Query { Bin(Or, Val(0), Not(Val(0))) }

  ghost function Loosened(q: Query): Query {
    match q
    case Val(_) => q
    case Not(_) => Truth()
    case Bin(op, l, r) => Bin(op, Loosened(l), Loosened(r))
  }

  lemma {:induction false} LoosenedIsLossy(q: Query, present: int -> bool)
    ensures Replaced(q, Loosened(q)) && Eval(Loosened(q), present) == EvalLossy(q, present)
  {
    if q.Bin? {
      LoosenedIsLossy(q.l, present);
      LoosenedIsLossy(q.r, present);
    }
  }

  lemma {:induction false} ReplacedIsLossy(q: Query, other: Query, present: int -> bool)
    requires Replaced(q, other) && Eval(other, present)
    ensures EvalLossy(q, present)
    decreases q
  {
    if q.Bin? {
      if Eval(other.l, present) { ReplacedIsLossy(q.l, other.l, present); }
      if Eval(other.r, present) { ReplacedIsLossy(q.r, other.r, present); }
    }
  }

  /** The lossy reading is a yes exactly if something in place of the NOTs makes the query true. */
  lemma LossyIffReplaced(q: Query, present: int -> bool)
    ensures EvalLossy(q, present) <==> exists other :: Replaced(q, other) && Eval(other, present)
  {
    LoosenedIsLossy(q, present);
    if other :| Replaced(q, other) && Eval(other, present) { ReplacedIsLossy(q, other, present); }
  }

  /** contains_required_value() over the flat array. */
  function ContainsRequiredValue(items: seq<Item>, cur: nat): bool
    requires WellLinked(items) && cur < |items|
    decreases cur
  {
    var item := items[cur];
    if item.kind == VAL then true
    else if item.val == BANG then false
    else if item.val == AMP then
      if ContainsRequiredValue(items, cur + item.left) then true else ContainsRequiredValue(items, cur - 1)
    else
      if ContainsRequiredValue(items, cur + item.left) then ContainsRequiredValue(items, cur - 1) else false
  }

  /** A query that has required values is false of every array holding none of its values. */
  lemma {:induction false} RequiredValuesAreNeeded(items: seq<Item>, pos: nat, q: Query, present: int -> bool)
    requires WellLinked(items) && Represents(items, pos, q)
    requires ContainsRequiredValue(items, pos)
    requires forall n :: n in Values(q) ==> !present(n)
    ensures !Eval(q, present)
    decreases q
  {
    match q {
      case Val(_) =>
      case Not(_) =>
      case Bin(op, l, r) =>
        var left := pos + items[pos].left;
        if ContainsRequiredValue(items, left) { RequiredValuesAreNeeded(items, left, l, present); }
        if ContainsRequiredValue(items, pos - 1) { RequiredValuesAreNeeded(items, pos - 1, r, present); }
    }
  }

  /**
   Values are required exactly if an array without any value is no match, whatever stands
   in place of the NOTs.
   */
  lemma RequiredIffNever(items: seq<Item>, q: Query, none: int -> bool)
    requires items == Exact(q) && WellLinked(items) && forall n :: !none(n)
    ensures ContainsRequiredValue(items, |items| - 1) <==> forall other :: Replaced(q, other) ==> !Eval(other, none)
  {
    WholeRequired(items, q, none);
    LossyIffReplaced(q, none);
  }

  lemma WholeRequired(items: seq<Item>, q: Query, none: int -> bool)
    requires items == Exact(q) && WellLinked(items) && forall n :: !none(n)
    ensures ContainsRequiredValue(items, |items| - 1) <==> !EvalLossy(q, none)
  {
    WholeRepresents(items, q);
    RequiredIsNotLossy(items, |items| - 1, q, none);
  }

  lemma {:induction false} RequiredIsNotLossy(items: seq<Item>, pos: nat, q: Query, none: int -> bool)
    requires WellLinked(items) && Represents(items, pos, q) && forall n :: !none(n)
    ensures ContainsRequiredValue(items, pos) <==> !EvalLossy(q, none)
    decreases q
  {
    if q.Bin? {
      RequiredIsNotLossy(items, pos + items[pos].left, q.l, none);
      RequiredIsNotLossy(items, pos - 1, q.r, none);
    }
  }

  lemma WholeArrayNeeds(items: seq<Item>, q: Query, present: int -> bool)
    requires items == Exact(q) && WellLinked(items) && ContainsRequiredValue(items, |items| - 1)
    requires forall n :: n in Values(q) ==> !present(n)
    ensures !Eval(q, present)
  {
    WholeRepresents(items, q);
    RequiredValuesAreNeeded(items, |items| - 1, q, present);
  }

  // ----- findoprnd -----

  /** Walking back from pos over the operands spells q; the links may be anything. */
  ghost predicate Spells(items: seq<Item>, pos: int, q: Query)
    decreases q
  {
    0 <= pos < |items| &&
    match q
    case Val(n) => items[pos].kind == VAL && items[pos].val == n
    case Not(a) => items[pos].kind == OPR && items[pos].val == BANG && Spells(items, pos - 1, a)
    case Bin(op, l, r) =>
      && items[pos].kind == OPR && items[pos].val == Code(op)
      && Spells(items, pos - 1, r) && Spells(items, pos - 1 - Size(r), l)
  }

  predicate HasNode(items: seq<Item>, k: int, node: Node) {
    0 <= k < |items| && items[k].kind == node.kind && items[k].val == node.val
  }

  /** The kinds and values of the items ending at pos are the Polish form of q. */
  ghost predicate PolishAt(items: seq<Item>, pos: int, q: Query) {
    && Size(q) - 1 <= pos
    && forall k {:trigger Polish(q)[k]} :: 0 <= k < Size(q) ==>
      HasNode(items, pos - Size(q) + 1 + k, Polish(q)[k])
  }

  lemma {:induction false} PolishSpells(items: seq<Item>, pos: int, q: Query)
    requires PolishAt(items, pos, q)
    ensures Spells(items, pos, q)
    decreases q
  {
    PolishParts(items, pos, q);
    if q.Not? {
      PolishSpells(items, pos - 1, q.arg);
    } else if q.Bin? {
      PolishSpells(items, pos - 1, q.r);
      PolishSpells(items, pos - 1 - Size(q.r), q.l);
    }
  }

  lemma PolishParts(items: seq<Item>, pos: int, q: Query)
    requires PolishAt(items, pos, q)
    ensures 0 <= pos < |items|
    ensures q.Val? ==> items[pos].kind == VAL && items[pos].val == q.n
    ensures q.Not? ==> items[pos].kind == OPR && items[pos].val == BANG && PolishAt(items, pos - 1, q.arg)
    ensures q.Bin? ==> items[pos].kind == OPR && items[pos].val == Code(q.op)
    ensures q.Bin? ==> PolishAt(items, pos - 1, q.r) && PolishAt(items, pos - 1 - Size(q.r), q.l)
  {
    assert HasNode(items, pos, Polish(q)[Size(q)-1]);
    if q.Not? {
      PolishPiece(items, pos, q, 0, q.arg);
    } else if q.Bin? {
      assert Polish(q) == Polish(q.l) + Polish(q.r) + [Node(OPR, Code(q.op))];
      PolishPiece(items, pos, q, 0, q.l);
      PolishPiece(items, pos, q, Size(q.l), q.r);
    }
  }

  lemma PolishPiece(items: seq<Item>, pos: int, q: Query, m: nat, part: Query)
    requires PolishAt(items, pos, q) && m + Size(part) <= Size(q) && Polish(q)[m..m+Size(part)] == Polish(part)
    ensures PolishAt(items, pos - Size(q) + m + Size(part), part)
  {
    forall k | 0 <= k < Size(part) ensures HasNode(items, pos - Size(q) + 1 + m + k, Polish(part)[k]) {
      assert Polish(q)[m+k] == Polish(q)[m..m+Size(part)][k];
    }
  }

  lemma {:induction false} SpellsKeeps(a: seq<Item>, b: seq<Item>, pos: int, q: Query)
    requires |a| == |b| && Spells(a, pos, q)
    requires forall k :: 0 <= k <= pos ==> a[k] == b[k]
    ensures Size(q) - 1 <= pos && Spells(b, pos, q)
    decreases q
  {
    match q {
      case Val(_) =>
      case Not(x) => SpellsKeeps(a, b, pos - 1, x);
      case Bin(_, l, r) =>
        SpellsKeeps(a, b, pos - 1, r);
        SpellsKeeps(a, b, pos - 1 - Size(r), l);
    }
  }

  method FindOprnd(ptr: array<Item>, pos: int, ghost q: Query) returns (rest: int)
    requires Spells(ptr[..], pos, q)
    modifies ptr
    ensures -1 <= rest == pos - Size(q)
    ensures ptr[rest+1..pos+1] == Linked(q)
    ensures OnlyBetween(old(ptr[..]), ptr[..], rest, pos)
    decreases Size(q), 1
  {
    if ptr[pos].kind == VAL {
      rest := FindValue(ptr, pos, q.n);
    } else if ptr[pos].val == BANG {
      rest := FindArgument(ptr, pos, q.arg);
    } else {
      rest := FindOperands(ptr, pos, q.op, q.l, q.r);
    }
  }

  /** Nothing but the cells after rest, up to pos, has changed. */
  ghost predicate OnlyBetween(a: seq<Item>, b: seq<Item>, rest: int, pos: int) {
    |a| == |b| && forall k {:trigger b[k]} :: 0 <= k < |b| && !(rest < k <= pos) ==> b[k] == a[k]
  }

  method FindValue(ptr: array<Item>, pos: nat, ghost n: int) returns (rest: int)
    requires pos < ptr.Length && ptr[pos].kind == VAL && ptr[pos].val == n
    modifies ptr
    ensures rest == pos - 1 && ptr[pos..pos+1] == [Item(VAL, 0, n)]
    ensures OnlyBetween(old(ptr[..]), ptr[..], rest, pos)
  {
    ptr[pos] := ptr[pos].(left := 0);
    rest := pos - 1;
  }

  method FindArgument(ptr: array<Item>, pos: int, ghost a: Query) returns (rest: int)
    requires 0 <= pos < ptr.Length && ptr[pos].kind == OPR && ptr[pos].val == BANG && Spells(ptr[..], pos - 1, a)
    modifies ptr
    ensures -1 <= rest == pos - 1 - Size(a)
    ensures ptr[rest+1..pos+1] == Linked(a) + [Item(OPR, -1, BANG)]
    ensures OnlyBetween(old(ptr[..]), ptr[..], rest, pos)
    decreases Size(a) + 1, 0
  {
    ghost var was := ptr[..];
    ptr[pos] := ptr[pos].(left := -1);
    SpellsKeeps(was, ptr[..], pos - 1, a);
    rest := FindOprnd(ptr, pos - 1, a);
    SliceIn2(ptr[..], rest + 1, pos);
  }

  method FindOperands(ptr: array<Item>, pos: int, ghost op: Op, ghost l: Query, ghost r: Query) returns (rest: int)
    requires 0 <= pos < ptr.Length && ptr[pos].kind == OPR && ptr[pos].val == Code(op)
    requires Spells(ptr[..], pos - 1, r) && Spells(ptr[..], pos - 1 - Size(r), l)
    modifies ptr
    ensures -1 <= rest == pos - 1 - Size(r) - Size(l)
    ensures ptr[rest+1..pos+1] == Linked(l) + Linked(r) + [Item(OPR, Int2(-(Size(r) + 1)), Code(op))]
    ensures OnlyBetween(old(ptr[..]), ptr[..], rest, pos)
    decreases Size(l) + Size(r) + 1, 0
  {
    ghost var was := ptr[..];
    rest := LinkRight(ptr, pos, op, r);
    ghost var mid, half := rest, ptr[..];
    SpellsKeeps(was, half, rest, l);
    rest := FindOprnd(ptr, rest, l);
    Joined(half, ptr[..], rest, mid, pos, Linked(l), Linked(r));
    TwoSteps(was, half, ptr[..], rest, mid, pos);
  }

  /** The link of a binary operator can be set once its right operand is done. */
  method LinkRight(ptr: array<Item>, pos: int, ghost op: Op, ghost r: Query) returns (rest: int)
    requires 0 <= pos < ptr.Length && ptr[pos].kind == OPR && ptr[pos].val == Code(op) && Spells(ptr[..], pos - 1, r)
    modifies ptr
    ensures -1 <= rest == pos - 1 - Size(r)
    ensures ptr[rest+1..pos] == Linked(r) && ptr[pos] == Item(OPR, Int2(-(Size(r) + 1)), Code(op))
    ensures OnlyBetween(old(ptr[..]), ptr[..], rest, pos)
    decreases Size(r), 2
  {
    rest := FindOprnd(ptr, pos - 1, r);
    ghost var half := ptr[..];
    ptr[pos] := ptr[pos].(left := Int2(rest - pos));
    assert ptr[rest+1..pos] == half[rest+1..pos];
  }

  lemma TwoSteps(a: seq<Item>, b: seq<Item>, c: seq<Item>, rest: int, mid: int, pos: int)
    requires -1 <= rest <= mid < pos < |a| && OnlyBetween(a, b, mid, pos) && OnlyBetween(b, c, rest, mid)
    ensures OnlyBetween(a, c, rest, pos)
  {
  }

  lemma Joined(a: seq<Item>, b: seq<Item>, rest: int, mid: int, pos: int, l: seq<Item>, r: seq<Item>)
    requires -1 <= rest <= mid < pos < |a| && OnlyBetween(a, b, rest, mid)
    requires b[rest+1..mid+1] == l && a[mid+1..pos] == r
    ensures b[rest+1..pos+1] == l + r + [a[pos]]
  {
    assert b[mid+1..pos] == a[mid+1..pos];
    assert b[rest+1..pos+1] == b[rest+1..mid+1] + b[mid+1..pos] + [b[pos]];
  }

  lemma SliceIn2<T>(p: seq<T>, i: nat, k: nat)
    requires i <= k < |p|
    ensures p[i..k+1] == p[i..k] + [p[k]]
  {
  }
}
