/**
 The GiST index over label paths: page bounds, the tests that decide whether a page can
 hold an answer, and what a search through pages finds.
 */
module LtreeGist {
  import opened Ltree
  import Memcmp

  /** Of ltree_compare only the sign is used here, so that one memcmp is as good as another. */
  method Compare(a: Ltree, b: Ltree) returns (res: int)
    requires a.Valid() && b.Valid()
    ensures Memcmp.Sign(res, 0) == PathCmp(a.Levels(), b.Levels())
  {
    res := LtreeCompare(Memcmp.MemCmp, a, b);
  }

  // ----- what the operators mean -----

  datatype Strategy = Less | LessEqual | Equal | GreaterEqual | Greater | Ancestor | Descendant

  /** The operator behind a strategy, for a stored path x and a query q. */
  ghost predicate Answers(s: Strategy, x: Path, q: Path) {
    match s
    case Less => PathCmp(x, q) < 0
    case LessEqual => PathCmp(x, q) <= 0
    case Equal => x == q
    case GreaterEqual => PathCmp(x, q) >= 0
    case Greater => PathCmp(x, q) > 0
    case Ancestor => x <= q
    case Descendant => q <= x
  }

  /** Exactly one of less, equal and greater is the answer; the others follow from the three. */
  lemma ExactlyOneAnswers(x: Path, q: Path)
    ensures Answers(Less, x, q) || Answers(Equal, x, q) || Answers(Greater, x, q)
    ensures !(Answers(Less, x, q) && Answers(Equal, x, q)) && !(Answers(Equal, x, q) && Answers(Greater, x, q))
    ensures !(Answers(Less, x, q) && Answers(Greater, x, q))
    ensures Answers(LessEqual, x, q) <==> Answers(Less, x, q) || Answers(Equal, x, q)
    ensures Answers(GreaterEqual, x, q) <==> Answers(Greater, x, q) || Answers(Equal, x, q)
    ensures Answers(Greater, x, q) <==> Answers(Less, q, x)
    ensures Answers(Ancestor, x, q) <==> Answers(Descendant, q, x)
  {
    PathOrder(x, q);
  }

  /** Behind equal levels the smaller label is less, and so is the path that has ended. */
  lemma LessMeans(x: Path, q: Path, d: nat)
    requires d <= |x| && d <= |q| && x[..d] == q[..d]
    ensures d == |x| < |q| ==> Answers(Less, x, q)
    ensures d < |x| && d < |q| && Memcmp.BufferCmp(x[d], q[d]) < 0 ==> Answers(Less, x, q)
  {
    if d < |x| && d < |q| { Memcmp.BufferOrder(x[d], q[d]); }
    PathCmpMeaning(x, q, d);
  }

  /** On pages the two strict orders are tested as if they were not strict. */
  ghost function PageStrategy(s: Strategy): Strategy {
    if s == Less then LessEqual else if s == Greater then GreaterEqual else s
  }

  ghost predicate Between(x: Path, left: Path, right: Path) {
    PathCmp(left, x) <= 0 && PathCmp(x, right) <= 0
  }

  // ----- page bounds -----

  /** A leaf key is one path; a page key is a left and a right bound. */
  datatype LtreeGist = OneNode(node: Ltree) | Bounds(lnode: Ltree, rnode: Ltree)
  {
    function GetLNode(): Ltree { if OneNode? then node else lnode }

    function GetRNode(): Ltree { if OneNode? then node else rnode }
  }

  ghost predicate ValidKey(key: LtreeGist)
    reads key.GetLNode(), key.GetRNode()
  {
    && key.GetLNode().Valid() && key.GetRNode().Valid()
    && PathCmp(key.GetLNode().Levels(), key.GetRNode().Levels()) <= 0
  }

  // ----- the ancestor test -----

  /** Some prefix of the query lies between the bounds. */
  ghost predicate PrefixBetween(q: Path, left: Path, right: Path) {
    exists x: Path :: x <= q && Between(x, left, right)
  }

  lemma PrefixByLength(q: Path, left: Path, right: Path)
    ensures PrefixBetween(q, left, right) ==> exists i :: 0 <= i <= |q| && Between(q[..i], left, right)
  {
    if PrefixBetween(q, left, right) {
      var x: Path :| x <= q && Between(x, left, right);
      assert x == q[..|x|];
    }
  }

  method CompareBounds(key: LtreeGist, query: Ltree) returns (res: bool)
    requires ValidKey(key) && query.Valid()
    ensures res <==> Between(query.Levels(), key.GetLNode().Levels(), key.GetRNode().Levels())
  {
    var l := Compare(query, key.GetLNode());
    var r := Compare(query, key.GetRNode());
    PathOrder(query.Levels(), key.GetLNode().Levels());
    res := l >= 0 && r <= 0;
  }

  /** gist_isparent: the query is shortened level by level, and restored. */
  method GistIsParent(key: LtreeGist, query: Ltree) returns (res: bool)
    requires ValidKey(key) && query.Valid() && query != key.GetLNode() && query != key.GetRNode()
    modifies query`numlevel
    ensures query.numlevel == old(query.numlevel)
    ensures res <==> PrefixBetween(query.Levels(), key.GetLNode().Levels(), key.GetRNode().Levels())
  {
    var numlevel := query.numlevel;
    ghost var q, left, right := query.Levels(), key.GetLNode().Levels(), key.GetRNode().Levels();
    PrefixByLength(q, left, right);
    var i: int := numlevel;
    while i >= 0
      invariant -1 <= i <= numlevel
      invariant forall n {:trigger q[..n]} :: i < n <= numlevel ==> !Between(q[..n], left, right)
    {
      var within := TryLevel(key, query, i, q, left, right);
      if within {
        query.numlevel := numlevel;
        return true;
      }
      i := i - 1;
    }
    query.numlevel := numlevel;
    res := false;
  }

  method TryLevel(key: LtreeGist, query: Ltree, i: nat, ghost q: Path, ghost left: Path, ghost right: Path)
    returns (res: bool)
    requires HasBounds(key, left, right) && query != key.GetLNode() && query != key.GetRNode()
    requires i <= |q| && q <= query.names
    modifies query`numlevel
    ensures query.numlevel == i && (res <==> Between(q[..i], left, right))
  {
    query.numlevel := i;
    assert query.Levels() == q[..i];
    res := CompareBounds(key, query);
  }

  // ----- the descendant test -----

  /** Some extension of the query lies between the bounds. */
  ghost predicate ExtensionBetween(q: Path, left: Path, right: Path) {
    exists x: Path :: q <= x && Between(x, left, right)
  }

  /** The test on shortened bounds. */
  ghost predicate CutBetween(q: Path, left: Path, right: Path) {
    PathCmp(Cut(left, |q|), q) <= 0 && PathCmp(q, Cut(right, |q|)) <= 0
  }

  lemma CutOfExtension(q: Path, x: Path)
    requires q <= x
    ensures Cut(x, |q|) == q
  {
  }

  /** Shortening the bounds loses nothing and lets nothing in: the test is exact. */
  lemma CutBetweenExact(q: Path, left: Path, right: Path)
    requires PathCmp(left, right) <= 0
    ensures CutBetween(q, left, right) <==> ExtensionBetween(q, left, right)
  {
    if ExtensionBetween(q, left, right) {
      var x: Path :| q <= x && Between(x, left, right);
      CutOfExtension(q, x);
      CutMonotone(left, x, |q|);
      CutMonotone(x, right, |q|);
    }
    if CutBetween(q, left, right) {
      PathOrder(left, left);
      PathOrder(right, right);
      PathOrder(q, right);
      PathOrder(q, Cut(right, |q|));
      if Cut(left, |q|) == q {
        assert q <= left && Between(left, left, right);
      } else if Cut(right, |q|) == q {
        assert q <= right && Between(right, left, right);
      } else {
        CutDecides(left, q);
        CutDecides(right, q);
        assert q <= q && Between(q, left, right);
      }
    }
  }

  /** copy_ltree. */
  method CopyLtree(src: Ltree) returns (dst: Ltree)
    requires src.Valid()
    ensures fresh(dst) && dst.Valid() && dst.Levels() == src.Levels()
  {
    dst := new Ltree(src.names[..src.numlevel]);
  }

  method Shorten(t: Ltree, numlevel: nat)
    requires t.Valid()
    modifies t`numlevel
    ensures t.Valid() && t.Levels() == Cut(old(t.Levels()), numlevel)
  {
    if t.numlevel > numlevel { t.numlevel := numlevel; }
  }

  /** gist_ischild: the bounds are copied, and the copies shortened. */
  method GistIsChild(key: LtreeGist, query: Ltree) returns (res: bool)
    requires ValidKey(key) && query.Valid()
    ensures res <==> ExtensionBetween(query.Levels(), key.GetLNode().Levels(), key.GetRNode().Levels())
  {
    ghost var q, l, r := query.Levels(), key.GetLNode().Levels(), key.GetRNode().Levels();
    CutBetweenExact(q, l, r);
    var left := CopyLtree(key.GetLNode());
    var right := CopyLtree(key.GetRNode());
    res := true;
    Shorten(left, query.numlevel);
    var c := Compare(query, left);
    PathOrder(q, Cut(l, |q|));
    if c < 0 { res := false; }
    Shorten(right, query.numlevel);
    if res {
      c := Compare(query, right);
      if c > 0 { res := false; }
    }
  }

  // ----- ltree_consistent -----

  /** Some path between the bounds answers the query, as pages test it. */
  ghost predicate PageAnswers(s: Strategy, q: Path, left: Path, right: Path) {
    exists x: Path :: Between(x, left, right) && Answers(PageStrategy(s), x, q)
  }

  /** How a page decides by comparing the query with its bounds. */
  lemma PageByBounds(s: Strategy, q: Path, left: Path, right: Path)
    requires PathCmp(left, right) <= 0
    ensures s == Less || s == LessEqual ==> (PageAnswers(s, q, left, right) <==> PathCmp(q, left) >= 0)
    ensures s == Greater || s == GreaterEqual ==> (PageAnswers(s, q, left, right) <==> PathCmp(q, right) <= 0)
    ensures s == Equal ==> (PageAnswers(s, q, left, right) <==> Between(q, left, right))
  {
    PathOrder(q, left);
    PathOrder(q, right);
    PathOrder(left, left);
    PathOrder(right, right);
    assert Between(left, left, right) && Between(right, left, right);
    if PageAnswers(s, q, left, right) {
      var x: Path :| Between(x, left, right) && Answers(PageStrategy(s), x, q);
      PathOrder(x, q);
      if PathCmp(x, q) <= 0 { PathTransitive(left, x, q); }
      if PathCmp(q, x) <= 0 { PathTransitive(q, x, right); }
    }
  }

  /** The ancestor and descendant tests are those of their pages. */
  lemma PageByPrefix(q: Path, left: Path, right: Path)
    ensures PageAnswers(Ancestor, q, left, right) <==> PrefixBetween(q, left, right)
    ensures PageAnswers(Descendant, q, left, right) <==> ExtensionBetween(q, left, right)
  {
    if PrefixBetween(q, left, right) {
      var x: Path :| x <= q && Between(x, left, right);
      assert Answers(PageStrategy(Ancestor), x, q);
    }
    if ExtensionBetween(q, left, right) {
      var x: Path :| q <= x && Between(x, left, right);
      assert Answers(PageStrategy(Descendant), x, q);
    }
  }

  /** The ordering strategies, on leaves and on pages. */
  method OrderConsistent(key: LtreeGist, leaf: bool, s: Strategy, query: Ltree) returns (res: bool)
    requires ValidKey(key) && query.Valid() && (leaf ==> key.OneNode?) && s != Ancestor && s != Descendant
    ensures leaf ==> (res <==> Answers(s, key.GetLNode().Levels(), query.Levels()))
    ensures !leaf ==> (res <==> PageAnswers(s, query.Levels(), key.GetLNode().Levels(), key.GetRNode().Levels()))
  {
    ghost var q, left, right := query.Levels(), key.GetLNode().Levels(), key.GetRNode().Levels();
    PageByBounds(s, q, left, right);
    PathOrder(left, q);
    PathOrder(right, q);
    var c;
    match s
    case Less =>
      c := Compare(query, key.GetLNode());
      res := if leaf then c > 0 else c >= 0;
    case LessEqual =>
      c := Compare(query, key.GetLNode());
      res := c >= 0;
    case Equal =>
      if leaf {
        c := Compare(query, key.GetLNode());
        res := c == 0;
      } else {
        res := CompareBounds(key, query);
      }
    case GreaterEqual =>
      c := Compare(query, key.GetRNode());
      res := c <= 0;
    case Greater =>
      c := Compare(query, key.GetRNode());
      res := if leaf then c < 0 else c <= 0;
  }

  /** ltree_consistent: exact on leaves, and on pages exactly what a path in between could answer. */
  method LtreeConsistent(key: LtreeGist, leaf: bool, s: Strategy, query: Ltree) returns (res: bool)
    requires ValidKey(key) && query.Valid() && (leaf ==> key.OneNode?)
    requires query != key.GetLNode() && query != key.GetRNode()
    modifies query`numlevel
    ensures query.numlevel == old(query.numlevel)
    ensures leaf ==> (res <==> Answers(s, key.GetLNode().Levels(), query.Levels()))
    ensures !leaf ==> (res <==> PageAnswers(s, query.Levels(), key.GetLNode().Levels(), key.GetRNode().Levels()))
  {
    PageByPrefix(query.Levels(), key.GetLNode().Levels(), key.GetRNode().Levels());
    if s == Ancestor {
      if leaf {
        res := InnerIsParent(query, key.GetLNode());
      } else {
        res := GistIsParent(key, query);
      }
    } else if s == Descendant {
      if leaf {
        res := InnerIsParent(key.GetLNode(), query);
      } else {
        res := GistIsChild(key, query);
      }
    } else {
      res := OrderConsistent(key, leaf, s, query);
    }
  }

  /** A page whose bounds enclose a path never turns away a query the path answers. */
  lemma NeverPrunes(s: Strategy, x: Path, q: Path, left: Path, right: Path)
    requires Between(x, left, right) && Answers(s, x, q)
    ensures PageAnswers(s, q, left, right)
  {
    assert Answers(PageStrategy(s), x, q);
  }

  // ----- ltree_union -----

  ghost predicate IsLeast(x: Path, ps: seq<Path>) {
    x in ps && forall i :: 0 <= i < |ps| ==> PathCmp(x, ps[i]) <= 0
  }

  ghost predicate IsGreatest(x: Path, ps: seq<Path>) {
    x in ps && forall i :: 0 <= i < |ps| ==> PathCmp(ps[i], x) <= 0
  }

  lemma LeastNext(x: Path, y: Path, ps: seq<Path>)
    requires ps == [] || IsLeast(x, ps)
    ensures IsLeast(if ps == [] || PathCmp(x, y) > 0 then y else x, ps + [y])
  {
    PathOrder(x, y);
    PathOrder(y, y);
    if ps != [] && PathCmp(x, y) > 0 {
      forall i | 0 <= i < |ps| ensures PathCmp(y, ps[i]) <= 0 {
        PathTransitive(y, x, ps[i]);
      }
    }
  }

  lemma GreatestNext(x: Path, y: Path, ps: seq<Path>)
    requires ps == [] || IsGreatest(x, ps)
    ensures IsGreatest(if ps == [] || PathCmp(x, y) < 0 then y else x, ps + [y])
  {
    PathOrder(x, y);
    PathOrder(y, y);
    if ps != [] && PathCmp(x, y) < 0 {
      forall i | 0 <= i < |ps| ensures PathCmp(ps[i], y) <= 0 {
        PathTransitive(ps[i], x, y);
      }
    }
  }

  /** The key is valid, and l and r are its bounds. */
  ghost predicate HasBounds(key: LtreeGist, l: Path, r: Path)
    reads key.GetLNode(), key.GetRNode()
  {
    ValidKey(key) && key.GetLNode().Levels() == l && key.GetRNode().Levels() == r
  }

  method Smaller(left: Ltree?, curtree: Ltree, ghost ps: seq<Path>) returns (least: Ltree)
    requires curtree.Valid() && (if left == null then ps == [] else left.Valid() && IsLeast(left.Levels(), ps))
    ensures least == curtree || least == left
    ensures least.Valid() && IsLeast(least.Levels(), ps + [curtree.Levels()])
  {
    if left == null {
      LeastNext([], curtree.Levels(), ps);
      return curtree;
    }
    LeastNext(left.Levels(), curtree.Levels(), ps);
    var c := Compare(left, curtree);
    assert ps != [];
    return if c > 0 then curtree else left;
  }

  method Larger(right: Ltree?, curtree: Ltree, ghost ps: seq<Path>) returns (greatest: Ltree)
    requires curtree.Valid() && (if right == null then ps == [] else right.Valid() && IsGreatest(right.Levels(), ps))
    ensures greatest == curtree || greatest == right
    ensures greatest.Valid() && IsGreatest(greatest.Levels(), ps + [curtree.Levels()])
  {
    if right == null {
      GreatestNext([], curtree.Levels(), ps);
      return curtree;
    }
    GreatestNext(right.Levels(), curtree.Levels(), ps);
    var c := Compare(right, curtree);
    assert ps != [];
    return if c < 0 then curtree else right;
  }

  /** ISEQ. */
  method IsEq(a: Ltree, b: Ltree) returns (res: bool)
    requires a.Valid() && b.Valid()
    ensures res <==> a.Levels() == b.Levels()
  {
    PathOrder(a.Levels(), b.Levels());
    if a.numlevel != b.numlevel { return false; }
    var c := Compare(a, b);
    res := c == 0;
  }

  /** The path that the object holds. */
  ghost predicate HasLevels(t: Ltree, p: Path)
    reads t
  {
    t.Valid() && t.Levels() == p
  }

  ghost predicate LeastSoFar(l: Path, ls: seq<Path>, j: nat) { j <= |ls| && (j > 0 ==> IsLeast(l, ls[..j])) }

  ghost predicate GreatestSoFar(r: Path, rs: seq<Path>, j: nat) { j <= |rs| && (j > 0 ==> IsGreatest(r, rs[..j])) }

  method NextLeft(left: Ltree?, cur: Ltree, ghost l: Path, ghost ls: seq<Path>, ghost j: nat)
    returns (least: Ltree, ghost l': Path)
    requires j < |ls| && (left == null <==> j == 0) && (left != null ==> HasLevels(left, l))
    requires LeastSoFar(l, ls, j) && HasLevels(cur, ls[j])
    ensures HasLevels(least, l') && LeastSoFar(l', ls, j + 1)
  {
    assert ls[..j+1] == ls[..j] + [ls[j]];
    least := Smaller(left, cur, ls[..j]);
    l' := least.Levels();
  }

  method NextRight(right: Ltree?, cur: Ltree, ghost r: Path, ghost rs: seq<Path>, ghost j: nat)
    returns (greatest: Ltree, ghost r': Path)
    requires j < |rs| && (right == null <==> j == 0) && (right != null ==> HasLevels(right, r))
    requires GreatestSoFar(r, rs, j) && HasLevels(cur, rs[j])
    ensures HasLevels(greatest, r') && GreatestSoFar(r', rs, j + 1)
  {
    assert rs[..j+1] == rs[..j] + [rs[j]];
    greatest := Larger(right, cur, rs[..j]);
    r' := greatest.Levels();
  }

  /** The bounds of the first j entries; none yet if j is 0. */
  ghost predicate BoundsSoFar(left: Ltree?, right: Ltree?, l: Path, r: Path, j: nat)
    reads left, right
  {
    if j == 0 then left == null && right == null
    else left != null && right != null && HasLevels(left, l) && HasLevels(right, r)
  }

  method NextBounds(left: Ltree?, right: Ltree?, cur: LtreeGist, ghost l: Path, ghost r: Path, ghost ls: seq<Path>,
                    ghost rs: seq<Path>, ghost j: nat)
    returns (least: Ltree, greatest: Ltree, ghost l': Path, ghost r': Path)
    requires j < |ls| && j < |rs| && BoundsSoFar(left, right, l, r, j)
    requires HasLevels(cur.GetLNode(), ls[j]) && HasLevels(cur.GetRNode(), rs[j])
    requires LeastSoFar(l, ls, j) && GreatestSoFar(r, rs, j)
    ensures BoundsSoFar(least, greatest, l', r', j + 1) && LeastSoFar(l', ls, j + 1) && GreatestSoFar(r', rs, j + 1)
  {
    least, l' := NextLeft(left, cur.GetLNode(), l, ls, j);
    greatest, r' := NextRight(right, cur.GetRNode(), r, rs, j);
  }

  /** The loop of ltree_union over the entries. */
  method FindBounds(entries: seq<LtreeGist>, ghost ls: seq<Path>, ghost rs: seq<Path>)
    returns (least: Ltree, greatest: Ltree)
    requires |entries| == |ls| == |rs| > 0
    requires forall j :: 0 <= j < |entries| ==>
      HasLevels(entries[j].GetLNode(), ls[j]) && HasLevels(entries[j].GetRNode(), rs[j])
    ensures least.Valid() && greatest.Valid() && IsLeast(least.Levels(), ls) && IsGreatest(greatest.Levels(), rs)
  {
    var left: Ltree?, right: Ltree? := null, null;
    ghost var l: Path, r: Path := [], [];
    var j := 0;
    while j < |entries|
      invariant 0 <= j <= |entries| && BoundsSoFar(left, right, l, r, j)
      invariant LeastSoFar(l, ls, j) && GreatestSoFar(r, rs, j)
    {
      assert old(HasLevels(entries[j].GetLNode(), ls[j]) && HasLevels(entries[j].GetRNode(), rs[j]));
      left, right, l, r := NextBounds(left, right, entries[j], l, r, ls, rs, j);
      j := j + 1;
    }
    assert ls[..j] == ls && rs[..j] == rs;
    return left, right;
  }

  /** The bounds of ltree_union: the least left and the greatest right bound; one copy if they are equal. */
  method LtreeUnion(entries: seq<LtreeGist>, ghost ls: seq<Path>, ghost rs: seq<Path>) returns (result: LtreeGist)
    requires |entries| == |ls| == |rs| > 0 && forall j :: 0 <= j < |entries| ==> HasBounds(entries[j], ls[j], rs[j])
    ensures result.Bounds? && fresh(result.lnode) && fresh(result.rnode) && result.lnode.Valid() && result.rnode.Valid()
    ensures IsLeast(result.lnode.Levels(), ls) && IsGreatest(result.rnode.Levels(), rs)
  {
    var left, right := FindBounds(entries, ls, rs);
    var isleqr := IsEq(left, right);
    var l := CopyLtree(left);
    if isleqr {
      result := Bounds(l, l);
    } else {
      var r := CopyLtree(right);
      result := Bounds(l, r);
    }
  }

  // ----- searching -----

  datatype Tree = Leaf(path: Path) | Page(left: Path, right: Path, children: seq<Tree>)

  ghost function LeftOf(t: Tree): Path { if t.Leaf? then t.path else t.left }

  ghost function RightOf(t: Tree): Path { if t.Leaf? then t.path else t.right }

  /** The bounds of a page are what the union of its children gives. */
  ghost predicate ValidTree(t: Tree) {
    match t
    case Leaf(_) => true
    case Page(left, right, children) =>
      && (forall i :: 0 <= i < |children| ==>
          PathCmp(left, LeftOf(children[i])) <= 0 && PathCmp(RightOf(children[i]), right) <= 0)
      && (forall i :: 0 <= i < |children| ==> ValidTree(children[i]))
  }

  /** The union of the bounds of the children gives bounds for the page. */
  lemma UnionBounds(children: seq<Tree>, ls: seq<Path>, rs: seq<Path>, left: Path, right: Path)
    requires |ls| == |rs| == |children| && IsLeast(left, ls) && IsGreatest(right, rs)
    requires forall i :: 0 <= i < |children| ==>
      ls[i] == LeftOf(children[i]) && rs[i] == RightOf(children[i]) && ValidTree(children[i])
    ensures ValidTree(Page(left, right, children))
  {
  }

  /** x is one of the paths stored below t. */
  ghost predicate HasLeaf(t: Tree, x: Path) {
    match t
    case Leaf(path) => path == x
    case Page(_, _, children) => exists i :: 0 <= i < |children| && HasLeaf(children[i], x)
  }

  lemma {:induction false} LeavesBetween(t: Tree, x: Path)
    requires ValidTree(t) && HasLeaf(t, x)
    ensures Between(x, LeftOf(t), RightOf(t))
    decreases t
  {
    match t
    case Leaf(_) => PathOrder(x, x);
    case Page(left, right, children) =>
      var i :| 0 <= i < |children| && HasLeaf(children[i], x);
      LeavesBetween(children[i], x);
      PathTransitive(left, LeftOf(children[i]), x);
      PathTransitive(x, RightOf(children[i]), right);
  }

  /** The search reaches the stored path x: every test on some way down to it succeeds. */
  ghost predicate Found(s: Strategy, q: Path, t: Tree, x: Path) {
    match t
    case Leaf(path) => path == x && Answers(s, path, q)
    case Page(left, right, children) =>
      PageAnswers(s, q, left, right) && exists i :: 0 <= i < |children| && Found(s, q, children[i], x)
  }

  /** The search finds exactly the stored paths that answer the query, for every strategy. */
  lemma {:induction false} SearchIsExact(s: Strategy, q: Path, t: Tree, x: Path)
    requires ValidTree(t)
    ensures Found(s, q, t, x) <==> HasLeaf(t, x) && Answers(s, x, q)
    decreases t
  {
    match t
    case Leaf(_) =>
    case Page(left, right, children) =>
      forall i | 0 <= i < |children|
        ensures Found(s, q, children[i], x) <==> HasLeaf(children[i], x) && Answers(s, x, q)
      {
        SearchIsExact(s, q, children[i], x);
      }
      if HasLeaf(t, x) && Answers(s, x, q) {
        LeavesBetween(t, x);
        NeverPrunes(s, x, q, left, right);
        var i :| 0 <= i < |children| && HasLeaf(children[i], x);
        assert Found(s, q, children[i], x);
      }
  }
}
