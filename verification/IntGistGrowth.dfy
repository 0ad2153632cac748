/**
 How a GiST index over integer sets grows: the changes an insertion makes to the tree, in
 any order and number, keep every search exact.
 */
module IntGistGrowth {
  import opened RangeKey
  import opened IntTool
  import opened IntGist

  /**
   One change: the downlink of a page adjusted to a new entry, a page split, the root split,
   or a leaf entry added.  (The root has no downlink; its key stands for what it covers.)
   */
  datatype Action = Adjust(entry: seq<int>) | Split | SplitRoot | Add(entry: seq<int>)

  /** The entries of a page are distributed over new pages, whose downlinks unite their entries. */
  ghost predicate SplitInto(t: Tree, pages: seq<Tree>) {
    && t.Page?
    && (forall p :: p in pages ==>
        p.Page? && UnionKey(p.key, p.children) && forall c :: c in p.children ==> c in t.children)
    && (forall c :: c in t.children ==> exists p :: p in pages && c in p.children)
  }

  /** A change at the page t itself. */
  ghost predicate Here(t: Tree, a: Action, t': Tree) {
    && t.Page? && t'.Page?
    && match a
       case Adjust(entry) => t'.children == t.children && Adjusted(t.key, entry, t'.key)
       case Split => t'.key == t.key && exists i, pages :: SplitsChild(t.children, i, pages, t'.children)
       case SplitRoot => SplitInto(t, t'.children) && UnionKey(t'.key, t'.children)
       case Add(entry) => t'.key == t.key && t'.children == t.children + [Leaf(entry)] && Entry(entry)
  }

  ghost predicate Entry(l: seq<int>) { Strict(l) && |l| < 2 * MAXNUMRANGE }

  ghost predicate SplitsChild(children: seq<Tree>, i: int, pages: seq<Tree>, children': seq<Tree>) {
    0 <= i < |children| && SplitInto(children[i], pages) && children' == children[..i] + pages + children[i+1..]
  }

  /** A change somewhere in the tree.  A leaf is only added below downlinks that cover it. */
  ghost predicate Step(t: Tree, a: Action, t': Tree)
    decreases t
  {
    && (a.Add? ==> t.Page? && Within(a.entry, Open(t.key)))
    && (|| Here(t, a, t')
        || (&& !a.SplitRoot?
            && exists i :: 0 <= i < Fanout(t) && Below(t, i, t') && Step(t.children[i], a, t'.children[i])))
  }

  ghost function Fanout(t: Tree): nat { if t.Page? then |t.children| else 0 }

  /** The trees differ in child i only. */
  ghost predicate Below(t: Tree, i: int, t': Tree)
    requires 0 <= i < Fanout(t)
  {
    && t'.Page? && t'.key == t.key && |t'.children| == |t.children|
    && forall k {:trigger t'.children[k]} :: 0 <= k < |t.children| && k != i ==> t'.children[k] == t.children[k]
  }

  // ----- what one change keeps -----

  /** t' has the leaves of t, and those added. */
  ghost predicate SameLeaves(t: Tree, a: Action, t': Tree) {
    forall l :: HasLeaf(t', l) <==> HasLeaf(t, l) || a == Add(l)
  }

  lemma SplitValid(t: Tree, pages: seq<Tree>)
    requires ValidTree(t) && SplitInto(t, pages)
    ensures forall p :: p in pages ==> ValidTree(p)
  {
    forall p | p in pages ensures ValidTree(p) {
      forall i | 0 <= i < |p.children| ensures ValidTree(p.children[i]) { assert p.children[i] in t.children; }
      UnionKeyValid(p.key, p.children);
    }
  }

  lemma SplitLeaf(t: Tree, pages: seq<Tree>, l: seq<int>)
    requires SplitInto(t, pages)
    ensures (exists p :: p in pages && HasLeaf(p, l)) <==> HasLeaf(t, l)
  {
    AnyChild(t);
    if HasLeaf(t, l) {
      var c :| c in t.children && HasLeaf(c, l);
      var p :| p in pages && c in p.children;
      AnyChild(p);
    }
    if p :| p in pages && HasLeaf(p, l) {
      AnyChild(p);
      var c :| c in p.children && HasLeaf(c, l);
    }
  }

  lemma SplitKeeps(t: Tree, pages: seq<Tree>)
    requires ValidTree(t) && SplitInto(t, pages)
    ensures forall p :: p in pages ==> ValidTree(p)
    ensures forall l :: (exists p :: p in pages && HasLeaf(p, l)) <==> HasLeaf(t, l)
  {
    SplitValid(t, pages);
    forall l ensures (exists p :: p in pages && HasLeaf(p, l)) <==> HasLeaf(t, l) { SplitLeaf(t, pages, l); }
  }

  /** A page is valid if its children are and its key covers every leaf below it. */
  lemma PageValid(t: Tree)
    requires t.Page? && IsKey(t.key) && forall i :: 0 <= i < |t.children| ==> ValidTree(t.children[i])
    requires forall l :: HasLeaf(t, l) ==> Within(l, Open(t.key))
    ensures ValidTree(t)
  {
    forall i, l | 0 <= i < |t.children| && HasLeaf(t.children[i], l) ensures Within(l, Open(t.key)) {
      assert HasLeaf(t, l);
    }
  }

  lemma CoversLeaf(t: Tree, l: seq<int>)
    requires t.Page? && ValidTree(t) && HasLeaf(t, l)
    ensures Within(l, Open(t.key))
  {
  }

  lemma AdjustKeeps(t: Tree, entry: seq<int>, t': Tree)
    requires ValidTree(t) && Here(t, Adjust(entry), t')
    ensures ValidTree(t') && SameLeaves(t, Adjust(entry), t')
  {
    AdjustedCovers(t.key, entry, t'.key);
    forall l | HasLeaf(t', l) ensures HasLeaf(t, l) && Within(l, Open(t'.key)) {
      assert HasLeaf(t, l);
      CoversLeaf(t, l);
      assert forall v :: v in l ==> v in Open(t.key);
    }
    PageValid(t');
    assert forall l :: HasLeaf(t', l) <==> HasLeaf(t, l);
  }

  lemma AddKeeps(t: Tree, entry: seq<int>, t': Tree)
    requires ValidTree(t) && Here(t, Add(entry), t') && Within(entry, Open(t.key))
    ensures ValidTree(t') && SameLeaves(t, Add(entry), t')
  {
    var n := |t.children|;
    assert t'.children[n] == Leaf(entry) && HasLeaf(t'.children[n], entry);
    forall l ensures HasLeaf(t', l) <==> HasLeaf(t, l) || l == entry {
      if HasLeaf(t', l) {
        var i :| 0 <= i <= n && HasLeaf(t'.children[i], l);
        if i < n { assert t'.children[i] == t.children[i]; }
      }
      if HasLeaf(t, l) {
        var i :| 0 <= i < n && HasLeaf(t.children[i], l);
        assert t'.children[i] == t.children[i];
      }
    }
    forall l | HasLeaf(t', l) ensures Within(l, Open(t'.key)) {
      if HasLeaf(t, l) { CoversLeaf(t, l); }
    }
    PageValid(t');
  }

  lemma SplitRootKeeps(t: Tree, t': Tree)
    requires ValidTree(t) && Here(t, SplitRoot, t')
    ensures ValidTree(t') && SameLeaves(t, SplitRoot, t')
  {
    SplitKeeps(t, t'.children);
    forall i | 0 <= i < |t'.children| ensures ValidTree(t'.children[i]) { assert t'.children[i] in t'.children; }
    UnionKeyValid(t'.key, t'.children);
    AnyChild(t');
  }

  lemma AnyChild(t: Tree)
    requires t.Page?
    ensures forall l :: HasLeaf(t, l) <==> exists c :: c in t.children && HasLeaf(c, l)
  {
    forall l ensures HasLeaf(t, l) <==> exists c :: c in t.children && HasLeaf(c, l) {
      if HasLeaf(t, l) {
        var i :| 0 <= i < |t.children| && HasLeaf(t.children[i], l);
        assert t.children[i] in t.children;
      }
      if c :| c in t.children && HasLeaf(c, l) {
        var i :| 0 <= i < |t.children| && t.children[i] == c;
        assert HasLeaf(t.children[i], l);
      }
    }
  }

  lemma SplitChildKeeps(t: Tree, t': Tree, i: int, pages: seq<Tree>)
    requires ValidTree(t) && t.Page? && t'.Page? && t'.key == t.key && SplitsChild(t.children, i, pages, t'.children)
    ensures ValidTree(t') && SameLeaves(t, Split, t')
  {
    SplitKeeps(t.children[i], pages);
    assert t.children == t.children[..i] + [t.children[i]] + t.children[i+1..];
    assert forall c :: c in t'.children <==> c in t.children[..i] || c in pages || c in t.children[i+1..];
    AnyChild(t);
    AnyChild(t');
    forall l ensures HasLeaf(t', l) <==> HasLeaf(t, l) {
    }
    forall c | c in t'.children ensures ValidTree(c) {
    }
    forall l | HasLeaf(t', l) ensures Within(l, Open(t'.key)) { CoversLeaf(t, l); }
    PageValid(t');
  }

  lemma HereKeeps(t: Tree, a: Action, t': Tree)
    requires ValidTree(t) && Here(t, a, t') && (a.Add? ==> Within(a.entry, Open(t.key)))
    ensures ValidTree(t') && SameLeaves(t, a, t')
  {
    match a
    case Adjust(entry) => AdjustKeeps(t, entry, t');
    case Split =>
      var i, pages :| SplitsChild(t.children, i, pages, t'.children);
      SplitChildKeeps(t, t', i, pages);
    case SplitRoot => SplitRootKeeps(t, t');
    case Add(entry) => AddKeeps(t, entry, t');
  }

  lemma BelowKeeps(t: Tree, a: Action, t': Tree, i: int)
    requires ValidTree(t) && 0 <= i < Fanout(t) && Below(t, i, t') && (a.Add? ==> Within(a.entry, Open(t.key)))
    requires ValidTree(t'.children[i]) && SameLeaves(t.children[i], a, t'.children[i])
    ensures ValidTree(t') && SameLeaves(t, a, t')
  {
    forall l ensures HasLeaf(t', l) <==> HasLeaf(t, l) || a == Add(l) {
      if HasLeaf(t', l) {
        var k :| 0 <= k < |t'.children| && HasLeaf(t'.children[k], l);
        assert k != i ==> HasLeaf(t.children[k], l);
      }
      if HasLeaf(t, l) {
        var k :| 0 <= k < |t.children| && HasLeaf(t.children[k], l);
        assert HasLeaf(t'.children[k], l);
      }
      if a == Add(l) { assert HasLeaf(t'.children[i], l); }
    }
    forall k | 0 <= k < |t'.children| ensures ValidTree(t'.children[k]) {
      if k != i { assert t'.children[k] == t.children[k]; }
    }
    forall l | HasLeaf(t', l) ensures Within(l, Open(t'.key)) {
      if HasLeaf(t, l) { CoversLeaf(t, l); }
    }
    PageValid(t');
  }

  /** Every change keeps the tree valid and its leaves, but for the one added. */
  lemma {:induction false} StepKeeps(t: Tree, a: Action, t': Tree)
    requires ValidTree(t) && Step(t, a, t')
    ensures ValidTree(t') && SameLeaves(t, a, t')
    decreases t
  {
    if Here(t, a, t') {
      HereKeeps(t, a, t');
    } else {
      var i :| 0 <= i < Fanout(t) && Below(t, i, t') && Step(t.children[i], a, t'.children[i]);
      StepKeeps(t.children[i], a, t'.children[i]);
      BelowKeeps(t, a, t', i);
    }
  }

  // ----- whole runs -----

  /** ts is what the tree looks like before, between and after the changes. */
  ghost predicate Run(ts: seq<Tree>, acts: seq<Action>) {
    |ts| == |acts| + 1 && forall k :: 0 <= k < |acts| ==> Step(ts[k], acts[k], ts[k+1])
  }

  /** The last tree has the leaves of the first, and those added. */
  ghost predicate LeavesAdded(first: Tree, acts: seq<Action>, last: Tree) {
    forall l :: HasLeaf(last, l) <==> HasLeaf(first, l) || Add(l) in acts
  }

  lemma AddedNext(first: Tree, acts: seq<Action>, mid: Tree, a: Action, last: Tree)
    requires LeavesAdded(first, acts, mid) && SameLeaves(mid, a, last)
    ensures LeavesAdded(first, acts + [a], last)
  {
  }

  lemma {:induction false} RunKeeps(ts: seq<Tree>, acts: seq<Action>)
    requires Run(ts, acts) && ValidTree(ts[0])
    ensures ValidTree(ts[|acts|]) && LeavesAdded(ts[0], acts, ts[|acts|])
    decreases |acts|
  {
    if acts != [] {
      var n := |acts| - 1;
      RunPrefix(ts, acts, n);
      RunKeeps(ts[..n+1], acts[..n]);
      StepKeeps(ts[n], acts[n], ts[n+1]);
      AddedNext(ts[0], acts[..n], ts[n], acts[n], ts[n+1]);
      assert acts == acts[..n] + [acts[n]];
    }
  }

  lemma RunPrefix(ts: seq<Tree>, acts: seq<Action>, n: nat)
    requires Run(ts, acts) && n + 1 == |acts|
    ensures Run(ts[..n+1], acts[..n]) && ts[..n+1][n] == ts[n] && Step(ts[n], acts[n], ts[n+1])
  {
    forall k | 0 <= k < n ensures Step(ts[..n+1][k], acts[..n][k], ts[..n+1][k+1]) {
      assert Step(ts[k], acts[k], ts[k+1]);
    }
  }

  // ----- without the largest int every key can be opened -----

  ghost predicate Small(s: seq<int>) { forall v :: v in s ==> v < INT_MAX }

  /** Neither a leaf nor an opened page key holds the largest int. */
  ghost predicate SmallTree(t: Tree) {
    Small(KeyOf(t)) && (t.Page? ==> forall c :: c in t.children ==> SmallTree(c))
  }

  ghost predicate SmallAction(a: Action) { a.Adjust? || a.Add? ==> Small(a.entry) }

  lemma StoredSmall(u: seq<int>, key: seq<int>)
    requires Strict(u) && Stored(u, key) && Small(u)
    ensures Small(Open(key))
  {
    if |u| >= 2 * MAXNUMRANGE {
      CompressionCovers(u, key, MAXNUMRANGE);
      forall v | v in Expand(key, MAXNUMRANGE) ensures v < INT_MAX {
        ExpandMembers(key, MAXNUMRANGE, v);
        var k :| 0 <= k < MAXNUMRANGE && InRange(key, k, v);
        assert key[2*k+1] in key;
      }
    }
  }

  lemma SmallOpens(key: seq<int>)
    requires IsKey(key) && Small(Open(key))
    ensures Opens(key)
  {
    if |key| >= 2 * MAXNUMRANGE {
      var e := Expand(key, MAXNUMRANGE);
      assert RangeOk(key, MAXNUMRANGE - 1);
      ExpandLast(key, MAXNUMRANGE - 1);
      assert e[|e|-1] in e;
    }
  }

  lemma {:induction false} SmallTreeOpens(t: Tree)
    requires ValidTree(t) && SmallTree(t)
    ensures AllOpen(t)
    decreases t
  {
    if t.Page? {
      SmallOpens(t.key);
      forall i | 0 <= i < |t.children| ensures AllOpen(t.children[i]) {
        assert t.children[i] in t.children;
        SmallTreeOpens(t.children[i]);
      }
    }
  }

  lemma UnionSmall(key: seq<int>, children: seq<Tree>)
    requires UnionKey(key, children) && forall c :: c in children ==> SmallTree(c)
    ensures SmallTree(Page(key, children))
  {
    var u: seq<int> :| Strict(u) && Unites(u, children) && Stored(u, key);
    forall v | v in u ensures v < INT_MAX {
      var i :| 0 <= i < |children| && v in KeyOf(children[i]);
      assert children[i] in children;
    }
    StoredSmall(u, key);
  }

  lemma SplitSmall(t: Tree, pages: seq<Tree>)
    requires SmallTree(t) && SplitInto(t, pages)
    ensures forall p :: p in pages ==> SmallTree(p)
  {
    forall p | p in pages ensures SmallTree(p) { UnionSmall(p.key, p.children); }
  }

  lemma HereSmall(t: Tree, a: Action, t': Tree)
    requires SmallTree(t) && SmallAction(a) && Here(t, a, t')
    ensures SmallTree(t')
  {
    match a
    case Adjust(entry) =>
      if u: seq<int> :| Strict(u) && UnitesTwo(u, Open(t.key), entry) && Stored(u, t'.key) { StoredSmall(u, t'.key); }
    case Split =>
      var i, pages :| SplitsChild(t.children, i, pages, t'.children);
      assert t.children[i] in t.children;
      SplitSmall(t.children[i], pages);
    case SplitRoot =>
      SplitSmall(t, t'.children);
      UnionSmall(t'.key, t'.children);
    case Add(entry) => assert SmallTree(Leaf(entry));
  }

  lemma {:induction false} StepSmall(t: Tree, a: Action, t': Tree)
    requires SmallTree(t) && SmallAction(a) && Step(t, a, t')
    ensures SmallTree(t')
    decreases t
  {
    if Here(t, a, t') {
      HereSmall(t, a, t');
    } else {
      var i :| 0 <= i < Fanout(t) && Below(t, i, t') && Step(t.children[i], a, t'.children[i]);
      assert t.children[i] in t.children;
      StepSmall(t.children[i], a, t'.children[i]);
      forall k | 0 <= k < |t'.children| ensures SmallTree(t'.children[k]) {
        if k != i { assert t'.children[k] == t.children[k] && t.children[k] in t.children; }
      }
    }
  }

  lemma {:induction false} RunSmall(ts: seq<Tree>, acts: seq<Action>)
    requires Run(ts, acts) && SmallTree(ts[0]) && forall a :: a in acts ==> SmallAction(a)
    ensures SmallTree(ts[|acts|])
    decreases |acts|
  {
    if acts != [] {
      var n := |acts| - 1;
      RunPrefix(ts, acts, n);
      RunSmall(ts[..n+1], acts[..n]);
      assert acts[n] in acts;
      StepSmall(ts[n], acts[n], ts[n+1]);
    }
  }

  /**
   In an index grown from an empty one by any run of changes, a search finds exactly the
   entries added that match; for contained-by, among the non-empty ones.  It ends if no entry
   holds the largest int.
   */
  lemma GrownSearchIsExact(ts: seq<Tree>, acts: seq<Action>, s: Search, l: seq<int>)
    requires Run(ts, acts) && ts[0] == Page([], []) && (s.strategy == ContainedBy ==> l != [])
    ensures Found(s, ts[|acts|], l) <==> Add(l) in acts && Matches(s, l)
    ensures (forall a :: a in acts ==> SmallAction(a)) ==> Ends(s, ts[|acts|])
  {
    assert ValidTree(ts[0]) && !HasLeaf(ts[0], l);
    RunKeeps(ts, acts);
    SearchIsExact(s, ts[|acts|], l);
    if forall a :: a in acts ==> SmallAction(a) {
      RunSmall(ts, acts);
      SmallTreeOpens(ts[|acts|]);
      OpenEnds(s, ts[|acts|]);
    }
  }
}
