/**
 Edit scripts: what it means to turn one string into another with insertions,
 deletions and substitutions, and what that costs.  Nothing here mentions the
 matrix of the dynamic program; EditMatrix connects the two.
 */
module EditScript {
  /** The penalties of levenshtein_with_costs.  The source takes any int. */
  datatype Costs = Costs(ins: int, del: int, sub: int) {
    ghost predicate NonNegative() { 0 <= ins && 0 <= del && 0 <= sub }

    /** An insertion and a deletion together cost something, or nothing; so does a change. */
    ghost predicate Balanced() { 0 <= ins + del && 0 <= sub }

    function Swapped(): Costs { Costs(del, ins, sub) }
  }

  /** One step of a script.  Changing a character into itself is free. */
  datatype Edit = Insert(to: char) | Delete(from: char) | Change(from: char, to: char)

  type Script = seq<Edit>

  function EditCost(c: Costs, e: Edit): int {
    match e
    case Insert(_) => c.ins
    case Delete(_) => c.del
    case Change(a, b) => if a == b then 0 else c.sub
  }

  function Consumed(e: Edit): string {
    match e
    case Insert(_) => []
    case Delete(a) => [a]
    case Change(a, _) => [a]
  }

  function Produced(e: Edit): string {
    match e
    case Insert(b) => [b]
    case Delete(_) => []
    case Change(_, b) => [b]
  }

  ghost function Cost(c: Costs, p: Script): int {
    if p == [] then 0 else Cost(c, p[..|p|-1]) + EditCost(c, p[|p|-1])
  }

  ghost function Source(p: Script): string {
    if p == [] then [] else Source(p[..|p|-1]) + Consumed(p[|p|-1])
  }

  ghost function Target(p: Script): string {
    if p == [] then [] else Target(p[..|p|-1]) + Produced(p[|p|-1])
  }

  /** p turns s into t. */
  ghost predicate Transforms(p: Script, s: string, t: string) {
    Source(p) == s && Target(p) == t
  }

  lemma Snoc(c: Costs, p: Script, e: Edit)
    ensures Source(p + [e]) == Source(p) + Consumed(e)
    ensures Target(p + [e]) == Target(p) + Produced(e)
    ensures Cost(c, p + [e]) == Cost(c, p) + EditCost(c, e)
  {
    assert (p + [e])[..|p|] == p;
  }

  /** Two scripts in a row fuse into one that is no more expensive. */
  lemma {:induction false} Compose(c: Costs, p: Script, q: Script) returns (r: Script)
    requires c.NonNegative()
    requires Target(p) == Source(q)
    ensures Transforms(r, Source(p), Target(q))
    ensures Cost(c, r) <= Cost(c, p) + Cost(c, q)
    decreases |p| + |q|
  {
    if p == [] && q == [] {
      r := [];
    } else if q != [] && q[|q|-1].Insert? {
      r := Compose(c, p, q[..|q|-1]);
      Snoc(c, r, q[|q|-1]);
      r := r + [q[|q|-1]];
    } else if p != [] && p[|p|-1].Delete? {
      r := Compose(c, p[..|p|-1], q);
      Snoc(c, r, p[|p|-1]);
      r := r + [p[|p|-1]];
    } else {
      var x, y := p[|p|-1], q[|q|-1];
      var mid := Target(p[..|p|-1]);
      assert Target(p) == mid + [x.to] && Source(q) == Source(q[..|q|-1]) + [y.from];
      assert mid == Target(p)[..|Target(p)|-1] == Source(q[..|q|-1]);
      r := Compose(c, p[..|p|-1], q[..|q|-1]);
      if x.Change? || y.Change? {
        var e := if x.Insert? then Insert(y.to) else if y.Delete? then Delete(x.from) else Change(x.from, y.to);
        Snoc(c, r, e);
        r := r + [e];
      }
    }
  }

  function Inverse(e: Edit): Edit {
    match e
    case Insert(b) => Delete(b)
    case Delete(a) => Insert(a)
    case Change(a, b) => Change(b, a)
  }

  /** Every script runs backwards, with insertions and deletions trading costs. */
  lemma {:induction false} Reverse(c: Costs, p: Script) returns (r: Script)
    ensures Transforms(r, Target(p), Source(p))
    ensures Cost(c.Swapped(), r) == Cost(c, p)
  {
    if p == [] {
      r := [];
    } else {
      r := Reverse(c, p[..|p|-1]);
      Snoc(c.Swapped(), r, Inverse(p[|p|-1]));
      r := r + [Inverse(p[|p|-1])];
    }
  }

  /** The script that keeps every character. */
  lemma {:induction false} Keep(c: Costs, s: string) returns (p: Script)
    ensures Transforms(p, s, s) && Cost(c, p) == 0
  {
    if s == [] {
      p := [];
    } else {
      p := Keep(c, s[..|s|-1]);
      Snoc(c, p, Change(s[|s|-1], s[|s|-1]));
      assert s == s[..|s|-1] + [s[|s|-1]];
      p := p + [Change(s[|s|-1], s[|s|-1])];
    }
  }

  lemma Assoc(a: string, b: string, c: string)
    ensures (a + b) + c == a + (b + c)
  {
  }

  lemma {:induction false} Concat(c: Costs, p: Script, q: Script)
    ensures Source(p + q) == Source(p) + Source(q)
    ensures Target(p + q) == Target(p) + Target(q)
    ensures Cost(c, p + q) == Cost(c, p) + Cost(c, q)
    decreases |q|
  {
    if q == [] {
      assert p + q == p;
    } else {
      var q', e := q[..|q|-1], q[|q|-1];
      assert p + q == (p + q') + [e];
      Concat(c, p, q');
      Snoc(c, p + q', e);
      Assoc(Source(p), Source(q'), Consumed(e));
      Assoc(Target(p), Target(q'), Produced(e));
    }
  }

  /**
   A second, more basic reading: edits applied one at a time at a position of the
   current string, each paid in full.
   */
  datatype PointEdit = InsertAt(at: nat, to: char) | DeleteAt(at: nat) | ReplaceAt(at: nat, to: char)

  ghost predicate Applies(e: PointEdit, s: string) {
    if e.InsertAt? then e.at <= |s| else e.at < |s|
  }

  ghost function ApplyOne(e: PointEdit, s: string): string
    requires Applies(e, s)
  {
    match e
    case InsertAt(k, b) => s[..k] + [b] + s[k..]
    case DeleteAt(k) => s[..k] + s[k+1..]
    case ReplaceAt(k, b) => s[..k] + [b] + s[k+1..]
  }

  ghost predicate Reaches(es: seq<PointEdit>, s: string, t: string) {
    if es == [] then s == t
    else Applies(es[0], s) && Reaches(es[1..], ApplyOne(es[0], s), t)
  }

  ghost function PointCost(c: Costs, es: seq<PointEdit>): int {
    if es == [] then 0
    else OneCost(c, es[0]) + PointCost(c, es[1..])
  }

  function OneCost(c: Costs, e: PointEdit): int {
    match e
    case InsertAt(_, _) => c.ins
    case DeleteAt(_) => c.del
    case ReplaceAt(_, _) => c.sub
  }

  /** A step in the middle of a string that is otherwise kept. */
  lemma StepInside(c: Costs, e: Edit, u: string, v: string) returns (p: Script)
    ensures Transforms(p, u + Consumed(e) + v, u + Produced(e) + v)
    ensures Cost(c, p) == EditCost(c, e)
  {
    var front := Keep(c, u);
    var back := Keep(c, v);
    Snoc(c, front, e);
    Concat(c, front + [e], back);
    p := front + [e] + back;
  }

  /** A single edit is a script of the same or lower cost. */
  lemma PointAsScript(c: Costs, e: PointEdit, s: string) returns (p: Script)
    requires c.NonNegative() && Applies(e, s)
    ensures Transforms(p, s, ApplyOne(e, s))
    ensures Cost(c, p) <= OneCost(c, e)
  {
    var k := e.at;
    match e {
      case InsertAt(_, b) =>
        p := StepInside(c, Insert(b), s[..k], s[k..]);
        assert s == s[..k] + [] + s[k..];
      case DeleteAt(_) =>
        p := StepInside(c, Delete(s[k]), s[..k], s[k+1..]);
        assert s == s[..k] + [s[k]] + s[k+1..];
        assert s[..k] + [] + s[k+1..] == s[..k] + s[k+1..];
      case ReplaceAt(_, b) =>
        p := StepInside(c, Change(s[k], b), s[..k], s[k+1..]);
        assert s == s[..k] + [s[k]] + s[k+1..];
    }
  }

  /** A whole sequence of single edits is a script of the same or lower cost. */
  lemma {:induction false} PointsAsScript(c: Costs, es: seq<PointEdit>, s: string, t: string) returns (p: Script)
    requires c.NonNegative() && Reaches(es, s, t)
    ensures Transforms(p, s, t) && Cost(c, p) <= PointCost(c, es)
    decreases |es|
  {
    if es == [] {
      p := Keep(c, s);
    } else {
      var q := PointAsScript(c, es[0], s);
      var r := PointsAsScript(c, es[1..], ApplyOne(es[0], s), t);
      p := Compose(c, q, r);
    }
  }

  lemma {:induction false} ReachesConcat(c: Costs, es: seq<PointEdit>, fs: seq<PointEdit>, s: string, u: string,
                                         t: string)
    requires Reaches(es, s, u) && Reaches(fs, u, t)
    ensures Reaches(es + fs, s, t) && PointCost(c, es + fs) == PointCost(c, es) + PointCost(c, fs)
    decreases |es|
  {
    if es == [] {
      assert es + fs == fs;
    } else {
      ghost var more := es + fs;
      assert more[0] == es[0] && more[1..] == es[1..] + fs;
      ReachesConcat(c, es[1..], fs, ApplyOne(es[0], s), u, t);
    }
  }

  /** The single edits that carry out one step of a script behind the text t. */
  ghost function Points(e: Edit, t: string): seq<PointEdit> {
    match e
    case Insert(b) => [InsertAt(|t|, b)]
    case Delete(_) => [DeleteAt(|t|)]
    case Change(a, b) => if a == b then [] else [ReplaceAt(|t|, b)]
  }

  lemma OnePoint(c: Costs, e: PointEdit)
    ensures PointCost(c, [e]) == OneCost(c, e)
  {
    assert PointCost(c, [e][1..]) == 0;
  }

  lemma PointsReach(c: Costs, e: Edit, t: string, rest: string)
    ensures Reaches(Points(e, t), t + (Consumed(e) + rest), t + (Produced(e) + rest))
    ensures PointCost(c, Points(e, t)) == EditCost(c, e)
  {
    var es, u, v := Points(e, t), t + (Consumed(e) + rest), t + (Produced(e) + rest);
    if es != [] {
      OnePoint(c, es[0]);
      assert ApplyOne(es[0], u) == v by {
        assert u[..|t|] == t;
        if e.Insert? { assert u[|t|..] == rest; } else { assert u[|t|+1..] == rest; }
        assert v == if e.Delete? then t + rest else t + [e.to] + rest;
      }
      assert Reaches(es[1..], v, v);
    }
  }

  /** A script can be carried out edit by edit, left to right, at the same cost. */
  lemma {:induction false} ScriptAsPoints(c: Costs, p: Script, rest: string) returns (es: seq<PointEdit>)
    ensures Reaches(es, Source(p) + rest, Target(p) + rest)
    ensures PointCost(c, es) == Cost(c, p)
  {
    if p == [] {
      es := [];
    } else {
      var p', e := p[..|p|-1], p[|p|-1];
      var fs := ScriptAsPoints(c, p', Consumed(e) + rest);
      Assoc(Source(p'), Consumed(e), rest);
      Assoc(Target(p'), Produced(e), rest);
      PointsReach(c, e, Target(p'), rest);
      var step := Points(e, Target(p'));
      ReachesConcat(c, fs, step, Source(p) + rest, Target(p') + (Consumed(e) + rest), Target(p) + rest);
      es := fs + step;
    }
  }
}
