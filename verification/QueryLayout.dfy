/**
 What a printed query looks like: no parentheses but those that are needed, and the query
 itself up to the grouping of chains of &.
 */
module QueryLayout {
  import opened BoolQuery
  import opened QueryGrammar
  import opened QueryParser
  import opened QueryPrinter
  import QT = QueryText

  // ----- no more parentheses than needed -----

  /** Nothing is in parentheses as a whole, and there is one | at most. */
  predicate TidyE(e: Expr) {
    match e
    case Single(t) => TidyT(t) && !(t.One? && t.f.Paren?)
    case OrMore(d, t) => d.Single? && TidyT(d.t) && TidyT(t)
  }

  predicate TidyT(t: Term) {
    match t
    case One(f) => TidyF(f)
    case AndMore(u, f) => TidyT(u) && TidyF(f)
  }

  /** Parentheses stand around a disjunction, or behind ! around all but a number. */
  predicate TidyF(f: Factor) {
    match f
    case Num(_) => true
    case Bang(Num(_)) => true
    case Bang(Paren(e)) => TidyE(e) && !(e.Single? && e.t.One? && e.t.f.Num?)
    case Bang(Bang(_)) => false
    case Paren(e) => e.OrMore? && TidyE(e)
  }

  lemma {:induction false} ChainTidy(t: Term, u: Term)
    requires TidyT(t) && TidyT(u)
    ensures TidyT(Chain(t, u))
  {
    if u.AndMore? { ChainTidy(t, u.t); }
  }

  lemma {:induction false} PrintsTidy(q: Query)
    ensures TidyT(ToTerm(q)) && TidyE(ToExpr(q))
  {
    match q
    case Val(_) =>
    case Not(a) =>
      PrintsTidy(a);
      if !a.Val? { NotANumber(a); }
    case Bin(op, l, r) =>
      PrintsTidy(l);
      PrintsTidy(r);
      if op.And? { ChainTidy(ToTerm(l), ToTerm(r)); }
  }

  lemma NotANumber(a: Query)
    requires !a.Val?
    ensures var e := ToExpr(a); !(e.Single? && e.t.One? && e.t.f.Num?)
  {
  }

  // ----- grouping -----

  /** l & r with the chain on the right taken apart, so that it groups to the left. */
  ghost function AndOnto(l: Query, r: Query): Query {
    match r
    case Bin(And, a, b) => Bin(And, AndOnto(l, a), b)
    case _ => Bin(And, l, r)
  }

  ghost function Grouped(q: Query): Query {
    match q
    case Val(_) => q
    case Not(a) => Not(Grouped(a))
    case Bin(And, l, r) => AndOnto(Grouped(l), Grouped(r))
    case Bin(Or, l, r) => Bin(Or, Grouped(l), Grouped(r))
  }

  lemma {:induction false} ChainTree(t: Term, u: Term)
    requires TidyT(u)
    ensures TreeT(Chain(t, u)) == AndOnto(TreeT(t), TreeT(u))
  {
    match u
    case One(f) => TidyRoot(f);
    case AndMore(v, f) => ChainTree(t, v);
  }

  /** A factor without needless parentheses is no conjunction. */
  lemma TidyRoot(f: Factor)
    requires TidyF(f)
    ensures !(TreeF(f).Bin? && TreeF(f).op.And?)
    ensures f.Num? <==> TreeF(f).Val?
    ensures f.Bang? <==> TreeF(f).Not?
  {
  }

  /** Printing and reading changes the grouping of chains of &, and nothing else. */
  lemma {:induction false} RereadIsGrouped(q: Query)
    ensures TreeT(ToTerm(q)) == Grouped(q) && Reread(q) == Grouped(q)
  {
    match q
    case Val(n) =>
      assert TreeF(Num(n)) == q;
      assert TreeE(Single(ToTerm(q))) == TreeT(ToTerm(q));
    case Not(a) =>
      RereadIsGrouped(a);
      var f := if a.Val? then Num(a.n) else Paren(ToExpr(a));
      assert TreeF(f) == Grouped(a);
      assert TreeE(Single(ToTerm(q))) == TreeT(ToTerm(q)) == TreeF(Bang(f));
    case Bin(op, l, r) =>
      RereadIsGrouped(l);
      RereadIsGrouped(r);
      if op.And? {
        PrintsTidy(r);
        ChainTree(ToTerm(l), ToTerm(r));
        assert TreeE(Single(ToTerm(q))) == TreeT(ToTerm(q));
      } else {
        OrTree(ToTerm(l), ToTerm(r));
      }
  }

  /** No conjunction is the right operand of a conjunction. */
  ghost predicate ToTheLeft(q: Query) {
    match q
    case Val(_) => true
    case Not(a) => ToTheLeft(a)
    case Bin(op, l, r) => ToTheLeft(l) && ToTheLeft(r) && !(op.And? && r.Bin? && r.op.And?)
  }

  lemma {:induction false} AndOntoKeeps(l: Query, r: Query, present: int -> bool)
    requires ToTheLeft(l) && ToTheLeft(r)
    ensures ToTheLeft(AndOnto(l, r)) && ValueList(AndOnto(l, r)) == ValueList(l) + ValueList(r)
    ensures Eval(AndOnto(l, r), present) == (Eval(l, present) && Eval(r, present))
  {
    if r.Bin? && r.op.And? {
      AndOntoKeeps(l, r.l, present);
      AppendAssoc(ValueList(l), ValueList(r.l), ValueList(r.r));
    }
  }

  /** Grouping keeps the values in their order and the truth. */
  lemma {:induction false} GroupedKeeps(q: Query, present: int -> bool)
    ensures ToTheLeft(Grouped(q)) && ValueList(Grouped(q)) == ValueList(q)
    ensures Eval(Grouped(q), present) == Eval(q, present)
    ensures ToTheLeft(q) ==> Grouped(q) == q
  {
    match q
    case Val(_) =>
    case Not(a) => GroupedKeeps(a, present);
    case Bin(op, l, r) =>
      GroupedKeeps(l, present);
      GroupedKeeps(r, present);
      if op.And? { AndOntoKeeps(Grouped(l), Grouped(r), present); }
  }

  // ----- the printed text -----

  lemma {:induction false} TidyUniqueE(d: Expr, e: Expr)
    requires TidyE(d) && TidyE(e) && TreeE(d) == TreeE(e)
    ensures d == e
  {
    if d.OrMore? && e.OrMore? {
      assert TreeE(d.e) == TreeT(d.e.t) && TreeE(e.e) == TreeT(e.e.t);
      TidyUniqueT(d.e.t, e.e.t);
      TidyUniqueT(d.t, e.t);
    } else if d.Single? && e.Single? {
      TidyUniqueT(d.t, e.t);
    } else if d.Single? {
      NoDisjunction(d.t);
    } else {
      NoDisjunction(e.t);
    }
  }

  lemma NoDisjunction(t: Term)
    requires TidyT(t) && !(t.One? && t.f.Paren?)
    ensures !(TreeT(t).Bin? && TreeT(t).op.Or?)
  {
  }

  lemma {:induction false} TidyUniqueT(t: Term, u: Term)
    requires TidyT(t) && TidyT(u) && TreeT(t) == TreeT(u)
    ensures t == u
  {
    if t.One? && u.One? {
      TidyUniqueF(t.f, u.f);
    } else if t.One? {
      TidyRoot(t.f);
    } else if u.One? {
      TidyRoot(u.f);
    } else {
      TidyUniqueT(t.t, u.t);
      TidyUniqueF(t.f, u.f);
    }
  }

  lemma {:induction false} TidyUniqueF(f: Factor, g: Factor)
    requires TidyF(f) && TidyF(g) && TreeF(f) == TreeF(g)
    ensures f == g
  {
    TidyRoot(f);
    TidyRoot(g);
    if f.Paren? && g.Paren? {
      TidyUniqueE(f.e, g.e);
    } else if f.Bang? && g.Bang? && f.f.Paren? && g.f.Paren? {
      TidyUniqueE(f.f.e, g.f.e);
    } else if f.Bang? && f.f.Paren? {
      TidyNumber(f.f.e);
    } else if f.Bang? && g.f.Paren? {
      TidyNumber(g.f.e);
    }
  }

  lemma TidyNumber(e: Expr)
    requires TidyE(e) && !(e.Single? && e.t.One? && e.t.f.Num?)
    ensures !TreeE(e).Val?
  {
    if e.Single? && e.t.One? { TidyRoot(e.t.f); }
  }

  /** text is the layout of a derivation without needless parentheses that has the tree. */
  ghost predicate PrintedAs(q: Query, text: string) {
    exists e :: TidyE(e) && TreeE(e) == q && text == Layout(YieldE(e))
  }

  /** bqarr_out writes the only such text of the query with its chains of & grouped to the left. */
  lemma PrintedForm(q: Query, text: string)
    ensures text == Print(q, true) <==> PrintedAs(Grouped(q), text)
  {
    ExprLayout(q);
    PrintsTidy(q);
    RereadIsGrouped(q);
    if e :| TidyE(e) && TreeE(e) == Grouped(q) && text == Layout(YieldE(e)) { TidyUniqueE(e, ToExpr(q)); }
  }
}
