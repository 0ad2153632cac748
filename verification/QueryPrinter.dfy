/**
 infix() and bqarr_out(): printing a query.  Printing loses how a chain of & was
 grouped, and nothing else: the printed text is always accepted again, has the same
 truth, and prints to itself.
 */
module QueryPrinter {
  import opened BoolQuery
  import opened QueryGrammar
  import opened QueryParser
  import opened QuerySpelling
  import QT = QueryText

  /** The text of q; first is false inside an operand, where a disjunction needs parentheses. */
  function Print(q: Query, first: bool): string {
    match q
    case Val(n) => QT.IntText(n)
    case Not(a) => if a.Val? then "!" + Print(a, false) else "!( " + Print(a, true) + " )"
    case Bin(op, l, r) => Infixed(op, Print(l, false), Print(r, false), first)
  }

  function Infixed(op: Op, l: string, r: string, first: bool): string {
    match op
    case And => l + " & " + r
    case Or => if first then l + " | " + r else "( " + (l + " | " + r) + " )"
  }

  // ----- the program -----

  /** INFIX: the item to print next and the text so far (buf up to cur). */
  class Printer {
    const items: seq<Item>
    var curpol: int
    var text: string

    constructor (items: seq<Item>, curpol: int)
      ensures this.items == items && this.curpol == curpol && text == ""
    {
      this.items := items;
      this.curpol, text := curpol, "";
    }

    method Infix(first: bool, ghost q: Query)
      requires Spells(items, curpol, q)
      modifies this
      ensures curpol == old(curpol) - Size(q)
      ensures text == old(text) + Print(q, first)
      decreases Size(q), 1
    {
      if items[curpol].kind == VAL {
        text := text + QT.IntText(items[curpol].val);
        curpol := curpol - 1;
      } else if items[curpol].val == BANG {
        InfixNot(q.arg);
      } else {
        InfixBinary(first, q.op, q.l, q.r);
      }
    }

    method InfixNot(ghost a: Query)
      requires Spells(items, curpol - 1, a)
      modifies this
      ensures curpol == old(curpol) - 1 - Size(a)
      ensures text == old(text) + if a.Val? then "!" + Print(a, false) else "!( " + Print(a, true) + " )"
      decreases Size(a) + 1, 0
    {
      var isopr := false;
      text := text + "!";
      curpol := curpol - 1;
      if items[curpol].kind == OPR {
        isopr := true;
        text := text + "( ";
      }
      Infix(isopr, a);
      if isopr {
        text := text + " )";
      }
      NotText(old(text), Print(a, isopr));
    }

    method InfixBinary(first: bool, ghost o: Op, ghost l: Query, ghost r: Query)
      requires 0 <= curpol < |items| && items[curpol].val == Code(o)
      requires Spells(items, curpol - 1, r) && Spells(items, curpol - 1 - Size(r), l)
      modifies this
      ensures curpol == old(curpol) - 1 - Size(r) - Size(l)
      ensures text == old(text) + Infixed(o, Print(l, false), Print(r, false), first)
      decreases Size(l) + Size(r) + 1, 0
    {
      var op := items[curpol].val;
      curpol := curpol - 1;
      if op == BAR && !first {
        text := text + "( ";
      }
      var right := InfixOperands(l, r);
      text := text + " " + [op as char] + " " + right;
      if op == BAR && !first {
        text := text + " )";
      }
      InfixText(old(text), o, Print(l, false), Print(r, false));
    }

    /** The right operand comes first in the array, and is printed into a buffer of its own. */
    method InfixOperands(ghost l: Query, ghost r: Query) returns (right: string)
      requires Spells(items, curpol, r) && Spells(items, curpol - Size(r), l)
      modifies this
      ensures curpol == old(curpol) - Size(r) - Size(l)
      ensures text == old(text) + Print(l, false) && right == Print(r, false)
      decreases Size(l) + Size(r), 2
    {
      var nrm := new Printer(items, curpol);
      nrm.Infix(false, r);
      curpol := nrm.curpol;
      Infix(false, l);
      right := nrm.text;
    }
  }

  lemma NotText(before: string, t: string)
    ensures before + "!" + t == before + ("!" + t)
    ensures before + "!" + "( " + t + " )" == before + ("!( " + t + " )")
  {
  }

  lemma InfixText(before: string, o: Op, l: string, r: string)
    ensures before + l + " " + [Code(o) as char] + " " + r == before + Infixed(o, l, r, true)
    ensures before + "( " + l + " " + [BAR as char] + " " + r + " )" == before + Infixed(Or, l, r, false)
  {
  }

  /** infix never reads the links, so that they may have wrapped. */
  method BqarrOut(items: seq<Item>, ghost q: Query) returns (text: string)
    requires Spells(items, |items| - 1, q)
    ensures text == Print(q, true)
  {
    var nrm := new Printer(items, |items| - 1);
    nrm.Infix(true, q);
    text := nrm.text;
  }

  // ----- the derivation of a printed text -----

  /** Chains of & run together when printed. */
  function Chain(t: Term, u: Term): Term {
    match u
    case One(f) => AndMore(t, f)
    case AndMore(v, f) => AndMore(Chain(t, v), f)
  }

  function ToTerm(q: Query): Term
    decreases q, 0
  {
    match q
    case Val(n) => One(Num(n))
    case Not(a) => One(Bang(if a.Val? then Num(a.n) else Paren(ToExpr(a))))
    case Bin(And, l, r) => Chain(ToTerm(l), ToTerm(r))
    case Bin(Or, l, r) => One(Paren(OrMore(Single(ToTerm(l)), ToTerm(r))))
  }

  function ToExpr(q: Query): Expr
    decreases q, 1
  {
    match q
    case Bin(Or, l, r) => OrMore(Single(ToTerm(l)), ToTerm(r))
    case _ => Single(ToTerm(q))
  }

  /** What reading the printed text gives back. */
  function Reread(q: Query): Query { TreeE(ToExpr(q)) }

  lemma {:induction false} ChainYield(t: Term, u: Term)
    ensures YieldT(Chain(t, u)) == YieldT(t) + [QT.OPR('&')] + YieldT(u)
  {
    match u
    case One(f) =>
    case AndMore(v, f) => ChainYield(t, v);
  }

  ghost predicate Int4Values(q: Query) {
    match q
    case Val(n) => QT.Int4(n)
    case Not(a) => Int4Values(a)
    case Bin(_, l, r) => Int4Values(l) && Int4Values(r)
  }

  lemma OrYield(t: Term, u: Term)
    ensures var e := OrMore(Single(t), u);
      YieldE(e) == YieldT(t) + [QT.OPR('|')] + YieldT(u)
      && YieldT(One(Paren(e))) == [QT.OPEN] + YieldE(e) + [QT.CLOSE]
  {
    var e := OrMore(Single(t), u);
    assert YieldE(Single(t)) == YieldT(t);
    assert YieldF(Paren(e)) == [QT.OPEN] + YieldE(e) + [QT.CLOSE];
  }

  lemma OrMeans(t: Term, u: Term, present: int -> bool)
    ensures var e := OrMore(Single(t), u);
      MeansE(e, present) == (MeansT(t, present) || MeansT(u, present))
      && MeansT(One(Paren(e)), present) == MeansE(e, present)
  {
    var e := OrMore(Single(t), u);
    assert MeansE(Single(t), present) == MeansT(t, present);
    assert MeansF(Paren(e), present) == MeansE(e, present);
  }

  // ----- tokens in a row -----

  function TokenText(t: QT.Token): string {
    match t
    case VAL(n) => QT.IntText(n)
    case OPR(c) => if c == '!' then "!" else [' ', c, ' ']
    case OPEN => "( "
    case CLOSE => " )"
    case _ => ""
  }

  function Layout(ts: seq<QT.Token>): string {
    if ts == [] then "" else TokenText(ts[0]) + Layout(ts[1..])
  }

  lemma {:induction false} LayoutJoin(a: seq<QT.Token>, b: seq<QT.Token>)
    ensures Layout(a + b) == Layout(a) + Layout(b)
  {
    if a == [] {
      assert a + b == b;
    } else {
      assert (a + b)[1..] == a[1..] + b;
      LayoutJoin(a[1..], b);
      AppendAssoc(TokenText(a[0]), Layout(a[1..]), Layout(b));
    }
  }

  lemma LayoutOne(t: QT.Token)
    ensures Layout([t]) == TokenText(t)
  {
    assert Layout([t][1..]) == "";
  }

  lemma LayoutThree(a: seq<QT.Token>, t: QT.Token, b: seq<QT.Token>)
    ensures Layout(a + [t] + b) == Layout(a) + TokenText(t) + Layout(b)
  {
    LayoutJoin(a + [t], b);
    LayoutJoin(a, [t]);
    LayoutOne(t);
  }

  lemma LayoutParen(a: seq<QT.Token>)
    ensures Layout([QT.OPEN] + a + [QT.CLOSE]) == "( " + Layout(a) + " )"
  {
    LayoutJoin([QT.OPEN] + a, [QT.CLOSE]);
    LayoutJoin([QT.OPEN], a);
    LayoutOne(QT.OPEN);
    LayoutOne(QT.CLOSE);
  }

  lemma LayoutBang(a: seq<QT.Token>)
    ensures Layout([QT.OPR('!')] + a) == "!" + Layout(a)
  {
    LayoutJoin([QT.OPR('!')], a);
    LayoutOne(QT.OPR('!'));
  }

  lemma {:induction false} TermLayout(q: Query)
    ensures Print(q, false) == Layout(YieldT(ToTerm(q)))
    decreases q, 0
  {
    match q
    case Val(n) => LayoutOne(QT.VAL(n));
    case Not(a) => NotLayout(a);
    case Bin(op, l, r) =>
      TermLayout(l);
      TermLayout(r);
      if op.And? {
        LayoutThree(YieldT(ToTerm(l)), QT.OPR('&'), YieldT(ToTerm(r)));
        ChainYield(ToTerm(l), ToTerm(r));
      } else {
        LayoutThree(YieldT(ToTerm(l)), QT.OPR('|'), YieldT(ToTerm(r)));
        OrYield(ToTerm(l), ToTerm(r));
        LayoutParen(YieldE(OrMore(Single(ToTerm(l)), ToTerm(r))));
      }
  }

  lemma {:induction false} NotLayout(a: Query)
    ensures Print(Not(a), false) == Layout(YieldT(ToTerm(Not(a))))
    decreases a, 2
  {
    if a.Val? {
      LayoutOne(QT.VAL(a.n));
      LayoutBang([QT.VAL(a.n)]);
      assert YieldF(Num(a.n)) == [QT.VAL(a.n)];
    } else {
      ExprLayout(a);
      LayoutParen(YieldE(ToExpr(a)));
      LayoutBang(YieldF(Paren(ToExpr(a))));
    }
  }

  lemma {:induction false} ExprLayout(q: Query)
    ensures Print(q, true) == Layout(YieldE(ToExpr(q)))
    decreases q, 1
  {
    if q.Bin? && q.op.Or? {
      TermLayout(q.l);
      TermLayout(q.r);
      LayoutThree(YieldT(ToTerm(q.l)), QT.OPR('|'), YieldT(ToTerm(q.r)));
      OrYield(ToTerm(q.l), ToTerm(q.r));
    } else {
      TermLayout(q);
      assert Print(q, true) == Print(q, false);
    }
  }

  // ----- the layout is read as the tokens -----

  /** The token can be written. */
  ghost predicate Writable(t: QT.Token) {
    match t
    case VAL(n) => QT.Int4(n)
    case OPR(c) => c in "!&|"
    case OPEN => true
    case CLOSE => true
    case _ => false
  }

  ghost predicate Written(ts: seq<QT.Token>) { forall i :: 0 <= i < |ts| ==> Writable(ts[i]) }

  lemma WrittenAround(a: seq<QT.Token>, t: QT.Token, b: seq<QT.Token>)
    requires Written(a) && Writable(t) && Written(b)
    ensures Written(a + [t] + b)
  {
  }

  lemma WrittenParen(a: seq<QT.Token>)
    requires Written(a)
    ensures Written([QT.OPEN] + a + [QT.CLOSE])
  {
  }

  lemma {:induction false} TermWritten(q: Query)
    requires Int4Values(q)
    ensures Written(YieldT(ToTerm(q))) && Written(YieldE(ToExpr(q)))
  {
    match q
    case Val(_) =>
    case Not(a) =>
      TermWritten(a);
      var f := if a.Val? then Num(a.n) else Paren(ToExpr(a));
      WrittenParen(YieldE(ToExpr(a)));
      assert Written(YieldF(f));
      WrittenAround([], QT.OPR('!'), YieldF(f));
      assert [] + [QT.OPR('!')] == [QT.OPR('!')];
    case Bin(op, l, r) =>
      TermWritten(l);
      TermWritten(r);
      if op.And? {
        ChainYield(ToTerm(l), ToTerm(r));
        WrittenAround(YieldT(ToTerm(l)), QT.OPR('&'), YieldT(ToTerm(r)));
      } else {
        OrYield(ToTerm(l), ToTerm(r));
        WrittenAround(YieldT(ToTerm(l)), QT.OPR('|'), YieldT(ToTerm(r)));
        WrittenParen(YieldE(OrMore(Single(ToTerm(l)), ToTerm(r))));
      }
  }

  /** A text may begin with one more blank. */
  lemma SpelledBehindBlank(ts: seq<QT.Token>, s: string)
    requires Spelled(ts, s)
    ensures Spelled(ts, " " + s)
  {
    if ts != [] {
      var b, w, rest :| Starts(b, w, rest, s, ts[0]) && Spelled(ts[1..], rest);
      assert " " + s == (" " + b) + w + rest;
      assert Starts(" " + b, w, rest, " " + s, ts[0]);
    }
  }

  lemma SpelledCons(b: string, w: string, rest: string, s: string, t: QT.Token, ts: seq<QT.Token>)
    requires Starts(b, w, rest, s, t) && Spelled(ts, rest)
    ensures Spelled([t] + ts, s)
  {
    var all := [t] + ts;
    assert Starts(b, w, rest, s, all[0]) && Spelled(all[1..], rest);
  }

  /** A token is laid out as its lexeme with a blank on either side or none. */
  lemma TokenParts(t: QT.Token) returns (b: string, w: string, after: string)
    requires Writable(t)
    ensures TokenText(t) == b + w + after && Blank(b) && Lexeme(t, w) && (after == "" || after == " ")
  {
    b, w, after := "", "", "";
    match t
    case VAL(n) =>
      QT.StrtolUndoesSprintf(n);
      w := QT.IntText(n);
      assert "" + w + "" == w;
    case OPR(c) =>
      if c == '!' { w := "!"; } else { b, w, after := " ", [c], " "; }
    case OPEN => w, after := "(", " ";
    case CLOSE => b, w := " ", ")";
    case _ =>
  }

  lemma SpelledAfter(ts: seq<QT.Token>, after: string, s: string)
    requires Spelled(ts, s) && (after == "" || after == " ")
    ensures Spelled(ts, after + s)
  {
    if after == "" { assert after + s == s; } else { SpelledBehindBlank(ts, s); }
  }

  lemma Fourth(b: string, w: string, after: string, s: string)
    ensures b + w + after + s == b + w + (after + s)
  {
  }

  lemma TokenSpelled(t: QT.Token, ts: seq<QT.Token>, s: string)
    requires Writable(t) && Spelled(ts, s)
    ensures Spelled([t] + ts, TokenText(t) + s)
  {
    var b, w, after := TokenParts(t);
    SpelledAfter(ts, after, s);
    Fourth(b, w, after, s);
    SpelledCons(b, w, after + s, TokenText(t) + s, t, ts);
  }

  lemma {:induction false} LayoutSpells(ts: seq<QT.Token>)
    requires Written(ts)
    ensures Spelled(ts, Layout(ts))
  {
    if ts != [] {
      LayoutSpells(ts[1..]);
      TokenSpelled(ts[0], ts[1..], Layout(ts[1..]));
      assert [ts[0]] + ts[1..] == ts;
    }
  }

  /** The printed text has the derivation it was made for. */
  lemma PrintDerives(q: Query)
    requires Int4Values(q)
    ensures Derives(ToExpr(q), Print(q, true))
  {
    ExprLayout(q);
    TermWritten(q);
    LayoutSpells(YieldE(ToExpr(q)));
    DerivesIffSpelled(ToExpr(q), Print(q, true));
  }

  // ----- what is lost and what is kept -----

  lemma {:induction false} ChainMeans(t: Term, u: Term, present: int -> bool)
    ensures MeansT(Chain(t, u), present) == (MeansT(t, present) && MeansT(u, present))
  {
    match u
    case One(f) =>
    case AndMore(v, f) => ChainMeans(t, v, present);
  }

  lemma {:induction false} TermMeans(q: Query, present: int -> bool)
    ensures MeansT(ToTerm(q), present) == Eval(q, present)
    decreases q, 0
  {
    match q
    case Val(_) =>
    case Not(a) =>
      if a.Val? {
        assert MeansF(Num(a.n), present) == present(a.n);
      } else {
        ExprMeans(a, present);
        assert MeansF(Paren(ToExpr(a)), present) == MeansE(ToExpr(a), present);
      }
    case Bin(op, l, r) =>
      TermMeans(l, present);
      TermMeans(r, present);
      if op.And? { ChainMeans(ToTerm(l), ToTerm(r), present); } else { OrMeans(ToTerm(l), ToTerm(r), present); }
  }

  lemma {:induction false} ExprMeans(q: Query, present: int -> bool)
    ensures MeansE(ToExpr(q), present) == Eval(q, present)
    decreases q, 1
  {
    if q.Bin? && q.op.Or? {
      TermMeans(q.l, present);
      TermMeans(q.r, present);
      OrMeans(ToTerm(q.l), ToTerm(q.r), present);
    } else {
      TermMeans(q, present);
    }
  }

  lemma {:induction false} FitsShallower(f: Factor, depth: nat, deeper: nat, limit: nat)
    requires depth <= deeper && FitsF(f, deeper, limit)
    ensures FitsF(f, depth, limit)
  {
    match f
    case Num(_) =>
    case Bang(g) => FitsShallower(g, depth + 1, deeper + 1, limit);
    case Paren(_) =>
  }

  /** Printing puts at most one ! before a number or a parenthesis, so two places below it suffice. */
  ghost predicate EachFits(t: Term) {
    match t
    case One(f) => FitsF(f, 2, 3)
    case AndMore(v, f) => EachFits(v) && FitsF(f, 2, 3)
  }

  lemma {:induction false} ChainEachFits(t: Term, u: Term)
    requires EachFits(t) && EachFits(u)
    ensures EachFits(Chain(t, u))
  {
    match u
    case One(_) =>
    case AndMore(v, _) => ChainEachFits(t, v);
  }

  lemma {:induction false} EachFitsTerm(t: Term, depth: nat)
    requires EachFits(t) && depth <= 1
    ensures FitsT(t, depth, 3)
  {
    match t
    case One(f) => FitsShallower(f, depth, 2, 3);
    case AndMore(v, f) =>
      EachFitsTerm(v, depth);
      FitsShallower(f, depth + 1, 2, 3);
  }

  lemma {:induction false} TermFits(q: Query)
    ensures EachFits(ToTerm(q))
    decreases q, 0
  {
    match q
    case Val(n) =>
      assert FitsF(Num(n), 2, 3);
    case Not(a) =>
      if a.Val? {
        assert FitsF(Num(a.n), 3, 3);
      } else {
        ExprFits(a);
        assert FitsF(Paren(ToExpr(a)), 3, 3);
      }
    case Bin(op, l, r) =>
      TermFits(l);
      TermFits(r);
      if op.And? {
        ChainEachFits(ToTerm(l), ToTerm(r));
      } else {
        OrFits(ToTerm(l), ToTerm(r));
        assert FitsF(Paren(OrMore(Single(ToTerm(l)), ToTerm(r))), 2, 3);
      }
  }

  lemma OrFits(t: Term, u: Term)
    requires EachFits(t) && EachFits(u)
    ensures FitsE(OrMore(Single(t), u), 3)
  {
    EachFitsTerm(t, 0);
    EachFitsTerm(u, 1);
    assert FitsE(Single(t), 3);
  }

  /** Reading a printed text never needs more than three places on the operator stack. */
  lemma {:induction false} ExprFits(q: Query)
    ensures FitsE(ToExpr(q), 3)
    decreases q, 1
  {
    if q.Bin? && q.op.Or? {
      TermFits(q.l);
      TermFits(q.r);
      OrFits(ToTerm(q.l), ToTerm(q.r));
    } else {
      TermFits(q);
      EachFitsTerm(ToTerm(q), 0);
    }
  }

  lemma {:induction false} MoreRoom(e: Expr, limit: nat, more: nat)
    requires limit <= more && FitsE(e, limit)
    ensures FitsE(e, more)
  {
    match e
    case Single(t) => MoreRoomT(t, 0, limit, more);
    case OrMore(d, t) =>
      MoreRoom(d, limit, more);
      MoreRoomT(t, 1, limit, more);
  }

  lemma {:induction false} MoreRoomT(t: Term, depth: nat, limit: nat, more: nat)
    requires limit <= more && FitsT(t, depth, limit)
    ensures FitsT(t, depth, more)
  {
    match t
    case One(f) => MoreRoomF(f, depth, limit, more);
    case AndMore(v, f) =>
      MoreRoomT(v, depth, limit, more);
      MoreRoomF(f, depth + 1, limit, more);
  }

  lemma {:induction false} MoreRoomF(f: Factor, depth: nat, limit: nat, more: nat)
    requires limit <= more && FitsF(f, depth, limit)
    ensures FitsF(f, depth, more)
  {
    match f
    case Num(_) =>
    case Bang(g) => MoreRoomF(g, depth + 1, limit, more);
    case Paren(e) => MoreRoom(e, limit, more);
  }

  // ----- printing again -----

  lemma {:induction false} ChainPrints(t: Term, u: Term)
    ensures Print(TreeT(Chain(t, u)), false) == Print(TreeT(t), false) + " & " + Print(TreeT(u), false)
  {
    match u
    case One(f) =>
    case AndMore(v, f) =>
      ChainPrints(t, v);
      AppendAssoc(Print(TreeT(t), false) + " & ", Print(TreeT(v), false), " & " + Print(TreeF(f), false));
      AppendAssoc(Print(TreeT(t), false) + " & " + Print(TreeT(v), false), " & ", Print(TreeF(f), false));
      AppendAssoc(Print(TreeT(v), false), " & ", Print(TreeF(f), false));
  }

  lemma OrTree(t: Term, u: Term)
    ensures TreeE(OrMore(Single(t), u)) == Bin(Or, TreeT(t), TreeT(u))
    ensures TreeT(One(Paren(OrMore(Single(t), u)))) == Bin(Or, TreeT(t), TreeT(u))
  {
    assert TreeE(Single(t)) == TreeT(t);
    assert TreeF(Paren(OrMore(Single(t), u))) == TreeE(OrMore(Single(t), u));
  }

  lemma {:induction false} TermPrints(q: Query)
    ensures Print(TreeT(ToTerm(q)), false) == Print(q, false)
    decreases q, 0
  {
    match q
    case Val(n) =>
      assert TreeF(Num(n)) == q;
    case Not(a) =>
      if a.Val? {
        assert TreeF(Num(a.n)) == a;
      } else {
        ExprPrints(a);
        assert TreeF(Paren(ToExpr(a))) == TreeE(ToExpr(a));
      }
    case Bin(op, l, r) =>
      TermPrints(l);
      TermPrints(r);
      if op.And? { ChainPrints(ToTerm(l), ToTerm(r)); } else { OrTree(ToTerm(l), ToTerm(r)); }
  }

  lemma {:induction false} ExprPrints(q: Query)
    ensures Print(Reread(q), true) == Print(q, true)
    ensures Reread(q).Val? <==> q.Val?
    decreases q, 1
  {
    if q.Bin? && q.op.Or? {
      TermPrints(q.l);
      TermPrints(q.r);
      OrTree(ToTerm(q.l), ToTerm(q.r));
    } else {
      TermPrints(q);
      assert Print(q, true) == Print(q, false);
      assert Print(TreeT(ToTerm(q)), true) == Print(TreeT(ToTerm(q)), false);
    }
  }

  /**
   Printing any query and reading the text again always succeeds, with at most three
   places on the operator stack; the query read back has the same truth under every
   assignment and prints to the same text.
   */
  lemma PrintReadRoundTrip(q: Query)
    requires Int4Values(q)
    ensures Derives(ToExpr(q), Print(q, true)) && FitsE(ToExpr(q), 3)
    ensures Read(Print(q, true)) == Done(Polish(Reread(q)), [])
    ensures forall present: int -> bool :: Eval(Reread(q), present) == Eval(q, present)
    ensures Print(Reread(q), true) == Print(q, true)
  {
    PrintDerives(q);
    ExprFits(q);
    MoreRoom(ToExpr(q), 3, STACKDEPTH);
    AcceptsTheGrammar(Print(q, true));
    ExprPrints(q);
    forall present: int -> bool ensures Eval(Reread(q), present) == Eval(q, present) {
      ExprMeans(q, present);
      TreeMeansE(ToExpr(q), present);
    }
  }

  // ----- links after a round trip -----

  lemma {:induction false} ChainLinks(t: Term, u: Term)
    requires LinksFit(TreeT(t)) && LinksFit(TreeT(u)) && Size(TreeT(u)) < 0x8000
    ensures LinksFit(TreeT(Chain(t, u)))
    ensures Size(TreeT(Chain(t, u))) == Size(TreeT(t)) + Size(TreeT(u)) + 1
  {
    match u
    case One(f) =>
      assert TreeT(u) == TreeF(f);
    case AndMore(v, f) =>
      ChainLinks(t, v);
  }

  /** Regrouping a chain of & never makes a right operand longer. */
  lemma {:induction false} RereadLinksFit(q: Query)
    requires LinksFit(q)
    ensures LinksFit(TreeT(ToTerm(q))) && Size(TreeT(ToTerm(q))) == Size(q)
    ensures LinksFit(Reread(q)) && Size(Reread(q)) == Size(q)
  {
    match q
    case Val(n) =>
      assert TreeF(Num(n)) == q;
      assert TreeE(Single(ToTerm(q))) == TreeT(ToTerm(q));
    case Not(a) =>
      RereadLinksFit(a);
      var f := if a.Val? then Num(a.n) else Paren(ToExpr(a));
      assert TreeF(f) == Reread(a) by { if a.Val? { assert TreeE(Single(One(Num(a.n)))) == TreeF(Num(a.n)); } }
      assert TreeE(Single(ToTerm(q))) == TreeT(ToTerm(q)) == TreeF(Bang(f));
    case Bin(op, l, r) =>
      RereadLinksFit(l);
      RereadLinksFit(r);
      if op.And? {
        ChainLinks(ToTerm(l), ToTerm(r));
        assert TreeE(Single(ToTerm(q))) == TreeT(ToTerm(q));
      } else {
        OrTree(ToTerm(l), ToTerm(r));
      }
  }

  // ----- accepted texts -----

  lemma {:induction false} TokensInt4(s: string, mode: QT.Mode, count: int)
    requires mode != QT.WaitEndOperand
    ensures forall n :: QT.VAL(n) in QT.Tokens(s, mode, count) ==> QT.Int4(n)
    decreases |s|
  {
    var r := QT.NextToken(s, mode, count);
    QT.TokenDiscipline(s, mode, count);
    if r.token != QT.END && r.token != QT.ERR { TokensInt4(r.rest, r.mode, r.count); }
  }

  ghost predicate Int4Tokens(ts: seq<QT.Token>) { forall n :: QT.VAL(n) in ts ==> QT.Int4(n) }

  lemma {:induction false} Int4E(e: Expr)
    requires Int4Tokens(YieldE(e))
    ensures Int4Values(TreeE(e))
  {
    match e
    case Single(t) => Int4T(t);
    case OrMore(d, t) => Int4E(d); Int4T(t);
  }

  lemma {:induction false} Int4T(t: Term)
    requires Int4Tokens(YieldT(t))
    ensures Int4Values(TreeT(t))
  {
    match t
    case One(f) => Int4F(f);
    case AndMore(u, f) => Int4T(u); Int4F(f);
  }

  lemma {:induction false} Int4F(f: Factor)
    requires Int4Tokens(YieldF(f))
    ensures Int4Values(TreeF(f))
  {
    match f
    case Num(n) => assert QT.VAL(n) in YieldF(f);
    case Bang(g) => Int4F(g);
    case Paren(e) => Int4E(e);
  }

  /**
   Whatever text bqarr_in accepts, bqarr_out of what it built is accepted again, and means
   the same.  This holds even where links have wrapped, since printing does not read them.
   */
  lemma ReadPrintRead(text: string, e: Expr)
    requires Derives(e, text)
    ensures var out := Print(TreeE(e), true);
      && Derives(ToExpr(TreeE(e)), out) && FitsE(ToExpr(TreeE(e)), STACKDEPTH)
      && (forall present: int -> bool :: MeansE(ToExpr(TreeE(e)), present) == MeansE(e, present))
      && Print(TreeE(ToExpr(TreeE(e))), true) == out
  {
    var q := TreeE(e);
    TokensInt4(text, QT.WaitOperand, 0);
    Int4E(e);
    PrintReadRoundTrip(q);
    MoreRoom(ToExpr(q), 3, STACKDEPTH);
    forall present: int -> bool ensures MeansE(ToExpr(q), present) == MeansE(e, present) {
      ExprMeans(q, present);
      TreeMeansE(e, present);
    }
  }

  // ----- a text whose items are linked wrongly -----

  /** 2 & 2 & ... & 2 with k operators, grouped as it is read. */
  function Twos(k: nat): (q: Query)
    ensures Size(q) == 2 * k + 1
  {
    if k == 0 then Val(2) else Bin(And, Twos(k - 1), Val(2))
  }

  lemma {:induction false} TwosReread(k: nat)
    ensures TreeT(ToTerm(Twos(k))) == Twos(k) && Int4Values(Twos(k)) && LinksFit(Twos(k))
  {
    assert TreeF(Num(2)) == Val(2);
    if k > 0 {
      TwosReread(k - 1);
      assert ToTerm(Val(2)) == One(Num(2));
      assert Chain(ToTerm(Twos(k - 1)), One(Num(2))) == AndMore(ToTerm(Twos(k - 1)), Num(2));
    }
  }

  /** 1 | 2 & 2 & ... & 2 with k operators &. */
  function LongQuery(k: nat): Query { Bin(Or, Val(1), Twos(k)) }

  lemma LongReread(k: nat)
    ensures Int4Values(LongQuery(k)) && Reread(LongQuery(k)) == LongQuery(k)
  {
    TwosReread(k);
    OrTree(ToTerm(Val(1)), ToTerm(Twos(k)));
    assert TreeT(ToTerm(Val(1))) == Val(1) by { assert TreeF(Num(1)) == Val(1); }
  }

  /** A query that rereading does not regroup is what its printed text means. */
  lemma TextFor(q: Query)
    requires Int4Values(q) && Reread(q) == q
    ensures Derives(ToExpr(q), Print(q, true)) && FitsE(ToExpr(q), STACKDEPTH) && TreeE(ToExpr(q)) == q
  {
    PrintReadRoundTrip(q);
    MoreRoom(ToExpr(q), 3, STACKDEPTH);
  }

  /** The text is accepted for every k, but from 16384 on its right operand is too long for the link. */
  lemma LongOperandAccepted(k: nat) returns (text: string, e: Expr)
    ensures Derives(e, text) && FitsE(e, STACKDEPTH)
    ensures TreeE(e) == LongQuery(k) && (LinksFit(TreeE(e)) <==> k < 0x4000)
  {
    LongReread(k);
    TextFor(LongQuery(k));
    text, e := Print(LongQuery(k), true), ToExpr(LongQuery(k));
    TwosReread(k);
    assert LinksFit(LongQuery(k)) <==> Size(Twos(k)) < 0x8000;
  }
}
