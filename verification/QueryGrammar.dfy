/**
 The grammar of query texts as derivation trees over tokens: ! binds tighter than &,
 & tighter than |, both associate to the left, parentheses group.
 */
module QueryGrammar {
  import opened BoolQuery
  import QT = QueryText

  datatype Expr = Single(t: Term) | OrMore(e: Expr, t: Term)
  datatype Term = One(f: Factor) | AndMore(t: Term, f: Factor)
  datatype Factor = Num(n: int) | Bang(f: Factor) | Paren(e: Expr)

  function YieldE(e: Expr): seq<QT.Token> {
    match e
    case Single(t) => YieldT(t)
    case OrMore(e, t) => YieldE(e) + [QT.OPR('|')] + YieldT(t)
  }

  function YieldT(t: Term): seq<QT.Token> {
    match t
    case One(f) => YieldF(f)
    case AndMore(t, f) => YieldT(t) + [QT.OPR('&')] + YieldF(f)
  }

  function YieldF(f: Factor): seq<QT.Token> {
    match f
    case Num(n) => [QT.VAL(n)]
    case Bang(f) => [QT.OPR('!')] + YieldF(f)
    case Paren(e) => [QT.OPEN] + YieldE(e) + [QT.CLOSE]
  }

  /** The truth a derivation stands for. */
  predicate MeansE(e: Expr, present: int -> bool) {
    match e
    case Single(t) => MeansT(t, present)
    case OrMore(e, t) => MeansE(e, present) || MeansT(t, present)
  }

  predicate MeansT(t: Term, present: int -> bool) {
    match t
    case One(f) => MeansF(f, present)
    case AndMore(t, f) => MeansT(t, present) && MeansF(f, present)
  }

  predicate MeansF(f: Factor, present: int -> bool) {
    match f
    case Num(n) => present(n)
    case Bang(f) => !MeansF(f, present)
    case Paren(e) => MeansE(e, present)
  }

  function TreeE(e: Expr): Query {
    match e
    case Single(t) => TreeT(t)
    case OrMore(e, t) => Bin(Or, TreeE(e), TreeT(t))
  }

  function TreeT(t: Term): Query {
    match t
    case One(f) => TreeF(f)
    case AndMore(t, f) => Bin(And, TreeT(t), TreeF(f))
  }

  function TreeF(f: Factor): Query {
    match f
    case Num(n) => Val(n)
    case Bang(f) => Not(TreeF(f))
    case Paren(e) => TreeE(e)
  }

  lemma {:induction false} TreeMeansE(e: Expr, present: int -> bool)
    ensures Eval(TreeE(e), present) == MeansE(e, present)
  {
    match e
    case Single(t) => TreeMeansT(t, present);
    case OrMore(e, t) => TreeMeansE(e, present); TreeMeansT(t, present);
  }

  lemma {:induction false} TreeMeansT(t: Term, present: int -> bool)
    ensures Eval(TreeT(t), present) == MeansT(t, present)
  {
    match t
    case One(f) => TreeMeansF(f, present);
    case AndMore(t, f) => TreeMeansT(t, present); TreeMeansF(f, present);
  }

  lemma {:induction false} TreeMeansF(f: Factor, present: int -> bool)
    ensures Eval(TreeF(f), present) == MeansF(f, present)
  {
    match f
    case Num(_) =>
    case Bang(f) => TreeMeansF(f, present);
    case Paren(e) => TreeMeansE(e, present);
  }

  /**
   The operator stack stays within limit while the derivation is read: at each level of
   parentheses it holds at most one |, then at most one &, then a run of !.
   */
  predicate FitsE(e: Expr, limit: nat) {
    match e
    case Single(t) => FitsT(t, 0, limit)
    case OrMore(e, t) => FitsE(e, limit) && 1 <= limit && FitsT(t, 1, limit)
  }

  predicate FitsT(t: Term, depth: nat, limit: nat) {
    match t
    case One(f) => FitsF(f, depth, limit)
    case AndMore(t, f) => FitsT(t, depth, limit) && depth < limit && FitsF(f, depth + 1, limit)
  }

  predicate FitsF(f: Factor, depth: nat, limit: nat) {
    match f
    case Num(_) => true
    case Bang(f) => depth < limit && FitsF(f, depth + 1, limit)
    case Paren(e) => FitsE(e, limit)
  }

  function Bangs(k: nat, f: Factor): Factor { if k == 0 then f else Bang(Bangs(k - 1, f)) }

  lemma {:induction false} BangsDepth(k: nat, f: Factor, depth: nat, limit: nat)
    requires k > 0
    ensures FitsF(Bangs(k, f), depth, limit) <==> depth + k <= limit && FitsF(f, depth + k, limit)
  {
    if k == 1 {
      assert Bangs(1, f) == Bang(Bangs(0, f));
    } else {
      BangsDepth(k - 1, f, depth + 1, limit);
    }
  }

  /**
   How many ! in a row the stack has room for: all of it in a single operand, one less
   behind | or &, and two less behind both.
   */
  lemma BangsFit(k: nat, n: int, limit: nat)
    requires 0 < k && 2 <= limit
    ensures var one, run := One(Num(n)), Bangs(k, Num(n));
      && (FitsE(Single(One(run)), limit) <==> k <= limit)
      && (FitsE(OrMore(Single(one), One(run)), limit) <==> k <= limit - 1)
      && (FitsE(Single(AndMore(one, run)), limit) <==> k <= limit - 1)
      && (FitsE(OrMore(Single(one), AndMore(one, run)), limit) <==> k <= limit - 2)
  {
    BangsDepth(k, Num(n), 0, limit);
    BangsDepth(k, Num(n), 1, limit);
    BangsDepth(k, Num(n), 2, limit);
    var one, run := One(Num(n)), Bangs(k, Num(n));
    assert FitsT(one, 0, limit) && FitsT(one, 1, limit) && FitsE(Single(one), limit);
    assert FitsT(One(run), 0, limit) <==> k <= limit;
    assert FitsT(AndMore(one, run), 0, limit) <==> k <= limit - 1;
    assert FitsT(AndMore(one, run), 1, limit) <==> k <= limit - 2;
  }

  // ----- every disciplined token stream has a derivation -----

  /** What gettoken guarantees of a stream that ends in END. */
  predicate Disciplined(s: seq<QT.Token>, mode: QT.Mode, count: int) {
    s != [] &&
    if mode == QT.WaitOperand then
      match s[0]
      case VAL(n) => QT.Int4(n) && Disciplined(s[1..], QT.WaitOperator, count)
      case OPR(c) => c == '!' && Disciplined(s[1..], QT.WaitOperand, count)
      case OPEN => Disciplined(s[1..], QT.WaitOperand, count + 1)
      case _ => false
    else
      match s[0]
      case OPR(c) => (c == '&' || c == '|') && Disciplined(s[1..], QT.WaitOperand, count)
      case CLOSE => 0 < count && Disciplined(s[1..], QT.WaitOperator, count - 1)
      case END => count == 0 && s[1..] == []
      case _ => false
  }

  /** gettoken delivers either a disciplined stream or one that stops with ERR. */
  lemma {:induction false} TokensDisciplined(s: string, mode: QT.Mode, count: int)
    requires mode != QT.WaitEndOperand
    ensures Delivered(QT.Tokens(s, mode, count), mode, count)
    decreases |s|
  {
    var r := QT.NextToken(s, mode, count);
    QT.TokenDiscipline(s, mode, count);
    if r.token != QT.END && r.token != QT.ERR {
      TokensDisciplined(r.rest, r.mode, r.count);
      DeliveredCons(r.token, QT.Tokens(r.rest, r.mode, r.count), mode, count);
    }
  }

  ghost predicate Delivered(ts: seq<QT.Token>, mode: QT.Mode, count: int) {
    ts != [] && (ts[|ts|-1] != QT.ERR ==> Disciplined(ts, mode, count))
  }

  lemma DeliveredCons(token: QT.Token, ts: seq<QT.Token>, mode: QT.Mode, count: int)
    requires mode != QT.WaitEndOperand
    requires match token
      case VAL(n) => mode == QT.WaitOperand && QT.Int4(n) && Delivered(ts, QT.WaitOperator, count)
      case OPR(c) => (if mode == QT.WaitOperand then c == '!' else c == '&' || c == '|')
                  && Delivered(ts, QT.WaitOperand, count)
      case OPEN => mode == QT.WaitOperand && Delivered(ts, QT.WaitOperand, count + 1)
      case CLOSE => mode == QT.WaitOperator && 0 < count && Delivered(ts, QT.WaitOperator, count - 1)
      case _ => false
    ensures Delivered([token] + ts, mode, count)
  {
    assert ([token] + ts)[1..] == ts;
  }

  lemma {:induction false} DeriveFactor(s: seq<QT.Token>, count: int) returns (f: Factor, rest: seq<QT.Token>)
    requires Disciplined(s, QT.WaitOperand, count) && 0 <= count
    ensures s == YieldF(f) + rest && |rest| < |s| && Disciplined(rest, QT.WaitOperator, count)
    decreases |s|, 0
  {
    match s[0]
    case VAL(n) =>
      f, rest := Num(n), s[1..];
    case OPR(_) =>
      f, rest := DeriveFactor(s[1..], count);
      assert s == [QT.OPR('!')] + YieldF(f) + rest;
      f := Bang(f);
    case OPEN =>
      var e;
      e, rest := DeriveExpr(s[1..], count + 1);
      assert rest[0] == QT.CLOSE;
      assert s == [QT.OPEN] + YieldE(e) + [QT.CLOSE] + rest[1..];
      f, rest := Paren(e), rest[1..];
  }

  lemma {:induction false} DeriveTerm(s: seq<QT.Token>, count: int) returns (t: Term, rest: seq<QT.Token>)
    requires Disciplined(s, QT.WaitOperand, count) && 0 <= count
    ensures s == YieldT(t) + rest && |rest| < |s| && Disciplined(rest, QT.WaitOperator, count)
    ensures rest[0] != QT.OPR('&')
    decreases |s|, 1
  {
    var f;
    f, rest := DeriveFactor(s, count);
    t := One(f);
    while rest[0] == QT.OPR('&')
      invariant s == YieldT(t) + rest && |rest| < |s| && Disciplined(rest, QT.WaitOperator, count)
      decreases |rest|
    {
      var before := rest;
      f, rest := DeriveFactor(rest[1..], count);
      assert before == [QT.OPR('&')] + YieldF(f) + rest;
      assert YieldT(t) + before == YieldT(t) + [QT.OPR('&')] + YieldF(f) + rest;
      t := AndMore(t, f);
    }
  }

  lemma {:induction false} DeriveExpr(s: seq<QT.Token>, count: int) returns (e: Expr, rest: seq<QT.Token>)
    requires Disciplined(s, QT.WaitOperand, count) && 0 <= count
    ensures s == YieldE(e) + rest && |rest| < |s| && Disciplined(rest, QT.WaitOperator, count)
    ensures rest[0] == QT.CLOSE || rest[0] == QT.END
    decreases |s|, 2
  {
    var t;
    t, rest := DeriveTerm(s, count);
    e := Single(t);
    while rest[0] == QT.OPR('|')
      invariant s == YieldE(e) + rest && |rest| < |s| && Disciplined(rest, QT.WaitOperator, count)
      invariant rest[0] != QT.OPR('&')
      decreases |rest|
    {
      var before := rest;
      t, rest := DeriveTerm(rest[1..], count);
      assert before == [QT.OPR('|')] + YieldT(t) + rest;
      assert YieldE(e) + before == YieldE(e) + [QT.OPR('|')] + YieldT(t) + rest;
      e := OrMore(e, t);
    }
  }

  /** A text whose tokens do not end in ERR has a derivation. */
  lemma TextDerives(s: string) returns (e: Expr)
    requires var ts := QT.Tokens(s, QT.WaitOperand, 0); ts[|ts|-1] != QT.ERR
    ensures QT.Tokens(s, QT.WaitOperand, 0) == YieldE(e) + [QT.END]
  {
    TokensDisciplined(s, QT.WaitOperand, 0);
    var rest;
    e, rest := DeriveExpr(QT.Tokens(s, QT.WaitOperand, 0), 0);
    assert rest == [QT.END];
  }
}
