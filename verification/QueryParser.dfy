/**
 makepol() and bqarr_in(): the operator-stack parser.  PolishOf is its specification on
 token streams; the lemmas say that it accepts exactly the texts of the grammar whose
 operators fit the stack, and outputs the Polish form of what they mean.
 */
module QueryParser {
  import opened BoolQuery
  import opened QueryGrammar
  import QT = QueryText

  const STACKDEPTH: nat := 16

  datatype Outcome = Done(out: seq<Node>, rest: seq<QT.Token>) | SyntaxError | TooComplex

  predicate Tight(stack: seq<char>) {
    stack != [] && (stack[|stack|-1] == '&' || stack[|stack|-1] == '!')
  }

  /** The stack once every & and ! on top of it has been output. */
  function Loosen(stack: seq<char>): (r: seq<char>)
    ensures |r| <= |stack|
  {
    if Tight(stack) then Loosen(stack[..|stack|-1]) else stack
  }

  function TightNodes(stack: seq<char>): seq<Node> {
    if Tight(stack) then [Node(OPR, stack[|stack|-1] as int)] + TightNodes(stack[..|stack|-1]) else []
  }

  function AllNodes(stack: seq<char>): seq<Node> {
    if stack == [] then [] else [Node(OPR, stack[|stack|-1] as int)] + AllNodes(stack[..|stack|-1])
  }

  function PolishOf(ts: seq<QT.Token>, stack: seq<char>, out: seq<Node>): (r: Outcome)
    ensures r.Done? ==> |r.rest| < |ts|
    decreases |ts|
  {
    if ts == [] then SyntaxError
    else
      match ts[0]
      case VAL(n) => PolishOf(ts[1..], Loosen(stack), out + [Node(VAL, n)] + TightNodes(stack))
      case OPR(c) =>
        if stack != [] && c == '|' then PolishOf(ts[1..], stack, out + [Node(OPR, c as int)])
        else if |stack| == STACKDEPTH then TooComplex
        else PolishOf(ts[1..], stack + [c], out)
      case OPEN =>
        var inner := PolishOf(ts[1..], [], out);
        if inner.Done? then PolishOf(inner.rest, Loosen(stack), inner.out + TightNodes(stack)) else inner
      case CLOSE => Done(out + AllNodes(stack), ts[1..])
      case END => Done(out + AllNodes(stack), ts[1..])
      case ERR => SyntaxError
  }

  // ----- reading a derivation -----

  lemma AppendAssoc<T>(a: seq<T>, b: seq<T>, c: seq<T>)
    ensures a + b + c == a + (b + c)
  {
  }

  /** After a factor its own prefix operators, and any & waiting for it, have been output. */
  lemma {:induction false} ReadFactor(f: Factor, stack: seq<char>, out: seq<Node>, rest: seq<QT.Token>)
    requires |stack| <= STACKDEPTH
    ensures PolishOf(YieldF(f) + rest, stack, out) ==
            if FitsF(f, |stack|, STACKDEPTH)
            then PolishOf(rest, Loosen(stack), out + Polish(TreeF(f)) + TightNodes(stack)) else TooComplex
    decreases f, 0
  {
    var ts := YieldF(f) + rest;
    match f {
      case Num(n) =>
        assert ts[1..] == rest;
      case Bang(g) =>
        assert ts[1..] == YieldF(g) + rest;
        if |stack| < STACKDEPTH {
          var more := stack + ['!'];
          ReadFactor(g, more, out, rest);
          assert more[..|stack|] == stack;
          AppendAssoc(out + Polish(TreeF(g)), [Node(OPR, BANG)], TightNodes(stack));
          AppendAssoc(out, Polish(TreeF(g)), [Node(OPR, BANG)]);
        }
      case Paren(e) =>
        assert ts[1..] == YieldE(e) + ([QT.CLOSE] + rest);
        ReadLevel(e, QT.CLOSE, out, rest);
    }
  }

  lemma {:induction false} ReadTerm(t: Term, stack: seq<char>, out: seq<Node>, rest: seq<QT.Token>)
    requires stack == [] || stack == ['|']
    ensures PolishOf(YieldT(t) + rest, stack, out) ==
            if FitsT(t, |stack|, STACKDEPTH)
            then PolishOf(rest, stack, out + Polish(TreeT(t))) else TooComplex
    decreases t
  {
    match t {
      case One(f) =>
        ReadFactor(f, stack, out, rest);
        assert out + Polish(TreeF(f)) + [] == out + Polish(TreeF(f));
      case AndMore(u, f) =>
        var tail := [QT.OPR('&')] + (YieldF(f) + rest);
        assert YieldT(t) + rest == YieldT(u) + tail;
        ReadTerm(u, stack, out, tail);
        if FitsT(u, |stack|, STACKDEPTH) {
          ReadAnd(f, stack, out + Polish(TreeT(u)), rest);
          AppendAssoc(out, Polish(TreeT(u)), Polish(TreeF(f)) + [Node(OPR, AMP)]);
          AppendAssoc(Polish(TreeT(u)), Polish(TreeF(f)), [Node(OPR, AMP)]);
        }
    }
  }

  /** An & and the factor after it. */
  lemma ReadAnd(f: Factor, stack: seq<char>, out: seq<Node>, rest: seq<QT.Token>)
    requires stack == [] || stack == ['|']
    ensures PolishOf([QT.OPR('&')] + (YieldF(f) + rest), stack, out) ==
            if FitsF(f, |stack| + 1, STACKDEPTH)
            then PolishOf(rest, stack, out + (Polish(TreeF(f)) + [Node(OPR, AMP)])) else TooComplex
    decreases f, 1
  {
    var more := stack + ['&'];
    assert ([QT.OPR('&')] + (YieldF(f) + rest))[1..] == YieldF(f) + rest;
    ReadFactor(f, more, out, rest);
    assert more[..|stack|] == stack && TightNodes(more) == [Node(OPR, AMP)];
    AppendAssoc(out, Polish(TreeF(f)), [Node(OPR, AMP)]);
  }

  /** What is on the stack once e has been read at a fresh level. */
  function Pending(e: Expr): seq<char> {
    if e.Single? then [] else ['|']
  }

  /** What has been output by then: all of e but the | still on the stack. */
  ghost function Emitted(e: Expr): seq<Node> {
    match e
    case Single(t) => Polish(TreeT(t))
    case OrMore(d, t) => Polish(TreeE(d)) + Polish(TreeT(t))
  }

  lemma EmittedComplete(e: Expr)
    ensures Emitted(e) + AllNodes(Pending(e)) == Polish(TreeE(e))
  {
    if e.Single? {
      assert Emitted(e) + [] == Emitted(e);
    } else {
      assert ['|'][..0] == [] && AllNodes(['|']) == [Node(OPR, BAR)] + AllNodes([]);
    }
  }

  lemma {:induction false} ReadExpr(e: Expr, out: seq<Node>, rest: seq<QT.Token>)
    ensures PolishOf(YieldE(e) + rest, [], out) ==
            if FitsE(e, STACKDEPTH) then PolishOf(rest, Pending(e), out + Emitted(e)) else TooComplex
    decreases e, 0
  {
    match e {
      case Single(t) =>
        ReadTerm(t, [], out, rest);
      case OrMore(d, t) =>
        var tail := [QT.OPR('|')] + (YieldT(t) + rest);
        assert YieldE(e) + rest == YieldE(d) + tail;
        ReadExpr(d, out, tail);
        if FitsE(d, STACKDEPTH) {
          assert tail[1..] == YieldT(t) + rest;
          ReadBar(d, out, YieldT(t) + rest);
          ReadTerm(t, ['|'], out + Polish(TreeE(d)), rest);
          AppendAssoc(out, Polish(TreeE(d)), Polish(TreeT(t)));
        }
    }
  }

  /** A | completes what is pending and stays on the stack itself. */
  lemma ReadBar(d: Expr, out: seq<Node>, rest: seq<QT.Token>)
    ensures PolishOf([QT.OPR('|')] + rest, Pending(d), out + Emitted(d))
      == PolishOf(rest, ['|'], out + Polish(TreeE(d)))
  {
    assert ([QT.OPR('|')] + rest)[1..] == rest;
    if d.Single? {
      assert [] + ['|'] == ['|'];
    } else {
      AppendAssoc(out, Emitted(d), [Node(OPR, BAR)]);
    }
  }

  /** A level of parentheses, or the whole text, up to the token that ends it. */
  lemma {:induction false} ReadLevel(e: Expr, stop: QT.Token, out: seq<Node>, rest: seq<QT.Token>)
    requires stop == QT.CLOSE || stop == QT.END
    ensures PolishOf(YieldE(e) + ([stop] + rest), [], out) ==
            if FitsE(e, STACKDEPTH) then Done(out + Polish(TreeE(e)), rest) else TooComplex
    decreases e, 1
  {
    ReadExpr(e, out, [stop] + rest);
    EmittedComplete(e);
    AppendAssoc(out, Emitted(e), AllNodes(Pending(e)));
    assert ([stop] + rest)[1..] == rest;
  }

  // ----- streams that stop with ERR -----

  ghost predicate Broken(s: seq<QT.Token>, mode: QT.Mode, count: int) {
    s != [] &&
    if s[0] == QT.ERR then s[1..] == []
    else if mode == QT.WaitOperand then
      match s[0]
      case VAL(n) => QT.Int4(n) && Broken(s[1..], QT.WaitOperator, count)
      case OPR(c) => c == '!' && Broken(s[1..], QT.WaitOperand, count)
      case OPEN => Broken(s[1..], QT.WaitOperand, count + 1)
      case _ => false
    else
      match s[0]
      case OPR(c) => (c == '&' || c == '|') && Broken(s[1..], QT.WaitOperand, count)
      case CLOSE => 0 < count && Broken(s[1..], QT.WaitOperator, count - 1)
      case _ => false
  }

  lemma {:induction false} TokensBroken(s: string, mode: QT.Mode, count: int)
    requires mode != QT.WaitEndOperand
    ensures var ts := QT.Tokens(s, mode, count); ts != [] && (ts[|ts|-1] == QT.ERR ==> Broken(ts, mode, count))
    decreases |s|
  {
    var r := QT.NextToken(s, mode, count);
    QT.TokenDiscipline(s, mode, count);
    if r.token != QT.END && r.token != QT.ERR {
      TokensBroken(r.rest, r.mode, r.count);
      var ts := QT.Tokens(r.rest, r.mode, r.count);
      if ts[|ts|-1] == QT.ERR { BrokenCons(r.token, ts, mode, count); }
    }
  }

  lemma BrokenCons(token: QT.Token, ts: seq<QT.Token>, mode: QT.Mode, count: int)
    requires mode != QT.WaitEndOperand && token != QT.ERR
    requires match token
      case VAL(n) => mode == QT.WaitOperand && QT.Int4(n) && Broken(ts, QT.WaitOperator, count)
      case OPR(c) => (if mode == QT.WaitOperand then c == '!' else c == '&' || c == '|')
                  && Broken(ts, QT.WaitOperand, count)
      case OPEN => mode == QT.WaitOperand && Broken(ts, QT.WaitOperand, count + 1)
      case CLOSE => mode == QT.WaitOperator && 0 < count && Broken(ts, QT.WaitOperator, count - 1)
      case _ => false
    ensures Broken([token] + ts, mode, count)
  {
    assert ([token] + ts)[1..] == ts;
  }

  lemma {:induction false} BrokenNotDone(ts: seq<QT.Token>, mode: QT.Mode, count: nat, stack: seq<char>, out: seq<Node>)
    requires Broken(ts, mode, count)
    ensures var r := PolishOf(ts, stack, out);
      r.Done? ==> 0 < count && Broken(r.rest, QT.WaitOperator, count - 1)
    decreases |ts|
  {
    match ts[0]
    case VAL(n) =>
      BrokenNotDone(ts[1..], QT.WaitOperator, count, Loosen(stack), out + [Node(VAL, n)] + TightNodes(stack));
    case OPR(c) =>
      if stack != [] && c == '|' {
        BrokenNotDone(ts[1..], QT.WaitOperand, count, stack, out + [Node(OPR, c as int)]);
      } else if |stack| != STACKDEPTH {
        BrokenNotDone(ts[1..], QT.WaitOperand, count, stack + [c], out);
      }
    case OPEN =>
      BrokenNotDone(ts[1..], QT.WaitOperand, count + 1, [], out);
      var inner := PolishOf(ts[1..], [], out);
      if inner.Done? {
        BrokenNotDone(inner.rest, QT.WaitOperator, count, Loosen(stack), inner.out + TightNodes(stack));
      }
    case _ =>
  }

  // ----- what a text is read as -----

  function Read(text: string): Outcome {
    PolishOf(QT.Tokens(text, QT.WaitOperand, 0), [], [])
  }

  /** e is a derivation of the text. */
  predicate Derives(e: Expr, text: string) {
    QT.Tokens(text, QT.WaitOperand, 0) == YieldE(e) + [QT.END]
  }

  /**
   A text is accepted exactly when it has a derivation that fits the operator stack, and
   the output is then the Polish form of that derivation.
   */
  lemma AcceptsTheGrammar(text: string)
    ensures Read(text).Done? <==> exists e :: Derives(e, text) && FitsE(e, STACKDEPTH)
    ensures forall e :: Derives(e, text) ==>
      Read(text) == if FitsE(e, STACKDEPTH) then Done(Polish(TreeE(e)), []) else TooComplex
  {
    var ts := QT.Tokens(text, QT.WaitOperand, 0);
    forall e | Derives(e, text)
      ensures Read(text) == if FitsE(e, STACKDEPTH) then Done(Polish(TreeE(e)), []) else TooComplex
    {
      ReadLevel(e, QT.END, [], []);
      assert [QT.END] + [] == [QT.END] && [] + Polish(TreeE(e)) == Polish(TreeE(e));
    }
    if Read(text).Done? {
      TokensBroken(text, QT.WaitOperand, 0);
      if ts[|ts|-1] == QT.ERR {
        BrokenNotDone(ts, QT.WaitOperand, 0, [], []);
      } else {
        var e := TextDerives(text);
        assert Derives(e, text);
      }
    }
  }
}
