/**
 Which error a text that is not accepted gets: the tokens before the place where the scanner
 gives up are completed to a derivation, and the question is whether that fits the stack.
 */
module QueryErrors {
  import opened BoolQuery
  import opened QueryGrammar
  import opened QueryParser
  import opened QuerySpelling
  import QT = QueryText

  /** What ends a broken text without a further operator: a number if one is due, and what closes. */
  function Ending(mode: QT.Mode, count: nat): seq<QT.Token>
    decreases count, if mode == QT.WaitOperand then 1 else 0
  {
    if mode == QT.WaitOperand then [QT.VAL(1)] + Ending(QT.WaitOperator, count)
    else if count == 0 then [QT.END]
    else [QT.CLOSE] + Ending(mode, count - 1)
  }

  /** t is s with an ending in place of the error. */
  ghost predicate Completes(s: seq<QT.Token>, t: seq<QT.Token>, mode: QT.Mode, count: nat)
    requires Broken(s, mode, count)
  {
    if s[0] == QT.ERR then t == Ending(mode, count)
    else
      t != [] && t[0] == s[0] &&
      match s[0]
      case VAL(_) => Completes(s[1..], t[1..], QT.WaitOperator, count)
      case OPR(_) => Completes(s[1..], t[1..], QT.WaitOperand, count)
      case OPEN => Completes(s[1..], t[1..], QT.WaitOperand, count + 1)
      case CLOSE => Completes(s[1..], t[1..], QT.WaitOperator, count - 1)
      case _ => false
  }

  /** How the two are read: too complex both or neither; and the ending closes every level. */
  ghost predicate ReadAlike(a: Outcome, b: Outcome, count: nat) {
    match a
    case TooComplex => b.TooComplex?
    case SyntaxError => b.Done? && b.rest == if count > 0 then Ending(QT.WaitOperator, count - 1) else []
    case Done(out, rest) =>
      b.Done? && b.out == out && 0 < count && Broken(rest, QT.WaitOperator, count - 1)
      && Completes(rest, b.rest, QT.WaitOperator, count - 1)
  }

  lemma ReadClosing(count: nat, stack: seq<char>, out: seq<Node>)
    ensures var b := PolishOf(Ending(QT.WaitOperator, count), stack, out);
      b.Done? && b.rest == if count > 0 then Ending(QT.WaitOperator, count - 1) else []
  {
    var s := Ending(QT.WaitOperator, count);
    assert s[1..] == if count > 0 then Ending(QT.WaitOperator, count - 1) else [];
  }

  lemma ReadEnding(mode: QT.Mode, count: nat, stack: seq<char>, out: seq<Node>)
    requires mode != QT.WaitEndOperand
    ensures var b := PolishOf(Ending(mode, count), stack, out);
      b.Done? && b.rest == if count > 0 then Ending(QT.WaitOperator, count - 1) else []
  {
    if mode == QT.WaitOperand {
      assert Ending(mode, count)[1..] == Ending(QT.WaitOperator, count);
      ReadClosing(count, Loosen(stack), out + [Node(VAL, 1)] + TightNodes(stack));
    } else {
      ReadClosing(count, stack, out);
    }
  }

  lemma {:induction false} CompletedReads(s: seq<QT.Token>, t: seq<QT.Token>, mode: QT.Mode, count: nat,
                                          stack: seq<char>, out: seq<Node>)
    requires mode != QT.WaitEndOperand && Broken(s, mode, count) && Completes(s, t, mode, count)
    ensures ReadAlike(PolishOf(s, stack, out), PolishOf(t, stack, out), count)
    decreases |s|
  {
    match s[0]
    case VAL(n) =>
      CompletedReads(s[1..], t[1..], QT.WaitOperator, count, Loosen(stack), out + [Node(VAL, n)] + TightNodes(stack));
    case OPR(c) =>
      if stack != [] && c == '|' {
        CompletedReads(s[1..], t[1..], QT.WaitOperand, count, stack, out + [Node(OPR, c as int)]);
      } else if |stack| != STACKDEPTH {
        CompletedReads(s[1..], t[1..], QT.WaitOperand, count, stack + [c], out);
      }
    case OPEN =>
      CompletedReads(s[1..], t[1..], QT.WaitOperand, count + 1, [], out);
      var a, b := PolishOf(s[1..], [], out), PolishOf(t[1..], [], out);
      if a.Done? {
        CompletedReads(a.rest, b.rest, QT.WaitOperator, count, Loosen(stack), a.out + TightNodes(stack));
      } else if a.SyntaxError? {
        ReadEnding(QT.WaitOperator, count, Loosen(stack), b.out + TightNodes(stack));
      }
    case CLOSE =>
    case _ =>
      ReadEnding(mode, count, stack, out);
  }

  lemma {:induction false} EndingDisciplined(mode: QT.Mode, count: nat)
    requires mode != QT.WaitEndOperand
    ensures Disciplined(Ending(mode, count), mode, count)
    decreases count, if mode == QT.WaitOperand then 1 else 0
  {
    var s := Ending(mode, count);
    if mode == QT.WaitOperand {
      assert s[1..] == Ending(QT.WaitOperator, count);
      EndingDisciplined(QT.WaitOperator, count);
    } else if count > 0 {
      assert s[1..] == Ending(mode, count - 1);
      EndingDisciplined(mode, count - 1);
    }
  }

  /** The state behind a token. */
  function NextMode(t: QT.Token): QT.Mode { if t.VAL? || t == QT.CLOSE then QT.WaitOperator else QT.WaitOperand }

  function NextCount(t: QT.Token, count: int): int {
    if t == QT.OPEN then count + 1 else if t == QT.CLOSE then count - 1 else count
  }

  /** The tokens of a broken text with an ending. */
  lemma {:induction false} Complete(s: seq<QT.Token>, mode: QT.Mode, count: nat) returns (t: seq<QT.Token>)
    requires mode != QT.WaitEndOperand && Broken(s, mode, count)
    ensures Completes(s, t, mode, count) && Disciplined(t, mode, count)
    decreases |s|
  {
    if s[0] == QT.ERR {
      t := Ending(mode, count);
      EndingDisciplined(mode, count);
    } else {
      var u := Complete(s[1..], NextMode(s[0]), NextCount(s[0], count));
      t := [s[0]] + u;
      assert t[1..] == u;
    }
  }

  /** e is a derivation of the tokens before the error, and of an ending without operators. */
  ghost predicate Completed(text: string, e: Expr) {
    var ts := QT.Tokens(text, QT.WaitOperand, 0);
    Broken(ts, QT.WaitOperand, 0) && Completes(ts, YieldE(e) + [QT.END], QT.WaitOperand, 0)
  }

  /**
   A text that spells no derivation: there is one that goes on without further operators
   from where the scanner stops, and the error is too-complex exactly if it does not fit.
   */
  lemma WhichError(text: string)
    requires forall e :: !Spelled(YieldE(e), text)
    ensures exists e :: Completed(text, e)
    ensures forall e :: Completed(text, e) ==> Read(text) == if FitsE(e, 16) then SyntaxError else TooComplex
  {
    var ts := QT.Tokens(text, QT.WaitOperand, 0);
    TokensBroken(text, QT.WaitOperand, 0);
    if ts[|ts|-1] != QT.ERR {
      var d := TextDerives(text);
      DerivesIffSpelled(d, text);
    }
    var t := Complete(ts, QT.WaitOperand, 0);
    var e, rest := DeriveExpr(t, 0);
    assert rest == [QT.END];
    assert Completed(text, e);
    forall e | Completed(text, e) ensures Read(text) == if FitsE(e, 16) then SyntaxError else TooComplex {
      CompletedReads(ts, YieldE(e) + [QT.END], QT.WaitOperand, 0, [], []);
      ReadLevel(e, QT.END, [], []);
      assert [QT.END] + [] == [QT.END];
    }
  }
}
