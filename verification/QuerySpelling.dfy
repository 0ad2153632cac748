/**
 What a query text is, said of its characters: the lexemes of a token sequence with any
 number of blanks around them.  The scanner delivers the tokens of a derivation exactly
 for the texts that spell them.
 */
module QuerySpelling {
  import opened BoolQuery
  import opened QueryGrammar
  import opened QueryParser
  import QT = QueryText

  ghost predicate Blank(s: string) { forall i :: 0 <= i < |s| ==> s[i] == ' ' }

  /** w is a way to write the token; a number has at most 15 characters. */
  ghost predicate Lexeme(token: QT.Token, w: string) {
    match token
    case VAL(n) => QT.NumberText(w) && |w| <= 15 && QT.Strtol(w) == n && -0x8000_0000 <= n <= 0x7fff_ffff
    case OPR(c) => c in "!&|" && w == [c]
    case OPEN => w == "("
    case CLOSE => w == ")"
    case _ => false
  }

  /** s consists of blanks, the token and what spells the others. */
  ghost predicate Starts(b: string, w: string, rest: string, s: string, token: QT.Token) {
    s == b + w + rest && Blank(b) && Lexeme(token, w)
  }

  ghost predicate Spelled(ts: seq<QT.Token>, s: string) {
    if ts == [] then Blank(s)
    else exists b, w, rest :: Starts(b, w, rest, s, ts[0]) && Spelled(ts[1..], rest)
  }

  // ----- the scanner spells -----

  /** A number token comes from the digits collected and those that follow. */
  lemma {:induction false} ScanSpells(nnn: string, s: string, count: int) returns (d: string)
    requires QT.NumberText(nnn)
    ensures var r := QT.ScanNumber(nnn, s, count);
      r.token.VAL? ==> s == d + r.rest && Lexeme(r.token, nnn + d)
    decreases s
  {
    d := "";
    if |nnn| < QT.NNN_SIZE && s != [] && QT.IsDigit(s[0]) {
      var e := ScanSpells(nnn + [s[0]], s[1..], count);
      d := [s[0]] + e;
      assert nnn + [s[0]] + e == nnn + d;
    } else {
      assert nnn + d == nnn;
    }
  }

  lemma {:induction false} SkipBlanks(b: string, s: string, mode: QT.Mode, count: int)
    requires Blank(b) && mode != QT.WaitEndOperand
    ensures QT.NextToken(b + s, mode, count) == QT.NextToken(s, mode, count)
  {
    if b == [] {
      assert b + s == s;
    } else {
      assert (b + s)[1..] == b[1..] + s;
      SkipBlanks(b[1..], s, mode, count);
    }
  }

  lemma {:induction false} LeadingBlanks(s: string) returns (b: string, t: string)
    ensures s == b + t && Blank(b) && (t == [] || t[0] != ' ')
  {
    if s == [] || s[0] != ' ' {
      b, t := "", s;
    } else {
      b, t := LeadingBlanks(s[1..]);
      b := [' '] + b;
      assert s == [' '] + s[1..];
    }
  }

  /** Without a blank in front the next token begins at once. */
  lemma TokenHere(t: string, mode: QT.Mode, count: int) returns (w: string)
    requires mode != QT.WaitEndOperand && (t == [] || t[0] != ' ')
    ensures var r := QT.NextToken(t, mode, count);
      && (r.token == QT.END ==> t == [])
      && (r.token != QT.END && r.token != QT.ERR ==> t == w + r.rest && Lexeme(r.token, w))
  {
    w := "";
    if t != [] {
      if mode == QT.WaitOperand && (QT.IsDigit(t[0]) || t[0] == '-') {
        var d := ScanSpells([t[0]], t[1..], count);
        QT.ScanNumberAdvances([t[0]], t[1..], count);
        w := [t[0]] + d;
      } else {
        w := [t[0]];
      }
    }
  }

  lemma NextSpells(s: string, mode: QT.Mode, count: int) returns (b: string, w: string)
    requires mode != QT.WaitEndOperand
    ensures var r := QT.NextToken(s, mode, count);
      && (r.token == QT.END ==> Blank(s))
      && (r.token != QT.END && r.token != QT.ERR ==> Starts(b, w, r.rest, s, r.token))
  {
    var t;
    b, t := LeadingBlanks(s);
    SkipBlanks(b, t, mode, count);
    w := TokenHere(t, mode, count);
    var r := QT.NextToken(s, mode, count);
    if r.token == QT.END {
      assert s == b;
    } else if r.token != QT.ERR {
      assert b + t == b + w + r.rest;
    }
  }

  lemma {:induction false} TokensSpell(s: string, mode: QT.Mode, count: int, ts: seq<QT.Token>)
    requires mode != QT.WaitEndOperand && QT.Tokens(s, mode, count) == ts + [QT.END]
    ensures Spelled(ts, s)
    decreases |s|
  {
    var r := QT.NextToken(s, mode, count);
    QT.TokenDiscipline(s, mode, count);
    var b, w := NextSpells(s, mode, count);
    var all := ts + [QT.END];
    assert all[|ts|] == QT.END;
    if r.token == QT.END {
      assert ts == [];
    } else {
      assert ts[0] == all[0] == r.token && all[1..] == ts[1..] + [QT.END];
      TokensSpell(r.rest, r.mode, r.count, ts[1..]);
      assert Starts(b, w, r.rest, s, ts[0]) && Spelled(ts[1..], r.rest);
    }
  }

  // ----- what is spelled is scanned -----

  /** What follows an operand in a sequence of tokens does not begin with a digit. */
  lemma AfterOperand(ts: seq<QT.Token>, s: string)
    requires Spelled(ts, s) && (ts == [] || (ts[0].OPR? && ts[0].op != '!') || ts[0] == QT.CLOSE)
    ensures s != [] ==> !QT.IsDigit(s[0])
    ensures ts != [] ==> s != []
  {
    if ts != [] {
      var b, w, rest :| Starts(b, w, rest, s, ts[0]) && Spelled(ts[1..], rest);
      assert s == b + (w + rest);
      if b != [] { assert s[0] == b[0]; } else { assert s[0] == w[0]; }
    }
  }

  /** The digits of a number are collected up to where they end. */
  lemma {:induction false} ScanLexeme(nnn: string, d: string, rest: string, count: int)
    requires QT.NumberText(nnn) && QT.NumberText(nnn + d) && |nnn + d| <= 15 && QT.Int4(QT.Strtol(nnn + d))
    requires (rest == [] ==> count == 0) && (rest != [] ==> !QT.IsDigit(rest[0]))
    ensures QT.ScanNumber(nnn, d + rest, count)
         == QT.Scan(QT.VAL(QT.Strtol(nnn + d)), rest, QT.WaitOperator, count)
    decreases |d|
  {
    if d == [] {
      assert nnn + d == nnn && d + rest == rest;
    } else {
      assert (nnn + d)[|nnn|] == d[0];
      assert (d + rest)[1..] == d[1..] + rest;
      assert (nnn + [d[0]]) + d[1..] == nnn + d;
      ScanLexeme(nnn + [d[0]], d[1..], rest, count);
    }
  }

  /** The scanner state behind a token. */
  function ModeAfter(token: QT.Token): QT.Mode {
    if token.VAL? || token == QT.CLOSE then QT.WaitOperator else QT.WaitOperand
  }

  function CountAfter(token: QT.Token, count: int): int {
    count + if token == QT.OPEN then 1 else if token == QT.CLOSE then -1 else 0
  }

  /** Where a token may stand. */
  predicate Fitting(token: QT.Token, mode: QT.Mode, count: int) {
    && mode != QT.WaitEndOperand
    && match token
       case VAL(_) => mode == QT.WaitOperand
       case OPR(c) => mode == QT.WaitOperand <==> c == '!'
       case OPEN => mode == QT.WaitOperand
       case CLOSE => mode == QT.WaitOperator && 0 < count
       case _ => false
  }

  lemma HeadFits(all: seq<QT.Token>, mode: QT.Mode, count: int)
    requires mode != QT.WaitEndOperand && 0 <= count && Disciplined(all, mode, count) && all[0] != QT.END
    ensures Fitting(all[0], mode, count) && 0 <= CountAfter(all[0], count)
    ensures Disciplined(all[1..], ModeAfter(all[0]), CountAfter(all[0], count))
  {
  }

  /** A number ends before rest, and not inside parentheses at the end of the text. */
  predicate NumberEnds(rest: string, count: int) {
    (rest == [] ==> count == 0) && (rest != [] ==> !QT.IsDigit(rest[0]))
  }

  lemma NextNumber(w: string, rest: string, n: int, count: int)
    requires Lexeme(QT.VAL(n), w) && NumberEnds(rest, count)
    ensures QT.NextToken(w + rest, QT.WaitOperand, count) == QT.Scan(QT.VAL(n), rest, QT.WaitOperator, count)
  {
    var nnn, d, s := [w[0]], w[1..], w + rest;
    assert nnn + d == w && s[0] == w[0] && s[1..] == d + rest;
    ScanLexeme(nnn, d, rest, count);
  }

  /** A token whose lexeme comes next is the next token. */
  lemma NextLexeme(w: string, rest: string, token: QT.Token, mode: QT.Mode, count: int)
    requires Lexeme(token, w) && Fitting(token, mode, count) && (token.VAL? ==> NumberEnds(rest, count))
    ensures QT.NextToken(w + rest, mode, count) == QT.Scan(token, rest, ModeAfter(token), CountAfter(token, count))
  {
    if token.VAL? {
      NextNumber(w, rest, token.n, count);
    } else {
      var s := w + rest;
      assert s[0] == w[0] && s[1..] == rest;
    }
  }

  /** Blanks in front of it do not matter. */
  lemma NextStarts(b: string, w: string, rest: string, s: string, token: QT.Token, mode: QT.Mode, count: int)
    requires Starts(b, w, rest, s, token) && Fitting(token, mode, count) && (token.VAL? ==> NumberEnds(rest, count))
    ensures QT.NextToken(s, mode, count) == QT.Scan(token, rest, ModeAfter(token), CountAfter(token, count))
  {
    assert s == b + (w + rest);
    SkipBlanks(b, w + rest, mode, count);
    NextLexeme(w, rest, token, mode, count);
  }

  lemma {:induction false} SpelledTokens(ts: seq<QT.Token>, s: string, mode: QT.Mode, count: int)
    requires mode != QT.WaitEndOperand && 0 <= count && Spelled(ts, s) && Disciplined(ts + [QT.END], mode, count)
    ensures QT.Tokens(s, mode, count) == ts + [QT.END]
    decreases |ts|
  {
    if ts == [] {
      assert s + "" == s;
      SkipBlanks(s, "", mode, count);
    } else {
      var b, w, rest :| Starts(b, w, rest, s, ts[0]) && Spelled(ts[1..], rest);
      var all := ts + [QT.END];
      assert all[0] == ts[0] && all[1..] == ts[1..] + [QT.END];
      HeadFits(all, mode, count);
      if ts[0].VAL? { OperandEnds(ts[1..], rest, count); }
      NextStarts(b, w, rest, s, ts[0], mode, count);
      SpelledTokens(ts[1..], rest, ModeAfter(ts[0]), CountAfter(ts[0], count));
      assert all == [ts[0]] + all[1..];
    }
  }

  lemma OperandEnds(ts: seq<QT.Token>, s: string, count: int)
    requires Spelled(ts, s) && Disciplined(ts + [QT.END], QT.WaitOperator, count)
    ensures NumberEnds(s, count)
  {
    var all := ts + [QT.END];
    assert ts != [] ==> all[0] == ts[0];
    AfterOperand(ts, s);
  }

  // ----- derivations -----

  lemma {:induction false} SpelledInt4(ts: seq<QT.Token>, s: string)
    requires Spelled(ts, s)
    ensures forall n :: QT.VAL(n) in ts ==> QT.Int4(n)
  {
    if ts != [] {
      var b, w, rest :| Starts(b, w, rest, s, ts[0]) && Spelled(ts[1..], rest);
      SpelledInt4(ts[1..], rest);
    }
  }

  lemma {:induction false} DisciplinedE(e: Expr, rest: seq<QT.Token>, count: int)
    requires 0 <= count && Disciplined(rest, QT.WaitOperator, count)
    requires forall n :: QT.VAL(n) in YieldE(e) ==> QT.Int4(n)
    ensures Disciplined(YieldE(e) + rest, QT.WaitOperand, count)
    decreases e
  {
    match e
    case Single(t) => DisciplinedT(t, rest, count);
    case OrMore(d, t) =>
      var tail := [QT.OPR('|')] + (YieldT(t) + rest);
      assert YieldE(e) + rest == YieldE(d) + tail;
      DisciplinedT(t, rest, count);
      assert tail[1..] == YieldT(t) + rest;
      DisciplinedE(d, tail, count);
  }

  lemma {:induction false} DisciplinedT(t: Term, rest: seq<QT.Token>, count: int)
    requires 0 <= count && Disciplined(rest, QT.WaitOperator, count)
    requires forall n :: QT.VAL(n) in YieldT(t) ==> QT.Int4(n)
    ensures Disciplined(YieldT(t) + rest, QT.WaitOperand, count)
    decreases t
  {
    match t
    case One(f) => DisciplinedF(f, rest, count);
    case AndMore(u, f) =>
      var tail := [QT.OPR('&')] + (YieldF(f) + rest);
      assert YieldT(t) + rest == YieldT(u) + tail;
      DisciplinedF(f, rest, count);
      assert tail[1..] == YieldF(f) + rest;
      DisciplinedT(u, tail, count);
  }

  lemma {:induction false} DisciplinedF(f: Factor, rest: seq<QT.Token>, count: int)
    requires 0 <= count && Disciplined(rest, QT.WaitOperator, count)
    requires forall n :: QT.VAL(n) in YieldF(f) ==> QT.Int4(n)
    ensures Disciplined(YieldF(f) + rest, QT.WaitOperand, count)
    decreases f
  {
    var s := YieldF(f) + rest;
    match f
    case Num(n) =>
      assert s[1..] == rest;
    case Bang(g) =>
      DisciplinedF(g, rest, count);
      assert s[1..] == YieldF(g) + rest;
    case Paren(e) =>
      var tail := [QT.CLOSE] + rest;
      assert tail[1..] == rest;
      DisciplinedE(e, tail, count + 1);
      assert s[1..] == YieldE(e) + tail;
  }

  /** A text has a derivation exactly if it spells the tokens of the derivation. */
  lemma DerivesIffSpelled(e: Expr, text: string)
    ensures Derives(e, text) <==> Spelled(YieldE(e), text)
  {
    if Derives(e, text) { TokensSpell(text, QT.WaitOperand, 0, YieldE(e)); }
    if Spelled(YieldE(e), text) {
      SpelledInt4(YieldE(e), text);
      assert Disciplined([QT.END], QT.WaitOperator, 0);
      DisciplinedE(e, [QT.END], 0);
      SpelledTokens(YieldE(e), text, QT.WaitOperand, 0);
    }
  }

  /** The parser accepts exactly what spells a derivation that fits 16 places of the operator stack. */
  lemma AcceptsSpelled(text: string)
    ensures Read(text).Done? <==> exists e :: Spelled(YieldE(e), text) && FitsE(e, 16)
    ensures forall e :: Spelled(YieldE(e), text) ==>
      Read(text) == if FitsE(e, 16) then Done(Polish(TreeE(e)), []) else TooComplex
  {
    AcceptsTheGrammar(text);
    forall e ensures Derives(e, text) <==> Spelled(YieldE(e), text) { DerivesIffSpelled(e, text); }
    if Read(text).Done? {
      var e :| Derives(e, text) && FitsE(e, STACKDEPTH);
      assert Spelled(YieldE(e), text);
    }
  }
}
