/**
 gettoken(): the tokens of a query text.  The text is the C string without its
 terminator; running into the terminator is running out of characters.
 */
module QueryText {
  datatype Token = VAL(n: int) | OPR(op: char) | OPEN | CLOSE | END | ERR

  /** The parser states; between two calls of gettoken the state is never WaitEndOperand. */
  datatype Mode = WaitOperand | WaitEndOperand | WaitOperator

  datatype Scan = Scan(token: Token, rest: string, mode: Mode, count: int)

  const NNN_SIZE: nat := 16

  predicate IsDigit(c: char) { '0' <= c <= '9' }

  function Digit(c: char): nat
    requires IsDigit(c)
  {
    c as int - '0' as int
  }

  predicate Digits(s: string) { forall i :: 0 <= i < |s| ==> IsDigit(s[i]) }

  function OctalPrefix(s: string): (p: string)
    ensures p <= s
  {
    if s != [] && '0' <= s[0] <= '7' then [s[0]] + OctalPrefix(s[1..]) else []
  }

  function Number(s: string, base: nat): nat
    requires Digits(s)
  {
    if s == [] then 0 else Number(s[..|s|-1], base) * base + Digit(s[|s|-1])
  }

  function Magnitude(s: string): int
    requires Digits(s)
  {
    if s != [] && s[0] == '0' then Number(OctalPrefix(s), 8) else Number(s, 10)
  }

  /** What gettoken collects in nnn: a digit or a minus sign, then digits. */
  predicate NumberText(s: string) {
    s != [] && (IsDigit(s[0]) || s[0] == '-') && Digits(s[1..])
  }

  /** strtol(nnn, NULL, 0): a leading zero selects octal. */
  function Strtol(s: string): int
    requires NumberText(s)
  {
    if s[0] == '-' then -Magnitude(s[1..]) else Magnitude(s)
  }

  predicate Int4(n: int) { -0x8000_0000 <= n <= 0x7fff_ffff }

  /** State WAITENDOPERAND: nnn collected so far, s still to come. */
  function ScanNumber(nnn: string, s: string, count: int): Scan
    requires NumberText(nnn)
    decreases s
  {
    if |nnn| >= NNN_SIZE then Scan(ERR, s, WaitOperand, count)
    else if s != [] && IsDigit(s[0]) then ScanNumber(nnn + [s[0]], s[1..], count)
    else if !Int4(Strtol(nnn)) then Scan(ERR, s, WaitOperand, count)
    else if count != 0 && s == [] then Scan(ERR, s, WaitOperand, count)
    else Scan(VAL(Strtol(nnn)), s, WaitOperator, count)
  }

  function NextToken(s: string, mode: Mode, count: int): Scan
    requires mode != WaitEndOperand
    decreases s
  {
    if mode == WaitOperand then
      if s == [] then Scan(ERR, s, mode, count)
      else if IsDigit(s[0]) || s[0] == '-' then ScanNumber([s[0]], s[1..], count)
      else if s[0] == '!' then Scan(OPR('!'), s[1..], mode, count)
      else if s[0] == '(' then Scan(OPEN, s[1..], mode, count + 1)
      else if s[0] == ' ' then NextToken(s[1..], mode, count)
      else Scan(ERR, s, mode, count)
    else
      if s == [] then Scan(if count != 0 then ERR else END, s, mode, count)
      else if s[0] == '&' || s[0] == '|' then Scan(OPR(s[0]), s[1..], WaitOperand, count)
      else if s[0] == ')' then
        if count - 1 < 0 then Scan(ERR, s, mode, count - 1) else Scan(CLOSE, s[1..], mode, count - 1)
      else if s[0] == ' ' then NextToken(s[1..], mode, count)
      else Scan(ERR, s, mode, count)
  }

  lemma {:induction false} ScanNumberAdvances(nnn: string, s: string, count: int)
    requires NumberText(nnn)
    ensures var r := ScanNumber(nnn, s, count);
      && |r.rest| <= |s|
      && (r.token == ERR || (r.token.VAL? && Int4(r.token.n) && r.mode == WaitOperator && r.count == count))
    decreases s
  {
    if |nnn| < NNN_SIZE && s != [] && IsDigit(s[0]) {
      ScanNumberAdvances(nnn + [s[0]], s[1..], count);
    }
  }

  /** Which tokens can come in which state, how the parenthesis count moves, and that text is used up. */
  lemma {:induction false} TokenDiscipline(s: string, mode: Mode, count: int)
    requires mode != WaitEndOperand
    ensures var r := NextToken(s, mode, count);
      match r.token
      case ERR => true
      case END => mode == WaitOperator && count == 0 && r.rest == []
      case VAL(n) => mode == WaitOperand && Int4(n) && r.mode == WaitOperator && r.count == count && |r.rest| < |s|
      case OPR(c) => r.mode == WaitOperand && r.count == count && |r.rest| < |s|
                  && (if mode == WaitOperand then c == '!' else c == '&' || c == '|')
      case OPEN => mode == WaitOperand && r.mode == WaitOperand && r.count == count + 1 && |r.rest| < |s|
      case CLOSE => mode == WaitOperator && r.mode == WaitOperator && 0 <= r.count == count - 1 && |r.rest| < |s|
    decreases s
  {
    if s != [] {
      if s[0] == ' ' {
        TokenDiscipline(s[1..], mode, count);
      } else if mode == WaitOperand && (IsDigit(s[0]) || s[0] == '-') {
        ScanNumberAdvances([s[0]], s[1..], count);
      }
    }
  }

  /** The token stream of a text, up to and including the END or ERR that stops it. */
  function Tokens(s: string, mode: Mode, count: int): seq<Token>
    requires mode != WaitEndOperand
    decreases |s|
  {
    var r := NextToken(s, mode, count);
    TokenDiscipline(s, mode, count);
    if r.token == END || r.token == ERR then [r.token]
    else [r.token] + Tokens(r.rest, r.mode, r.count)
  }

  // ----- sprintf("%d") and its inverse -----

  function DigitChar(d: nat): char
    requires d < 10
  {
    ('0' as int + d) as char
  }

  function NatText(n: nat): string {
    if n < 10 then [DigitChar(n)] else NatText(n / 10) + [DigitChar(n % 10)]
  }

  function IntText(n: int): string {
    if n < 0 then "-" + NatText(-n) else NatText(n)
  }

  lemma {:induction false} NatTextReads(n: nat)
    ensures Digits(NatText(n)) && NatText(n) != [] && Number(NatText(n), 10) == n
    ensures n > 0 ==> NatText(n)[0] != '0'
  {
    if n < 10 {
      assert Number([], 10) == 0;
      assert [DigitChar(n)][..0] == [];
    } else {
      NatTextReads(n / 10);
      var t := NatText(n / 10);
      assert (t + [DigitChar(n % 10)])[..|t|] == t;
    }
  }

  function Pow10(k: nat): nat { if k == 0 then 1 else 10 * Pow10(k - 1) }

  lemma {:induction false} NatTextLength(n: nat, k: nat)
    requires 0 < k && n < Pow10(k)
    ensures |NatText(n)| <= k
    decreases k
  {
    if n >= 10 {
      NatTextLength(n / 10, k - 1);
    }
  }

  /** strtol undoes sprintf for every int4, and the text fits the token buffer. */
  lemma StrtolUndoesSprintf(n: int)
    requires Int4(n)
    ensures NumberText(IntText(n)) && Strtol(IntText(n)) == n && |IntText(n)| <= 11
  {
    IntTextReads(n);
    assert Pow10(5) == 100000 && Pow10(10) == 100000 * 100000 by {
      assert Pow10(2) == 100 && Pow10(4) == 10000;
      assert Pow10(7) == 10000000;
    }
    NatTextLength(if n < 0 then -n else n, 10);
  }

  /** No digit but those of base eight. */
  predicate Octal(s: string) { forall i :: 0 <= i < |s| ==> '0' <= s[i] <= '7' }

  lemma {:induction false} OctalPrefixNext(s: string, d: char)
    ensures OctalPrefix(s + [d]) == if Octal(s) && '0' <= d <= '7' then s + [d] else OctalPrefix(s)
    ensures Octal(s) ==> OctalPrefix(s) == s
  {
    if s != [] {
      OctalPrefixNext(s[1..], d);
      assert (s + [d])[1..] == s[1..] + [d];
      assert Octal(s) <==> '0' <= s[0] <= '7' && Octal(s[1..]) by {
        assert forall i :: 0 < i < |s| ==> s[i] == s[1..][i-1];
      }
      assert s == [s[0]] + s[1..];
      assert [s[0]] + (s[1..] + [d]) == s + [d];
    } else {
      assert s + [d] == [d] && OctalPrefix([d][1..]) == [];
    }
  }

  lemma NumberNext(s: string, d: char, base: nat)
    requires Digits(s) && IsDigit(d)
    ensures Digits(s + [d]) && Number(s + [d], base) == Number(s, base) * base + Digit(d)
  {
    var t := s + [d];
    assert t[..|t|-1] == s;
  }

  /**
   What strtol makes of a number, digit by digit: behind a leading zero octal, where any
   other digit ends it, and decimal otherwise.
   */
  lemma StrtolMeans(s: string, d: char)
    requires Digits(s) && IsDigit(d)
    ensures NumberText([d]) && Strtol([d]) == Digit(d)
    ensures NumberText("-" + s) && (s != [] ==> Strtol("-" + s) == -Strtol(s))
    ensures s != [] ==> NumberText(s) && NumberText(s + [d])
    ensures s != [] && s[0] != '0' ==> Strtol(s + [d]) == 10 * Strtol(s) + Digit(d)
    ensures s != [] && s[0] == '0' && Octal(s + [d]) ==> Strtol(s + [d]) == 8 * Strtol(s) + Digit(d)
    ensures s != [] && s[0] == '0' && !Octal(s + [d]) ==> Strtol(s + [d]) == Strtol(s)
  {
    OneDigit(d);
    assert ("-" + s)[1..] == s;
    if s != [] {
      var t := s + [d];
      NumberNext(s, d, 10);
      OctalPrefixNext(s, d);
      OctalMore(s, d);
      if Octal(s) && '0' <= d <= '7' { NumberNext(s, d, 8); }
    }
  }

  lemma OctalMore(s: string, d: char)
    ensures Octal(s + [d]) <==> Octal(s) && '0' <= d <= '7'
  {
    var t := s + [d];
    if Octal(t) {
      assert t[|s|] == d;
      assert forall i :: 0 <= i < |s| ==> s[i] == t[i];
    }
  }

  lemma OneDigit(d: char)
    requires IsDigit(d)
    ensures NumberText([d]) && Strtol([d]) == Digit(d)
  {
    NumberNext([], d, 10);
    assert [] + [d] == [d];
    if d == '0' {
      OctalPrefixNext([], d);
      NumberNext([], d, 8);
      assert Magnitude("0") == Number("0", 8);
    }
  }

  lemma {:induction false} NatTextOnly(t: string)
    requires Digits(t) && t != [] && t[0] != '0'
    ensures Number(t, 10) > 0 && NatText(Number(t, 10)) == t
    decreases |t|
  {
    var d, s := t[|t|-1], t[..|t|-1];
    assert t == s + [d] && DigitChar(Digit(d)) == d;
    if s == [] {
      assert Number(s, 10) == 0;
    } else {
      NatTextOnly(s);
      var n := Number(s, 10);
      assert (10 * n + Digit(d)) / 10 == n && (10 * n + Digit(d)) % 10 == Digit(d);
    }
  }

  /** A number in decimal digits without a needless zero or a minus before it. */
  predicate ShortestDecimal(s: string) {
    s == "0" || (NumberText(s) && |s| >= 1 && if s[0] == '-' then |s| >= 2 && s[1] != '0' else s[0] != '0')
  }

  /** sprintf writes the only text of this kind that reads as the number. */
  lemma IntTextOnly(n: int, s: string)
    ensures ShortestDecimal(IntText(n))
    ensures ShortestDecimal(s) ==> NumberText(s) && (Strtol(s) == n <==> s == IntText(n))
  {
    IntTextReads(n);
    if ShortestDecimal(s) { ShortestReads(s, n); }
  }

  lemma IntTextReads(n: int)
    ensures ShortestDecimal(IntText(n)) && NumberText(IntText(n)) && Strtol(IntText(n)) == n
  {
    NatTextReads(if n < 0 then -n else n);
    if n < 0 {
      assert IntText(n)[1..] == NatText(-n);
    } else if n == 0 {
      OneDigit('0');
      assert IntText(0) == "0";
    }
  }

  lemma ShortestReads(s: string, n: int)
    requires ShortestDecimal(s)
    ensures NumberText(s) && (Strtol(s) == n ==> s == IntText(n))
  {
    if s == "0" {
      OneDigit('0');
    } else if s[0] == '-' {
      NatTextOnly(s[1..]);
      assert s == "-" + s[1..];
    } else {
      NatTextOnly(s);
    }
  }
}
