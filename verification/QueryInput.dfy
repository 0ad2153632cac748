/**
 The imperative parser: WORKSTATE with gettoken, pushquery and makepol, and bqarr_in,
 which turns the list makepol leaves into the linked item array.
 */
module QueryInput {
  import opened BoolQuery
  import opened QueryGrammar
  import opened QueryParser
  import opened QuerySpelling
  import opened QueryErrors
  import QT = QueryText

  /** The list of nodes pushed so far, latest first. */
  datatype NodeList = Nil | Cons(node: Node, next: NodeList)

  ghost function InOrder(l: NodeList): seq<Node> {
    match l
    case Nil => []
    case Cons(x, next) => InOrder(next) + [x]
  }

  datatype Result = Parsed | Failed(tooComplex: bool)

  class WorkState {
    const text: string
    var buf: nat
    var state: QT.Mode
    var count: int
    var str: NodeList
    var num: nat

    constructor (text: string)
      ensures this.text == text && buf == 0 && state == QT.WaitOperand && count == 0 && str == Nil && num == 0
    {
      this.text := text;
      buf, state, count, str, num := 0, QT.WaitOperand, 0, Nil, 0;
    }

    /** Between tokens. */
    ghost predicate Ready()
      reads this
    {
      buf <= |text| && state != QT.WaitEndOperand
    }

    ghost function Rest(): string
      requires buf <= |text|
      reads this
    {
      text[buf..]
    }

    method GetToken() returns (token: QT.Token)
      requires Ready()
      modifies this`buf, this`state, this`count
      ensures token == QT.NextToken(old(Rest()), old(state), old(count)).token
      ensures token != QT.ERR
        ==> Ready() && QT.NextToken(old(Rest()), old(state), old(count)) == QT.Scan(token, Rest(), state, count)
    {
      var nnn := "";
      ghost var scan := QT.NextToken(Rest(), state, count);
      while true
        invariant buf <= |text|
        invariant state != QT.WaitEndOperand ==> nnn == "" && scan == QT.NextToken(Rest(), state, count)
        invariant state == QT.WaitEndOperand ==> QT.NumberText(nnn) && scan == QT.ScanNumber(nnn, Rest(), count)
        decreases |text| - buf
      {
        if |nnn| >= QT.NNN_SIZE { return QT.ERR; }
        var atEnd := buf == |text|;
        assert !atEnd ==> text[buf..][0] == text[buf] && text[buf..][1..] == text[buf+1..];
        match state {
          case WaitOperand =>
            nnn := "";
            if atEnd { return QT.ERR; }
            if QT.IsDigit(text[buf]) || text[buf] == '-' {
              state := QT.WaitEndOperand;
              nnn := [text[buf]];
            } else if text[buf] == '!' {
              buf := buf + 1;
              return QT.OPR('!');
            } else if text[buf] == '(' {
              count := count + 1;
              buf := buf + 1;
              return QT.OPEN;
            } else if text[buf] != ' ' {
              return QT.ERR;
            }
          case WaitEndOperand =>
            if !atEnd && QT.IsDigit(text[buf]) {
              nnn := nnn + [text[buf]];
            } else {
              var val := QT.Strtol(nnn);
              if !QT.Int4(val) { return QT.ERR; }
              state := QT.WaitOperator;
              if count != 0 && atEnd { return QT.ERR; }
              return QT.VAL(val);
            }
          case WaitOperator =>
            if atEnd { return if count != 0 then QT.ERR else QT.END; }
            if text[buf] == '&' || text[buf] == '|' {
              state := QT.WaitOperand;
              buf := buf + 1;
              return QT.OPR(text[buf-1]);
            } else if text[buf] == ')' {
              buf := buf + 1;
              count := count - 1;
              return if count < 0 then QT.ERR else QT.CLOSE;
            } else if text[buf] != ' ' {
              return QT.ERR;
            }
        }
        buf := buf + 1;
      }
    }

    method PushQuery(kind: Kind, val: int)
      modifies this`str, this`num
      ensures InOrder(str) == old(InOrder(str)) + [Node(kind, val)]
      ensures num == old(num) + 1
    {
      str := Cons(Node(kind, val), str);
      num := num + 1;
    }

    ghost function Ahead(): seq<QT.Token>
      requires Ready()
      reads this
    {
      QT.Tokens(Rest(), state, count)
    }

    /** Output every & and ! on top of the stack. */
    method PopTight(stack: array<char>, len: nat) returns (len': nat)
      requires len <= stack.Length
      modifies this`str, this`num
      ensures len' <= len && stack[..len'] == Loosen(stack[..len])
      ensures InOrder(str) == old(InOrder(str)) + TightNodes(stack[..len])
      ensures num - |InOrder(str)| == old(num - |InOrder(str)|)
    {
      len' := len;
      while len' > 0 && (stack[len'-1] == '&' || stack[len'-1] == '!')
        invariant 0 <= len' <= len && Loosen(stack[..len']) == Loosen(stack[..len])
        invariant InOrder(str) + TightNodes(stack[..len']) == old(InOrder(str)) + TightNodes(stack[..len])
        invariant num - |InOrder(str)| == old(num - |InOrder(str)|)
      {
        assert stack[..len'][..len'-1] == stack[..len'-1];
        len' := len' - 1;
        ghost var before := InOrder(str);
        PushQuery(OPR, stack[len'] as int);
        AppendAssoc(before, [Node(OPR, stack[len'] as int)], TightNodes(stack[..len']));
      }
    }

    /** Output the whole stack. */
    method PopAll(stack: array<char>, len: nat)
      requires len <= stack.Length
      modifies this`str, this`num
      ensures InOrder(str) == old(InOrder(str)) + AllNodes(stack[..len])
      ensures num - |InOrder(str)| == old(num - |InOrder(str)|)
    {
      var lenstack := len;
      while lenstack > 0
        invariant 0 <= lenstack <= len
        invariant InOrder(str) + AllNodes(stack[..lenstack]) == old(InOrder(str)) + AllNodes(stack[..len])
        invariant num - |InOrder(str)| == old(num - |InOrder(str)|)
      {
        assert stack[..lenstack][..lenstack-1] == stack[..lenstack-1];
        lenstack := lenstack - 1;
        ghost var before := InOrder(str);
        PushQuery(OPR, stack[lenstack] as int);
        AppendAssoc(before, [Node(OPR, stack[lenstack] as int)], AllNodes(stack[..lenstack]));
      }
    }

    /** gettoken, as a step along the token stream. */
    method TakeToken() returns (token: QT.Token)
      requires Ready() && 0 <= count
      modifies this`buf, this`state, this`count
      ensures old(Ahead()) != [] && old(Ahead())[0] == token
      ensures token != QT.ERR ==> Ready()
      ensures token != QT.ERR && token != QT.END ==> old(Ahead())[1..] == Ahead() && |text| - buf < old(|text| - buf)
      ensures token != QT.ERR && token != QT.END
        ==> count == old(count) + (if token == QT.OPEN then 1 else if token == QT.CLOSE then -1 else 0)
      ensures (token == QT.CLOSE ==> 0 < old(count)) && (token == QT.END ==> old(count) == 0)
    {
      ghost var ts := Ahead();
      QT.TokenDiscipline(Rest(), state, count);
      token := GetToken();
      assert token != QT.ERR && token != QT.END ==> ts == [token] + Ahead();
    }

    /** The operator branch of makepol; full reports the operator stack overflow. */
    method PushOperator(stack: array<char>, len: nat, c: char) returns (len': nat, full: bool)
      requires len <= stack.Length == STACKDEPTH
      modifies this`str, this`num, stack
      ensures len' <= STACKDEPTH && (full <==> !(len > 0 && c == '|') && len == STACKDEPTH)
      ensures len > 0 && c == '|'
        ==> stack[..len'] == old(stack[..len]) && InOrder(str) == old(InOrder(str)) + [Node(OPR, c as int)]
      ensures !full && !(len > 0 && c == '|')
        ==> stack[..len'] == old(stack[..len]) + [c] && InOrder(str) == old(InOrder(str))
      ensures num - |InOrder(str)| == old(num - |InOrder(str)|)
    {
      len', full := len, false;
      if len > 0 && c == '|' {
        PushQuery(OPR, c as int);
      } else if len == STACKDEPTH {
        full := true;
      } else {
        ghost var before := stack[..len];
        stack[len] := c;
        len' := len + 1;
        assert stack[..len'] == before + [c];
      }
    }

    /** A value or an operator. */
    method Absorb(stack: array<char>, len: nat, token: QT.Token, ghost rest: seq<QT.Token>)
      returns (len': nat, full: bool)
      requires len <= stack.Length == STACKDEPTH && (token.VAL? || token.OPR?)
      modifies this`str, this`num, stack
      ensures len' <= STACKDEPTH
      ensures PolishOf([token] + rest, old(stack[..len]), old(InOrder(str)))
           == if full then TooComplex else PolishOf(rest, stack[..len'], InOrder(str))
      ensures num - |InOrder(str)| == old(num - |InOrder(str)|)
    {
      assert ([token] + rest)[1..] == rest;
      if token.VAL? {
        PushQuery(VAL, token.n);
        len' := PopTight(stack, len);
        full := false;
      } else {
        len', full := PushOperator(stack, len, token.op);
      }
    }

    /** One level of parentheses; at level count == 0 it runs to the end of the text. */
    method MakePol() returns (r: Result)
      requires Ready() && 0 <= count
      modifies this
      ensures r.Parsed? <==> PolishOf(old(Ahead()), [], old(InOrder(str))).Done?
      ensures r.Failed? ==> (r.tooComplex <==> PolishOf(old(Ahead()), [], old(InOrder(str))).TooComplex?)
      ensures r.Parsed? ==> InOrder(str) == PolishOf(old(Ahead()), [], old(InOrder(str))).out
      ensures num - |InOrder(str)| == old(num - |InOrder(str)|)
      ensures r.Parsed? && 0 < old(count) ==>
        Ready() && count == old(count) - 1 && |text| - buf < old(|text| - buf)
        && PolishOf(old(Ahead()), [], old(InOrder(str))).rest == Ahead()
      decreases |text| - buf
    {
      ghost var target := PolishOf(Ahead(), [], InOrder(str));
      var stack := new char[STACKDEPTH];
      var lenstack := 0;
      assert stack[..0] == [];
      while true
        invariant Ready() && count == old(count) && |text| - buf <= old(|text| - buf)
        invariant 0 <= lenstack <= STACKDEPTH
        invariant PolishOf(Ahead(), stack[..lenstack], InOrder(str)) == target
        invariant num - |InOrder(str)| == old(num - |InOrder(str)|)
        decreases |text| - buf
      {
        var token := TakeToken();
        if token == QT.ERR { return Failed(false); }
        if token == QT.CLOSE || token == QT.END {
          PopAll(stack, lenstack);
          return Parsed;
        }
        if token == QT.OPEN {
          r := MakePol();
          if r.Failed? { return; }
          lenstack := PopTight(stack, lenstack);
        } else {
          var full;
          lenstack, full := Absorb(stack, lenstack, token, Ahead());
          if full { return Failed(true); }
        }
      }
    }
  }

  /** The list of nodes becomes an array of items. */
  method SpellOut(str: NodeList, num: nat, ghost q: Query) returns (ptr: array<Item>)
    requires InOrder(str) == Polish(q) && num == Size(q)
    ensures fresh(ptr) && ptr.Length == Size(q) && Spells(ptr[..], Size(q) - 1, q)
  {
    ptr := new Item[num](_ => Item(VAL, 0, 0));
    Unroll(str, ptr);
    SpellsPolish(q, ptr[..]);
  }

  lemma SpellsPolish(q: Query, items: seq<Item>)
    requires |items| == Size(q)
    requires forall k :: 0 <= k < Size(q) ==> Node(items[k].kind, items[k].val) == Polish(q)[k]
    ensures Spells(items, Size(q) - 1, q)
  {
    PolishSpells(items, Size(q) - 1, q);
  }

  /** The second half of bqarr_in: the items in an array, with their links. */
  method LinkItems(str: NodeList, num: nat, ghost q: Query) returns (ptr: array<Item>)
    requires InOrder(str) == Polish(q) && num == Size(q)
    ensures fresh(ptr) && ptr[..] == Linked(q)
  {
    ptr := SpellOut(str, num, q);
    var rest := FindOprnd(ptr, num - 1, q);
    assert ptr[0..num] == ptr[..];
  }

  /**
   bqarr_in: a text is accepted exactly when it spells a derivation fitting the operator
   stack, and then the items are those of the derivation's tree.
   */
  method BqarrIn(buf: string) returns (r: Result, ptr: array<Item>)
    ensures r.Parsed? <==> exists e :: Spelled(YieldE(e), buf) && FitsE(e, 16)
    ensures forall e :: Spelled(YieldE(e), buf) ==> if FitsE(e, 16) then r.Parsed? else r == Failed(true)
    ensures (forall e :: !Spelled(YieldE(e), buf)) ==> forall e :: Completed(buf, e) ==> r == Failed(!FitsE(e, 16))
    ensures r.Parsed? ==> forall e :: Spelled(YieldE(e), buf) ==> ptr[..] == Linked(TreeE(e))
  {
    var state := new WorkState(buf);
    assert buf[0..] == buf;
    r := state.MakePol();
    assert r.Parsed? <==> Read(buf).Done?;
    AcceptsSpelled(buf);
    if r.Failed? {
      if forall e :: !Spelled(YieldE(e), buf) { WhichError(buf); }
      ptr := new Item[0];
      return;
    }
    ghost var e :| Spelled(YieldE(e), buf) && FitsE(e, 16);
    ptr := LinkItems(state.str, state.num, TreeE(e));
    forall d | Spelled(YieldE(d), buf) ensures ptr[..] == Linked(TreeE(d)) {
      SameTree(d, e, buf);
    }
  }

  /** An accepted text has one reading only. */
  lemma SameTree(d: Expr, e: Expr, text: string)
    requires Spelled(YieldE(d), text) && Spelled(YieldE(e), text) && FitsE(e, 16)
    ensures TreeE(d) == TreeE(e)
  {
    AcceptsSpelled(text);
    PolishInjective(TreeE(d), TreeE(e));
  }

  /** The loop that empties the list into the array from its end. */
  method Unroll(str: NodeList, ptr: array<Item>)
    requires ptr.Length == |InOrder(str)|
    modifies ptr
    ensures forall k {:trigger ptr[k]} :: 0 <= k < ptr.Length ==> Node(ptr[k].kind, ptr[k].val) == InOrder(str)[k]
  {
    var i, l := ptr.Length - 1, str;
    while i >= 0
      invariant -1 <= i < ptr.Length && |InOrder(l)| == i + 1 && InOrder(l) == InOrder(str)[..i+1]
      invariant forall k {:trigger ptr[k]} :: i < k < ptr.Length ==> Node(ptr[k].kind, ptr[k].val) == InOrder(str)[k]
    {
      assert l.Cons?;
      ptr[i] := ptr[i].(kind := l.node.kind, val := l.node.val);
      l := l.next;
      i := i - 1;
    }
  }

  // ----- a Polish form determines its query -----

  lemma {:induction false} PolishSuffix(p: Query, q: Query, x: seq<Node>, y: seq<Node>)
    requires x + Polish(p) == y + Polish(q)
    ensures p == q && x == y
    decreases p
  {
    SameRoot(p, q, x, y);
    match p {
      case Val(n) =>
      case Not(a) =>
        PolishSuffix(a, q.arg, x, y);
      case Bin(op, l, r) =>
        PolishSuffix(r, q.r, x + Polish(l), y + Polish(q.l));
        PolishSuffix(l, q.l, x, y);
    }
  }

  function Root(p: Query): Node {
    match p
    case Val(n) => Node(VAL, n)
    case Not(_) => Node(OPR, BANG)
    case Bin(op, _, _) => Node(OPR, Code(op))
  }

  ghost function Below(p: Query): seq<Node> {
    match p
    case Val(_) => []
    case Not(a) => Polish(a)
    case Bin(_, l, r) => Polish(l) + Polish(r)
  }

  /** Two Polish forms with the same end have the same root, and what is before it is the same. */
  lemma SameRoot(p: Query, q: Query, x: seq<Node>, y: seq<Node>)
    requires x + Polish(p) == y + Polish(q)
    ensures p.Val? ==> q == p && x == y
    ensures p.Not? ==> q.Not? && x + Polish(p.arg) == y + Polish(q.arg)
    ensures p.Bin? ==> q.Bin? && q.op == p.op && (x + Polish(p.l)) + Polish(p.r) == (y + Polish(q.l)) + Polish(q.r)
  {
    assert Polish(p) == Below(p) + [Root(p)] && Polish(q) == Below(q) + [Root(q)];
    SameLast(x, Below(p), Root(p), y, Below(q), Root(q));
    if p.Val? {
      assert x + [] == x && y + [] == y;
    } else if p.Bin? {
      AppendAssoc(x, Polish(p.l), Polish(p.r));
      AppendAssoc(y, Polish(q.l), Polish(q.r));
    }
  }

  lemma SameLast<T>(x: seq<T>, a: seq<T>, m: T, y: seq<T>, b: seq<T>, n: T)
    requires x + (a + [m]) == y + (b + [n])
    ensures m == n && x + a == y + b
  {
    var s := x + (a + [m]);
    assert s[|s|-1] == m == n && s[..|s|-1] == x + a == y + b;
  }

  lemma PolishInjective(p: Query, q: Query)
    requires Polish(p) == Polish(q)
    ensures p == q
  {
    PolishSuffix(p, q, [], []);
  }

  /**
   The main result for queries.  Whatever derivation a text has, running execute over
   the items bqarr_in builds for it gives the truth of the derivation, provided every
   right operand fits the link field.
   */
  lemma ExecuteMeansTheText(text: string, e: Expr, chk: nat -> bool, present: int -> bool)
    requires Spelled(YieldE(e), text) && FitsE(e, 16)
    requires LinksFit(TreeE(e)) && Answers(Linked(TreeE(e)), chk, present)
    ensures WellLinked(Linked(TreeE(e)))
    ensures Execute(Linked(TreeE(e)), Size(TreeE(e)) - 1, chk, true) == MeansE(e, present)
  {
    var q := TreeE(e);
    LinkedIsWellLinked(q);
    LinksRightIffFit(q);
    WholeArray(Linked(q), q, chk, present);
    TreeMeansE(e, present);
  }
}
