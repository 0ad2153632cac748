/**
 What the errors of hstore_in say: a syntax error stands at the first character no list can
 go on with, and an unexpected end is one that more text can mend.
 */
module HStoreErrors {
  import opened HStorePairs
  import opened HStoreUnique
  import opened HStoreText
  import opened HStoreGrammar

  /** Both texts begin with the same m characters. */
  ghost predicate Agree(s: string, t: string, m: nat) { m <= |s| && m <= |t| && s[..m] == t[..m] }

  lemma AgreeAt(s: string, t: string, m: nat, i: nat)
    requires Agree(s, t, m) && i < m
    ensures CharAt(s, i) == CharAt(t, i)
  {
    assert s[i] == s[..m][i] && t[i] == t[..m][i];
  }

  /** What ends a bare word besides white space and the end of the text. */
  function Delimiter(ignoreeq: bool): char { if ignoreeq then ',' else '=' }

  /** What the scanner does with one character: go on, or return. */
  datatype Pass = GoOn(st: ValState, word: string, escaped: bool) | Return(r: Result<Scan>)

  ghost function OnePass(c: char, ptr: nat, st: ValState, ignoreeq: bool, word: string, escaped: bool): Pass
    requires st != WaitVal ==> ptr > 0
  {
    match st
    case WaitVal =>
      if c == '"' then GoOn(InEscVal, word, true)
      else if c == NUL then Return(Ok(Scan(false, word, escaped, ptr)))
      else if c == '=' && !ignoreeq then Return(Err(SyntaxError(c, ptr)))
      else if c == '\\' then GoOn(WaitEscIn, word, escaped)
      else if IsSpace(c) then GoOn(WaitVal, word, escaped)
      else GoOn(InVal, word + [c], escaped)
    case InVal =>
      if c == '\\' then GoOn(WaitEscIn, word, escaped)
      else if c == Delimiter(ignoreeq) || c == NUL then Return(Ok(Scan(true, word, escaped, ptr - 1)))
      else if IsSpace(c) then Return(Ok(Scan(true, word, escaped, ptr)))
      else GoOn(InVal, word + [c], escaped)
    case InEscVal =>
      if c == '\\' then GoOn(WaitEscEscIn, word, escaped)
      else if c == '"' then Return(Ok(Scan(true, word, escaped, ptr)))
      else if c == NUL then Return(Err(UnexpectedEnd))
      else GoOn(InEscVal, word + [c], escaped)
    case WaitEscIn => if c == NUL then Return(Err(UnexpectedEnd)) else GoOn(InVal, word + [c], escaped)
    case WaitEscEscIn => if c == NUL then Return(Err(UnexpectedEnd)) else GoOn(InEscVal, word + [c], escaped)
  }

  lemma ValByPass(s: string, ptr: nat, st: ValState, ignoreeq: bool, word: string, escaped: bool)
    requires ptr <= |s| && (st != WaitVal ==> ptr > 0)
    ensures match OnePass(CharAt(s, ptr), ptr, st, ignoreeq, word, escaped)
      case GoOn(st', word', escaped') =>
        ptr < |s| && Val(s, ptr, st, ignoreeq, word, escaped) == Val(s, ptr + 1, st', ignoreeq, word', escaped')
      case Return(r) => Val(s, ptr, st, ignoreeq, word, escaped) == r
  {
  }

  // ----- places -----

  /** The place of an error is where the scanner is or further on. */
  lemma {:induction false} ValErrorPlace(s: string, ptr: nat, st: ValState, ignoreeq: bool, word: string, escaped: bool)
    requires ptr <= |s| && (st != WaitVal ==> ptr > 0)
    ensures var r := Val(s, ptr, st, ignoreeq, word, escaped);
      r.Err? && r.error.SyntaxError? ==>
        !ignoreeq && st == WaitVal && ptr <= r.error.pos < |s| && r.error.near == s[r.error.pos] == '='
    decreases |s| - ptr
  {
    ValByPass(s, ptr, st, ignoreeq, word, escaped);
    match OnePass(CharAt(s, ptr), ptr, st, ignoreeq, word, escaped)
    case GoOn(st', word', escaped') => ValErrorPlace(s, ptr + 1, st', ignoreeq, word', escaped');
    case Return(_) =>
  }

  ghost predicate ErrorAfter(r: Result<seq<Pairs>>, s: string, ptr: nat) {
    r.Err? && r.error.SyntaxError? ==>
      ptr <= r.error.pos < |s| && r.error.near == s[r.error.pos] != NUL
  }

  lemma {:induction false} ParseErrorPlace(s: string, ptr: nat, st: ParseState, key: string, pairs: seq<Pairs>)
    requires ptr <= |s|
    ensures ErrorAfter(Parse(s, ptr, st, key, pairs), s, ptr)
    decreases |s| - ptr
  {
    match st
    case WKey =>
      ValErrorPlace(s, ptr, WaitVal, false, [], false);
      var v := Val(s, ptr, WaitVal, false, [], false);
      if v.Ok? && v.value.found { ParseErrorPlace(s, v.value.ptr + 1, WEq, v.value.word, pairs); }
    case WVal =>
      ValErrorPlace(s, ptr, WaitVal, true, [], false);
      var v := Val(s, ptr, WaitVal, true, [], false);
      if v.Ok? && v.value.found { ParseErrorPlace(s, v.value.ptr + 1, WDel, [], pairs + [PairOf(key, v.value)]); }
    case _ =>
      if ptr < |s| {
        ParseErrorPlace(s, ptr + 1, st, key, pairs);
        ParseErrorPlace(s, ptr + 1, Next(st), if st == WDel then [] else key, pairs);
      }
  }

  /** The state behind the character a state waits for. */
  function Next(st: ParseState): ParseState { if st == WEq then WGt else if st == WGt then WVal else WKey }

  // ----- what comes later does not matter -----

  /** The scan of s is over within the first m characters, for t as for s. */
  ghost predicate Settled(r: Result<Scan>, s: string, t: string, m: nat, ignoreeq: bool) {
    match r
    case Err(e) => e.SyntaxError? && e.pos < m
    case Ok(v) =>
      && v.found && v.ptr < m
      && (v.ptr + 1 < m || CharAt(t, m) == Delimiter(ignoreeq) || CharAt(s, m) !in {NUL, Delimiter(ignoreeq)})
  }

  lemma {:induction false} ValAgrees(s: string, t: string, m: nat, ptr: nat, st: ValState, ignoreeq: bool,
                                     word: string, escaped: bool)
    requires Agree(s, t, m) && ptr <= m && (st != WaitVal ==> ptr > 0)
    requires Settled(Val(s, ptr, st, ignoreeq, word, escaped), s, t, m, ignoreeq)
    ensures Val(t, ptr, st, ignoreeq, word, escaped) == Val(s, ptr, st, ignoreeq, word, escaped)
    decreases m - ptr
  {
    if ptr == m {
      ValErrorPlace(s, ptr, st, ignoreeq, word, escaped);
    } else {
      AgreeAt(s, t, m, ptr);
      ValByPass(s, ptr, st, ignoreeq, word, escaped);
      ValByPass(t, ptr, st, ignoreeq, word, escaped);
      match OnePass(CharAt(s, ptr), ptr, st, ignoreeq, word, escaped)
      case GoOn(st', word', escaped') => ValAgrees(s, t, m, ptr + 1, st', ignoreeq, word', escaped');
      case Return(_) =>
    }
  }

  ghost predicate FailsBefore(r: Result<seq<Pairs>>, m: nat) {
    r.Err? && r.error.SyntaxError? && r.error.pos < m
  }

  /** A syntax error stays whatever text follows the place it is reported at. */
  lemma {:induction false} ParseAgrees(s: string, t: string, m: nat, ptr: nat, st: ParseState, key: string,
                                       pairs: seq<Pairs>)
    requires Agree(s, t, m) && ptr <= m && FailsBefore(Parse(s, ptr, st, key, pairs), m)
    ensures Parse(t, ptr, st, key, pairs) == Parse(s, ptr, st, key, pairs)
    decreases m - ptr
  {
    ParseErrorPlace(s, ptr, st, key, pairs);
    AgreeAt(s, t, m, ptr);
    if st == WKey || st == WVal {
      WordAgrees(s, t, m, ptr, st == WVal, key, pairs);
    } else {
      var c := CharAt(s, ptr);
      if c == Awaited(st) {
        ParseAgrees(s, t, m, ptr + 1, Next(st), if st == WDel then [] else key, pairs);
      } else if st != WGt && IsSpace(c) {
        ParseAgrees(s, t, m, ptr + 1, st, key, pairs);
      }
    }
  }

  function Awaited(st: ParseState): char { if st == WEq then '=' else if st == WGt then '>' else ',' }

  lemma {:induction false} WordAgrees(s: string, t: string, m: nat, ptr: nat, value: bool, key: string,
                                      pairs: seq<Pairs>)
    requires Agree(s, t, m) && ptr < m
    requires FailsBefore(Parse(s, ptr, if value then WVal else WKey, key, pairs), m)
    ensures var st := if value then WVal else WKey; Parse(t, ptr, st, key, pairs) == Parse(s, ptr, st, key, pairs)
    decreases m - ptr, 0
  {
    var v := Val(s, ptr, WaitVal, value, [], false);
    if v.Ok? && v.value.found && |v.value.word| <= MAX_LEN {
      var w := v.value;
      var k, more := if value then [] else w.word, if value then pairs + [PairOf(key, w)] else pairs;
      ParseErrorPlace(s, w.ptr + 1, if value then WDel else WEq, k, more);
      ValAgrees(s, t, m, ptr, WaitVal, value, [], false);
      ParseAgrees(s, t, m, w.ptr + 1, if value then WDel else WEq, k, more);
    } else if v.Err? {
      ValAgrees(s, t, m, ptr, WaitVal, value, [], false);
    }
  }

  // ----- what would have been accepted -----

  /** What a text broken off in this state may go on with. */
  function Rest(st: ParseState): string { if st == WEq then "=>x" else if st == WGt then ">x" else "" }

  /** The shortest value. */
  lemma ValueX(t: string, ptr: nat, key: string, pairs: seq<Pairs>)
    requires ptr + 1 == |t| && t[ptr] == 'x'
    ensures Parse(t, ptr, WVal, key, pairs).Ok?
  {
    assert Val(t, ptr, WaitVal, true, [], false) == Val(t, ptr + 1, InVal, true, [] + ['x'], false);
    assert Parse(t, ptr + 1, WDel, [], pairs + [PairOf(key, Scan(true, ['x'], false, ptr))]).Ok?;
  }

  lemma RestParses(s: string, st: ParseState, key: string, pairs: seq<Pairs>)
    requires st != WVal && st != WKey
    ensures Parse(s + Rest(st), |s|, st, key, pairs).Ok?
  {
    var t := s + Rest(st);
    if st == WEq {
      assert t[|s|] == '=' && t[|s|+1] == '>';
      ValueX(t, |s| + 2, key, pairs);
      assert Parse(t, |s|, WEq, key, pairs) == Parse(t, |s| + 1, WGt, key, pairs);
    } else if st == WGt {
      assert t[|s|] == '>';
      ValueX(t, |s| + 1, key, pairs);
    }
  }

  /** Only white space comes before an equal sign that stands where a key is expected. */
  lemma {:induction false} NoKeyBefore(s: string, t: string, ptr: nat)
    requires Agree(s, t, |t|) && ptr <= |t|
    requires var r := Val(s, ptr, WaitVal, false, [], false); r.Err? && r.error.SyntaxError? && r.error.pos == |t|
    ensures var r := Val(t, ptr, WaitVal, false, [], false); r.Ok? && !r.value.found
    decreases |t| - ptr
  {
    ValByPass(s, ptr, WaitVal, false, [], false);
    ValByPass(t, ptr, WaitVal, false, [], false);
    if ptr < |t| {
      AgreeAt(s, t, |t|, ptr);
      match OnePass(CharAt(s, ptr), ptr, WaitVal, false, [], false)
      case GoOn(st, word, escaped) =>
        ValErrorPlace(s, ptr + 1, st, false, word, escaped);
        NoKeyBefore(s, t, ptr + 1);
      case Return(_) =>
    }
  }

  ghost predicate FailsAt(r: Result<seq<Pairs>>, pos: nat) { r.Err? && r.error.SyntaxError? && r.error.pos == pos }

  /** No error is reported at the character a state waits for. */
  lemma NotAwaited(s: string, pos: nat, st: ParseState, key: string, pairs: seq<Pairs>)
    requires pos <= |s| && st in [WEq, WGt, WDel] && FailsAt(Parse(s, pos, st, key, pairs), pos)
    ensures CharAt(s, pos) !in {NUL, Awaited(st)}
  {
    if CharAt(s, pos) == Awaited(st) {
      ParseErrorPlace(s, pos + 1, Next(st), if st == WDel then [] else key, pairs);
    }
  }

  /** Before the place of a syntax error the text could have ended, or gone on with an arrow and a value. */
  lemma {:induction false} ParseMended(s: string, pos: nat, ptr: nat, st: ParseState, key: string, pairs: seq<Pairs>)
    returns (v: string)
    requires pos <= |s| && ptr <= pos && FailsAt(Parse(s, ptr, st, key, pairs), pos)
    ensures Parse(s[..pos] + v, ptr, st, key, pairs).Ok?
    decreases pos - ptr, 1
  {
    if st == WKey || st == WVal {
      v := WordMended(s, pos, ptr, st == WVal, key, pairs);
    } else {
      var c := CharAt(s, ptr);
      var next, k := Next(st), if st == WDel then [] else key;
      if c == Awaited(st) {
        ParseErrorPlace(s, ptr + 1, next, k, pairs);
        v := ParseMended(s, pos, ptr + 1, next, k, pairs);
        AgreeAt(s, s[..pos] + v, pos, ptr);
      } else if st != WGt && IsSpace(c) {
        ParseErrorPlace(s, ptr + 1, st, key, pairs);
        v := ParseMended(s, pos, ptr + 1, st, key, pairs);
        AgreeAt(s, s[..pos] + v, pos, ptr);
      } else {
        v := Rest(st);
        RestParses(s[..pos], st, key, pairs);
      }
    }
  }

  lemma {:induction false} WordMended(s: string, pos: nat, ptr: nat, value: bool, key: string, pairs: seq<Pairs>)
    returns (v: string)
    requires pos <= |s| && ptr <= pos && FailsAt(Parse(s, ptr, if value then WVal else WKey, key, pairs), pos)
    ensures Parse(s[..pos] + v, ptr, if value then WVal else WKey, key, pairs).Ok?
    decreases pos - ptr, 0
  {
    v := "";
    assert s[..pos] + v == s[..pos];
    var r := Val(s, ptr, WaitVal, value, [], false);
    ValErrorPlace(s, ptr, WaitVal, value, [], false);
    if r.Err? {
      NoKeyBefore(s, s[..pos], ptr);
    } else {
      var w, next := r.value, if value then WDel else WEq;
      var k, more := if value then [] else w.word, if value then pairs + [PairOf(key, w)] else pairs;
      ParseErrorPlace(s, w.ptr + 1, next, k, more);
      v := ParseMended(s, pos, w.ptr + 1, next, k, more);
      if w.ptr + 1 == pos { NotAwaited(s, pos, next, k, more); }
      ValAgrees(s, s[..pos] + v, pos, ptr, WaitVal, value, [], false);
    }
  }

  // ----- texts that end too early -----

  ghost predicate NoNul(s: string) { NUL !in s }

  lemma NotNul(s: string, i: nat)
    requires NoNul(s) && i < |s|
    ensures CharAt(s, i) != NUL
  {
    assert s[i] in s;
  }

  /** What ends a word that has been begun. */
  function WordEnd(st: ValState): string {
    if st == InEscVal then "\"" else if st == WaitEscIn then "a" else if st == WaitEscEscIn then "a\"" else ""
  }

  lemma WordEnds(s: string, st: ValState, ignoreeq: bool, word: string, escaped: bool, w: string)
    requires st != WaitVal && st != InVal && s != [] && (w != [] ==> w[0] == Delimiter(ignoreeq))
    ensures var r := Val(s + WordEnd(st) + w, |s|, st, ignoreeq, word, escaped);
      r.Ok? && r.value.found && r.value.ptr + 1 == |s| + |WordEnd(st)|
  {
    var t, n := s + WordEnd(st) + w, |s|;
    assert t[n] == WordEnd(st)[0];
    ValByPass(t, n, st, ignoreeq, word, escaped);
    if st == WaitEscIn {
      assert w != [] ==> t[n+1] == w[0];
      ValByPass(t, n + 1, InVal, ignoreeq, word + ['a'], escaped);
    } else if st == WaitEscEscIn {
      assert t[n+1] == WordEnd(st)[1];
      ValByPass(t, n + 1, InEscVal, ignoreeq, word + ['a'], escaped);
    }
  }

  /** A word broken off can be ended. */
  lemma {:induction false} ValMended(s: string, ptr: nat, st: ValState, ignoreeq: bool, word: string, escaped: bool,
                                     w: string) returns (v: string)
    requires NoNul(s) && ptr <= |s| && (st != WaitVal ==> ptr > 0) && (w != [] ==> w[0] == Delimiter(ignoreeq))
    requires Val(s, ptr, st, ignoreeq, word, escaped) == Err(UnexpectedEnd)
    ensures var r := Val(s + v + w, ptr, st, ignoreeq, word, escaped);
      r.Ok? && r.value.found && r.value.ptr + 1 == |s| + |v|
    decreases |s| - ptr
  {
    v := WordEnd(st);
    ValByPass(s, ptr, st, ignoreeq, word, escaped);
    if ptr == |s| {
      WordEnds(s, st, ignoreeq, word, escaped, w);
    } else {
      NotNul(s, ptr);
      match OnePass(CharAt(s, ptr), ptr, st, ignoreeq, word, escaped)
      case GoOn(st', word', escaped') =>
        v := ValMended(s, ptr + 1, st', ignoreeq, word', escaped', w);
        var t := s + v + w;
        assert t[..|s|] == s[..|s|];
        AgreeAt(s, t, |s|, ptr);
        ValByPass(t, ptr, st, ignoreeq, word, escaped);
      case Return(_) =>
    }
  }

  /** White space up to the end is passed over. */
  lemma {:induction false} NoWordBefore(s: string, t: string, ptr: nat, ignoreeq: bool)
    requires NoNul(s) && Agree(s, t, |s|) && ptr <= |s|
    requires var r := Val(s, ptr, WaitVal, ignoreeq, [], false); r.Ok? && !r.value.found
    ensures Val(t, ptr, WaitVal, ignoreeq, [], false) == Val(t, |s|, WaitVal, ignoreeq, [], false)
    decreases |s| - ptr
  {
    if ptr < |s| {
      NotNul(s, ptr);
      AgreeAt(s, t, |s|, ptr);
      ValByPass(s, ptr, WaitVal, ignoreeq, [], false);
      ValByPass(t, ptr, WaitVal, ignoreeq, [], false);
      match OnePass(CharAt(s, ptr), ptr, WaitVal, ignoreeq, [], false)
      case GoOn(st, word, escaped) =>
        InsideFinds(s, ptr + 1, st, ignoreeq, word, escaped);
        NoWordBefore(s, t, ptr + 1, ignoreeq);
      case Return(_) =>
    }
  }

  /** Once a word has been begun the scanner finds one. */
  lemma {:induction false} InsideFinds(s: string, ptr: nat, st: ValState, ignoreeq: bool, word: string, escaped: bool)
    requires ptr <= |s| && (st != WaitVal ==> ptr > 0)
    ensures var r := Val(s, ptr, st, ignoreeq, word, escaped); r.Ok? && !r.value.found ==> st == WaitVal
    decreases |s| - ptr
  {
    ValByPass(s, ptr, st, ignoreeq, word, escaped);
    match OnePass(CharAt(s, ptr), ptr, st, ignoreeq, word, escaped)
    case GoOn(st', word', escaped') => InsideFinds(s, ptr + 1, st', ignoreeq, word', escaped');
    case Return(_) =>
  }

  /** Accepted, if not for the length of a word. */
  ghost predicate Mended(r: Result<seq<Pairs>>) { r.Ok? || r.error.TooLong? }

  /** A text that ends unexpectedly can be completed. */
  lemma {:induction false} EndMended(s: string, ptr: nat, st: ParseState, key: string, pairs: seq<Pairs>)
    returns (v: string)
    requires NoNul(s) && ptr <= |s| && Parse(s, ptr, st, key, pairs) == Err(UnexpectedEnd)
    ensures Mended(Parse(s + v, ptr, st, key, pairs))
    ensures ptr == |s| && st == WEq ==> v == Rest(WEq)
    decreases |s| - ptr, 1
  {
    if st == WKey || st == WVal {
      v := WordEndMended(s, ptr, st == WVal, key, pairs);
    } else {
      var c := CharAt(s, ptr);
      var next, k := Next(st), if st == WDel then [] else key;
      if c == Awaited(st) {
        v := EndMended(s, ptr + 1, next, k, pairs);
        AgreeAt(s, s + v, |s|, ptr);
      } else if st != WGt && IsSpace(c) {
        v := EndMended(s, ptr + 1, st, key, pairs);
        AgreeAt(s, s + v, |s|, ptr);
      } else {
        if ptr < |s| { NotNul(s, ptr); }
        v := Rest(st);
        RestParses(s, st, key, pairs);
      }
    }
  }

  lemma {:induction false} WordEndMended(s: string, ptr: nat, value: bool, key: string, pairs: seq<Pairs>)
    returns (v: string)
    requires NoNul(s) && ptr <= |s| && Parse(s, ptr, if value then WVal else WKey, key, pairs) == Err(UnexpectedEnd)
    ensures Mended(Parse(s + v, ptr, if value then WVal else WKey, key, pairs))
    decreases |s| - ptr, 0
  {
    var next := if value then WDel else WEq;
    var r := Val(s, ptr, WaitVal, value, [], false);
    if r.Err? {
      var u := ValMended(s, ptr, WaitVal, value, [], false, Rest(next));
      v := u + Rest(next);
      BrokenWord(s, u, ptr, value, key, pairs);
    } else if !r.value.found {
      v := "x";
      NoWordBefore(s, s + v, ptr, value);
      ValueX(s + v, |s|, key, pairs);
    } else {
      var w := r.value;
      var k, more := if value then [] else w.word, if value then pairs + [PairOf(key, w)] else pairs;
      v := EndMended(s, w.ptr + 1, next, k, more);
      ValAgrees(s, s + v, |s|, ptr, WaitVal, value, [], false);
    }
  }

  lemma BrokenWord(s: string, u: string, ptr: nat, value: bool, key: string, pairs: seq<Pairs>)
    requires var t := s + u + Rest(if value then WDel else WEq);
      && ptr <= |s|
      && var r := Val(t, ptr, WaitVal, value, [], false); r.Ok? && r.value.found && r.value.ptr + 1 == |s| + |u|
    ensures Mended(Parse(s + (u + Rest(if value then WDel else WEq)), ptr, if value then WVal else WKey, key, pairs))
  {
    var next := if value then WDel else WEq;
    var t := s + u + Rest(next);
    assert t == s + (u + Rest(next));
    var w := Val(t, ptr, WaitVal, value, [], false).value;
    var k, more := if value then [] else w.word, if value then pairs + [PairOf(key, w)] else pairs;
    RestParses(s + u, next, k, more);
  }

  // ----- words that are too long -----

  lemma {:induction false} ValLength(s: string, ptr: nat, st: ValState, ignoreeq: bool, word: string, escaped: bool)
    requires ptr <= |s| && (st != WaitVal ==> ptr > 0)
    ensures var r := Val(s, ptr, st, ignoreeq, word, escaped); r.Ok? ==> |r.value.word| <= |word| + |s| - ptr
    decreases |s| - ptr
  {
    ValByPass(s, ptr, st, ignoreeq, word, escaped);
    match OnePass(CharAt(s, ptr), ptr, st, ignoreeq, word, escaped)
    case GoOn(st', word', escaped') => ValLength(s, ptr + 1, st', ignoreeq, word', escaped');
    case Return(_) =>
  }

  lemma {:induction false} ParseTooLong(s: string, ptr: nat, st: ParseState, key: string, pairs: seq<Pairs>)
    requires ptr <= |s| && Parse(s, ptr, st, key, pairs) == Err(TooLong)
    ensures |s| > MAX_LEN
    decreases |s| - ptr
  {
    if st == WKey || st == WVal {
      ValLength(s, ptr, WaitVal, st == WVal, [], false);
      NoTooLong(s, ptr, WaitVal, st == WVal, [], false);
      var w := Val(s, ptr, WaitVal, st == WVal, [], false).value;
      if |w.word| <= MAX_LEN {
        if st == WKey {
          ParseTooLong(s, w.ptr + 1, WEq, w.word, pairs);
        } else {
          ParseTooLong(s, w.ptr + 1, WDel, [], pairs + [PairOf(key, w)]);
        }
      }
    } else if CharAt(s, ptr) == Awaited(st) {
      ParseTooLong(s, ptr + 1, Next(st), if st == WDel then [] else key, pairs);
    } else {
      ParseTooLong(s, ptr + 1, st, key, pairs);
    }
  }

  lemma {:induction false} NoTooLong(s: string, ptr: nat, st: ValState, ignoreeq: bool, word: string, escaped: bool)
    requires ptr <= |s| && (st != WaitVal ==> ptr > 0)
    ensures Val(s, ptr, st, ignoreeq, word, escaped) != Err(TooLong)
    decreases |s| - ptr
  {
    ValByPass(s, ptr, st, ignoreeq, word, escaped);
    match OnePass(CharAt(s, ptr), ptr, st, ignoreeq, word, escaped)
    case GoOn(st', word', escaped') => NoTooLong(s, ptr + 1, st', ignoreeq, word', escaped');
    case Return(_) =>
  }

  // ----- nothing behind a zero byte is read -----

  ghost predicate CutAtNul(s: string, t: string) { t <= s && NoNul(t) && CharAt(s, |t|) == NUL }

  lemma SameChar(s: string, t: string, ptr: nat)
    requires CutAtNul(s, t) && ptr <= |t|
    ensures CharAt(s, ptr) == CharAt(t, ptr)
  {
  }

  lemma {:induction false} ValOfCString(s: string, t: string, ptr: nat, st: ValState, ignoreeq: bool, word: string,
                                        escaped: bool)
    requires CutAtNul(s, t) && ptr <= |t| && (st != WaitVal ==> ptr > 0)
    ensures Val(t, ptr, st, ignoreeq, word, escaped) == Val(s, ptr, st, ignoreeq, word, escaped)
    decreases |t| - ptr
  {
    SameChar(s, t, ptr);
    ValByPass(s, ptr, st, ignoreeq, word, escaped);
    ValByPass(t, ptr, st, ignoreeq, word, escaped);
    match OnePass(CharAt(s, ptr), ptr, st, ignoreeq, word, escaped)
    case GoOn(st', word', escaped') => ValOfCString(s, t, ptr + 1, st', ignoreeq, word', escaped');
    case Return(_) =>
  }

  lemma {:induction false} ParseOfCString(s: string, t: string, ptr: nat, st: ParseState, key: string,
                                          pairs: seq<Pairs>)
    requires CutAtNul(s, t) && ptr <= |t|
    ensures Parse(t, ptr, st, key, pairs) == Parse(s, ptr, st, key, pairs)
    decreases |t| - ptr
  {
    if st == WKey || st == WVal {
      ValOfCString(s, t, ptr, WaitVal, st == WVal, [], false);
      var r := Val(t, ptr, WaitVal, st == WVal, [], false);
      if r.Ok? && r.value.found {
        if st == WKey {
          ParseOfCString(s, t, r.value.ptr + 1, WEq, r.value.word, pairs);
        } else {
          ParseOfCString(s, t, r.value.ptr + 1, WDel, [], pairs + [PairOf(key, r.value)]);
        }
      }
    } else {
      SameChar(s, t, ptr);
      if ptr < |t| {
        ParseOfCString(s, t, ptr + 1, Next(st), if st == WDel then [] else key, pairs);
        ParseOfCString(s, t, ptr + 1, st, key, pairs);
      }
    }
  }

  // ----- the three errors -----

  /**
   A syntax error stands at the first character no list can go on with: nothing that begins
   with the text up to and with this character is a list, and something that begins with the
   text before it is one.
   */
  lemma SyntaxErrorMeans(text: string, c: char, pos: nat)
    requires Parse(text, 0, WKey, [], []) == Err(SyntaxError(c, pos))
    ensures pos < |text| && text[pos] == c
    ensures forall other :: Agree(text, other, pos + 1) ==> !IsListed(other)
    ensures exists v :: IsListed(text[..pos] + v)
  {
    ParseErrorPlace(text, 0, WKey, [], []);
    forall other | Agree(text, other, pos + 1) ensures !IsListed(other) {
      ParseAgrees(text, other, pos + 1, 0, WKey, [], []);
      AcceptedIffListed(other);
    }
    var v := ParseMended(text, pos, 0, WKey, [], []);
    AcceptedIffListed(text[..pos] + v);
  }

  /** An unexpected end: with more characters the text is a list, or has a word that is too long. */
  lemma UnexpectedEndMeans(text: string)
    requires Parse(text, 0, WKey, [], []) == Err(UnexpectedEnd)
    ensures !IsListed(text)
    ensures exists v :: IsListed(CString(text) + v) || Parse(CString(text) + v, 0, WKey, [], []) == Err(TooLong)
  {
    AcceptedIffListed(text);
    var t := CString(text);
    CStringTail(text, 0);
    assert text[0..] == text;
    ParseOfCString(text, t, 0, WKey, [], []);
    var v := EndMended(t, 0, WKey, [], []);
    AcceptedIffListed(t + v);
  }

  /** No word of a shorter text is too long. */
  lemma TooLongMeans(text: string)
    requires Parse(text, 0, WKey, [], []) == Err(TooLong)
    ensures !IsListed(text) && |text| > 0x3fff_ffff
  {
    AcceptedIffListed(text);
    ParseTooLong(text, 0, WKey, [], []);
  }
}
