/**
 What an hstore text is, said of its characters: words with or without quotes, arrows,
 commas and white space.  A text that spells a list of pairs is parsed to that list, and
 every text that is parsed spells its result.
 */
module HStoreGrammar {
  import opened HStorePairs
  import opened HStoreUnique
  import opened HStoreText

  // ----- words -----

  datatype Style = KeyWord | ValueWord | QuotedWord

  ghost predicate Spaces(s: string) { forall i :: 0 <= i < |s| ==> IsSpace(s[i]) }

  /** c may stand for itself inside a word of this style. */
  predicate Plain(c: char, style: Style) {
    && c != '\\'
    && match style
       case KeyWord => !IsSpace(c) && c != '='
       case ValueWord => !IsSpace(c) && c != ','
       case QuotedWord => c != '"'
  }

  /** u is w with backslashes in front of some characters, of all those that need one at least. */
  ghost predicate Coded(w: string, u: string, style: Style) {
    if w == [] then u == []
    else
      || (u != [] && u[0] == w[0] && Plain(w[0], style) && Coded(w[1..], u[1..], style))
      || (|u| >= 2 && u[0] == '\\' && u[1] == w[0] && Coded(w[1..], u[2..], style))
  }

  /** In quotes. */
  ghost predicate InQuotes(w: string, u: string) {
    |u| >= 2 && u[0] == '"' && u[|u|-1] == '"' && Coded(w, u[1..|u|-1], QuotedWord)
  }

  /** Without quotes; a value may even begin with a comma. */
  ghost predicate Bare(w: string, u: string, style: Style) {
    && w != [] && u != [] && u[0] != '"'
    && (Coded(w, u, style) || (style == ValueWord && u[0] == w[0] == ',' && Coded(w[1..], u[1..], style)))
  }

  ghost predicate KeySpelled(k: string, u: string) {
    |k| <= 0x3fff_ffff && (InQuotes(k, u) || Bare(k, u, KeyWord))
  }

  function Lower(c: char): char { if 'A' <= c <= 'Z' then c - 'A' + 'a' else c }

  /** "null" in letters of any case. */
  predicate IsNull(w: string) {
    |w| == 4 && Lower(w[0]) == 'n' && Lower(w[1]) == 'u' && Lower(w[2]) == 'l' && Lower(w[3]) == 'l'
  }

  /** Null is the bare word null only; in quotes it is a string like any other. */
  ghost predicate ValueSpelled(v: Option<string>, u: string) {
    match v
    case None => exists w :: IsNull(w) && Bare(w, u, ValueWord)
    case Some(w) => |w| <= 0x3fff_ffff && (InQuotes(w, u) || (Bare(w, u, ValueWord) && !IsNull(w)))
  }

  // ----- texts -----

  /** t is white space, the word and what is left. */
  ghost predicate Split(t: string, b: string, u: string, rest: string) { t == b + u + rest && Spaces(b) }

  /** A list of pairs, from the first key on. */
  ghost predicate Listed(t: string, ps: seq<Pairs>)
    decreases |ps|, 3
  {
    if ps == [] then Spaces(t)
    else exists b, u, rest :: Split(t, b, u, rest) && KeySpelled(ps[0].key, u) && FromArrow(rest, ps)
  }

  ghost predicate FromArrow(t: string, ps: seq<Pairs>)
    requires ps != []
    decreases |ps|, 2
  {
    exists b, rest :: Split(t, b, "=>", rest) && FromValue(rest, ps)
  }

  ghost predicate FromValue(t: string, ps: seq<Pairs>)
    requires ps != []
    decreases |ps|, 1
  {
    && ps[0].needfree
    && exists b, u, rest :: Split(t, b, u, rest) && ValueSpelled(ps[0].val, u) && FromComma(rest, ps[1..])
  }

  /** After a value: nothing more, or a comma and further pairs, if any. */
  ghost predicate FromComma(t: string, ps: seq<Pairs>)
    decreases |ps|, 4
  {
    || (ps == [] && Spaces(t))
    || exists b, rest :: Split(t, b, ",", rest) && Listed(rest, ps)
  }

  // ----- the rest of the C string -----

  /** t is what is left of the text at ptr, up to its end or its first zero byte. */
  ghost predicate Tail(s: string, ptr: nat, t: string) {
    && ptr + |t| <= |s| && s[ptr..ptr+|t|] == t && NUL !in t && CharAt(s, ptr + |t|) == NUL
  }

  lemma TailChar(s: string, ptr: nat, t: string)
    requires Tail(s, ptr, t)
    ensures t == [] ==> CharAt(s, ptr) == NUL
    ensures t != [] ==> ptr < |s| && CharAt(s, ptr) == t[0] != NUL && Tail(s, ptr + 1, t[1..])
  {
    if t != [] {
      assert s[ptr..ptr+|t|][0] == s[ptr] && t[0] in t;
      assert s[ptr+1..ptr+1+|t[1..]|] == s[ptr..ptr+|t|][1..];
    }
  }

  lemma {:induction false} TailDrop(s: string, ptr: nat, u: string, rest: string)
    requires Tail(s, ptr, u + rest)
    ensures Tail(s, ptr + |u|, rest)
    decreases |u|
  {
    var t := u + rest;
    if u == [] {
      assert t == rest;
    } else {
      TailChar(s, ptr, t);
      assert t[1..] == u[1..] + rest;
      TailDrop(s, ptr + 1, u[1..], rest);
    }
  }

  /** The whole text, as a C string. */
  function CString(s: string): (t: string)
    ensures t <= s
  {
    if s == [] || s[0] == NUL then [] else [s[0]] + CString(s[1..])
  }

  lemma {:induction false} CStringTail(s: string, ptr: nat)
    requires ptr <= |s|
    ensures Tail(s, ptr, CString(s[ptr..]))
    decreases |s| - ptr
  {
    if ptr < |s| && s[ptr] != NUL {
      CStringTail(s, ptr + 1);
      var t, u := CString(s[ptr..]), CString(s[ptr+1..]);
      assert s[ptr..][1..] == s[ptr+1..] && t == [s[ptr]] + u;
      assert s[ptr..ptr+|t|] == [s[ptr]] + s[ptr+1..ptr+1+|u|];
    }
  }

  // ----- what is spelled is parsed -----

  function StyleOf(ignoreeq: bool): Style { if ignoreeq then ValueWord else KeyWord }

  lemma {:induction false} SkipToWord(s: string, ptr: nat, b: string, t: string, ignoreeq: bool)
    requires Tail(s, ptr, b + t) && Spaces(b)
    ensures Val(s, ptr, WaitVal, ignoreeq, [], false) == Val(s, ptr + |b|, WaitVal, ignoreeq, [], false)
    decreases |b|
  {
    if b != [] {
      TailChar(s, ptr, b + t);
      assert (b + t)[0] == b[0] && (b + t)[1..] == b[1..] + t;
      SkipToWord(s, ptr + 1, b[1..], t, ignoreeq);
    }
  }

  lemma EscapeScan(s: string, ptr: nat, t: string, ignoreeq: bool, word: string)
    requires Tail(s, ptr, t) && |t| >= 2 && t[0] == '\\'
    ensures Tail(s, ptr + 2, t[2..])
    ensures ptr > 0 ==>
      && Val(s, ptr, InVal, ignoreeq, word, false) == Val(s, ptr + 2, InVal, ignoreeq, word + [t[1]], false)
      && Val(s, ptr, InEscVal, ignoreeq, word, true) == Val(s, ptr + 2, InEscVal, ignoreeq, word + [t[1]], true)
    ensures Val(s, ptr, WaitVal, ignoreeq, word, false) == Val(s, ptr + 2, InVal, ignoreeq, word + [t[1]], false)
  {
    TailChar(s, ptr, t);
    TailChar(s, ptr + 1, t[1..]);
    assert t[1..][1..] == t[2..];
    if ptr > 0 {
      assert Val(s, ptr, InVal, ignoreeq, word, false) == Val(s, ptr + 1, WaitEscIn, ignoreeq, word, false);
      assert Val(s, ptr, InEscVal, ignoreeq, word, true) == Val(s, ptr + 1, WaitEscEscIn, ignoreeq, word, true);
    }
    assert Val(s, ptr, WaitVal, ignoreeq, word, false) == Val(s, ptr + 1, WaitEscIn, ignoreeq, word, false);
  }

  /** The first character of a coded word takes one place, or two with a backslash. */
  lemma FirstUnit(w: string, u: string, style: Style) returns (n: nat)
    requires w != [] && Coded(w, u, style)
    ensures n <= |u| && Coded(w[1..], u[n..], style)
    ensures (n == 1 && u[0] == w[0] && Plain(w[0], style)) || (n == 2 && u[0] == '\\' && u[1] == w[0])
  {
    n := if u[0] == w[0] && Plain(w[0], style) && Coded(w[1..], u[1..], style) then 1 else 2;
  }

  lemma DropUnit(u: string, rest: string, n: nat)
    requires n <= |u|
    ensures (u + rest)[n..] == u[n..] + rest && forall i :: 0 <= i < n ==> (u + rest)[i] == u[i]
  {
  }

  /** The scanner state inside a word. */
  function Inside(style: Style): ValState { if style.QuotedWord? then InEscVal else InVal }

  /** Inside a word the scanner reads what is coded. */
  lemma {:induction false} CodedScan(s: string, ptr: nat, u: string, rest: string, w: string, style: Style,
                                     ignoreeq: bool, word: string)
    requires ptr > 0 && Tail(s, ptr, u + rest) && Coded(w, u, style)
    requires style.QuotedWord? || style == StyleOf(ignoreeq)
    ensures Val(s, ptr, Inside(style), ignoreeq, word, style.QuotedWord?)
         == Val(s, ptr + |u|, Inside(style), ignoreeq, word + w, style.QuotedWord?)
    decreases |u|
  {
    if w == [] {
      assert word + w == word;
    } else {
      var n := FirstUnit(w, u, style);
      UnitScan(s, ptr, u, rest, n, style, ignoreeq, word);
      CodedScan(s, ptr + n, u[n..], rest, w[1..], style, ignoreeq, word + [w[0]]);
      assert word + [w[0]] + w[1..] == word + w;
    }
  }

  lemma UnitScan(s: string, ptr: nat, u: string, rest: string, n: nat, style: Style, ignoreeq: bool, word: string)
    requires ptr > 0 && Tail(s, ptr, u + rest) && (style.QuotedWord? || style == StyleOf(ignoreeq))
    requires n <= |u| && IsUnit(u, n, style)
    ensures Tail(s, ptr + n, u[n..] + rest)
    ensures Val(s, ptr, Inside(style), ignoreeq, word, style.QuotedWord?)
         == Val(s, ptr + n, Inside(style), ignoreeq, word + [u[n-1]], style.QuotedWord?)
  {
    DropUnit(u, rest, n);
    UnitStep(s, ptr, u + rest, n, style, ignoreeq, word);
  }

  /** The first n characters stand for one. */
  ghost predicate IsUnit(t: string, n: nat, style: Style) {
    (n == 1 <= |t| && Plain(t[0], style)) || (n == 2 <= |t| && t[0] == '\\')
  }

  lemma UnitStep(s: string, ptr: nat, t: string, n: nat, style: Style, ignoreeq: bool, word: string)
    requires ptr > 0 && Tail(s, ptr, t) && (style.QuotedWord? || style == StyleOf(ignoreeq)) && IsUnit(t, n, style)
    ensures Tail(s, ptr + n, t[n..])
    ensures Val(s, ptr, Inside(style), ignoreeq, word, style.QuotedWord?)
         == Val(s, ptr + n, Inside(style), ignoreeq, word + [t[n-1]], style.QuotedWord?)
  {
    TailChar(s, ptr, t);
    if n == 2 { EscapeScan(s, ptr, t, ignoreeq, word); }
  }

  /** What ends a bare word. */
  predicate Stops(rest: string, ignoreeq: bool) {
    rest == [] || IsSpace(rest[0]) || rest[0] == if ignoreeq then ',' else '='
  }

  /** Where the parser goes on behind a word: a white space that ends a bare word is used up. */
  function After(rest: string, quoted: bool): nat {
    if !quoted && rest != [] && IsSpace(rest[0]) then 1 else 0
  }

  lemma BareEnd(s: string, ptr: nat, rest: string, ignoreeq: bool, word: string)
    requires ptr > 0 && Tail(s, ptr, rest) && Stops(rest, ignoreeq)
    ensures Val(s, ptr, InVal, ignoreeq, word, false) == Ok(Scan(true, word, false, ptr + After(rest, false) - 1))
  {
    TailChar(s, ptr, rest);
  }

  lemma BareFirst(s: string, ptr: nat, u: string, rest: string, w: string, ignoreeq: bool) returns (n: nat)
    requires Tail(s, ptr, u + rest) && Bare(w, u, StyleOf(ignoreeq))
    ensures 0 < n <= |u| && Coded(w[1..], u[n..], StyleOf(ignoreeq)) && Tail(s, ptr + n, u[n..] + rest)
    ensures Val(s, ptr, WaitVal, ignoreeq, [], false) == Val(s, ptr + n, InVal, ignoreeq, [w[0]], false)
  {
    if Coded(w, u, StyleOf(ignoreeq)) { n := FirstUnit(w, u, StyleOf(ignoreeq)); } else { n := 1; }
    DropUnit(u, rest, n);
    TailChar(s, ptr, u + rest);
    assert [] + [w[0]] == [w[0]];
    if n == 2 { EscapeScan(s, ptr, u + rest, ignoreeq, []); }
  }

  lemma BareWord(s: string, ptr: nat, u: string, rest: string, w: string, ignoreeq: bool)
    requires Tail(s, ptr, u + rest) && Bare(w, u, StyleOf(ignoreeq)) && Stops(rest, ignoreeq)
    ensures Val(s, ptr, WaitVal, ignoreeq, [], false) == Ok(Scan(true, w, false, ptr + |u| + After(rest, false) - 1))
  {
    var n := BareFirst(s, ptr, u, rest, w, ignoreeq);
    BareTail(s, ptr + n, u[n..], rest, w[1..], ignoreeq, [w[0]]);
    assert [w[0]] + w[1..] == w;
  }

  lemma BareTail(s: string, ptr: nat, v: string, rest: string, w: string, ignoreeq: bool, word: string)
    requires ptr > 0 && Tail(s, ptr, v + rest) && Coded(w, v, StyleOf(ignoreeq)) && Stops(rest, ignoreeq)
    ensures Val(s, ptr, InVal, ignoreeq, word, false)
         == Ok(Scan(true, word + w, false, ptr + |v| + After(rest, false) - 1))
  {
    BareEndAt(s, ptr, v, rest, ignoreeq, word + w);
    BareScan(s, ptr, v, rest, w, ignoreeq, word);
  }

  lemma BareEndAt(s: string, ptr: nat, v: string, rest: string, ignoreeq: bool, word: string)
    requires ptr > 0 && Tail(s, ptr, v + rest) && Stops(rest, ignoreeq)
    ensures ptr + |v| <= |s|
    ensures Val(s, ptr + |v|, InVal, ignoreeq, word, false)
         == Ok(Scan(true, word, false, ptr + |v| + After(rest, false) - 1))
  {
    TailDrop(s, ptr, v, rest);
    BareEnd(s, ptr + |v|, rest, ignoreeq, word);
  }

  lemma BareScan(s: string, ptr: nat, v: string, rest: string, w: string, ignoreeq: bool, word: string)
    requires ptr > 0 && Tail(s, ptr, v + rest) && Coded(w, v, StyleOf(ignoreeq))
    ensures Tail(s, ptr + |v|, rest)
    ensures Val(s, ptr, InVal, ignoreeq, word, false) == Val(s, ptr + |v|, InVal, ignoreeq, word + w, false)
  {
    CodedScan(s, ptr, v, rest, w, StyleOf(ignoreeq), ignoreeq, word);
    TailDrop(s, ptr, v, rest);
  }

  lemma QuotedWordScan(s: string, ptr: nat, u: string, rest: string, w: string, ignoreeq: bool)
    requires Tail(s, ptr, u + rest) && InQuotes(w, u)
    ensures Val(s, ptr, WaitVal, ignoreeq, [], false) == Ok(Scan(true, w, true, ptr + |u| - 1))
  {
    QuoteParts(u, rest);
    TailChar(s, ptr, u + rest);
    QuotedInner(s, ptr + 1, u[1..|u|-1], rest, w, ignoreeq);
  }

  lemma QuotedInner(s: string, ptr: nat, v: string, rest: string, w: string, ignoreeq: bool)
    requires ptr > 0 && Tail(s, ptr, v + (['"'] + rest)) && Coded(w, v, QuotedWord)
    ensures Val(s, ptr, InEscVal, ignoreeq, [], true) == Ok(Scan(true, w, true, ptr + |v|))
  {
    var end := ['"'] + rest;
    CodedScan(s, ptr, v, end, w, QuotedWord, ignoreeq, []);
    assert [] + w == w;
    TailDrop(s, ptr, v, end);
    TailChar(s, ptr + |v|, end);
  }

  lemma QuoteParts(u: string, rest: string)
    requires |u| >= 2 && u[|u|-1] == '"'
    ensures (u + rest)[0] == u[0] && (u + rest)[1..] == u[1..|u|-1] + (['"'] + rest)
  {
  }

  /** w is spelled by u, in quotes or not. */
  ghost predicate WordSpelled(w: string, u: string, style: Style, quoted: bool) {
    if quoted then InQuotes(w, u) else Bare(w, u, style)
  }

  lemma WordHere(s: string, ptr: nat, u: string, rest: string, w: string, ignoreeq: bool, quoted: bool)
    requires Tail(s, ptr, u + rest) && WordSpelled(w, u, StyleOf(ignoreeq), quoted) && Stops(rest, ignoreeq)
    ensures Val(s, ptr, WaitVal, ignoreeq, [], false) == Ok(Scan(true, w, quoted, ptr + |u| + After(rest, quoted) - 1))
  {
    if quoted {
      QuotedWordScan(s, ptr, u, rest, w, ignoreeq);
    } else {
      BareWord(s, ptr, u, rest, w, ignoreeq);
    }
  }

  /** A key or a value with white space in front. */
  lemma WordScan(s: string, ptr: nat, t: string, b: string, u: string, rest: string, w: string, ignoreeq: bool,
                 quoted: bool)
    requires Tail(s, ptr, t) && Split(t, b, u, rest) && Stops(rest, ignoreeq)
    requires WordSpelled(w, u, StyleOf(ignoreeq), quoted)
    ensures Val(s, ptr, WaitVal, ignoreeq, [], false)
         == Ok(Scan(true, w, quoted, ptr + |b| + |u| + After(rest, quoted) - 1))
  {
    assert t == b + (u + rest);
    SkipToWord(s, ptr, b, u + rest, ignoreeq);
    TailDrop(s, ptr, b, u + rest);
    WordHere(s, ptr + |b|, u, rest, w, ignoreeq, quoted);
  }

  // ----- from stage to stage -----

  lemma SplitSpace(t: string, b: string, u: string, rest: string)
    requires Split(t, b, u, rest) && t != [] && IsSpace(t[0]) && u != [] && !IsSpace(u[0])
    ensures b != [] && Split(t[1..], b[1..], u, rest)
  {
    var x := u + rest;
    assert x[0] == u[0] && t == b + x;
    assert t[1..] == b[1..] + u + rest;
  }

  lemma ArrowStops(t: string, ps: seq<Pairs>)
    requires ps != [] && FromArrow(t, ps)
    ensures t != [] && Stops(t, false) && (IsSpace(t[0]) ==> FromArrow(t[1..], ps))
  {
    var b, rest :| Split(t, b, "=>", rest) && FromValue(rest, ps);
    assert t[0] == if b == [] then '=' else b[0];
    if IsSpace(t[0]) { SplitSpace(t, b, "=>", rest); }
  }

  lemma CommaStops(t: string, ps: seq<Pairs>)
    requires FromComma(t, ps)
    ensures Stops(t, true) && (t != [] && IsSpace(t[0]) ==> FromComma(t[1..], ps))
  {
    if !(ps == [] && Spaces(t)) {
      var b, rest :| Split(t, b, ",", rest) && Listed(rest, ps);
      assert t[0] == if b == [] then ',' else b[0];
      if IsSpace(t[0]) { SplitSpace(t, b, ",", rest); }
    }
  }

  lemma {:induction false} ArrowParse(s: string, ptr: nat, b: string, rest: string, key: string, pairs: seq<Pairs>)
    requires Tail(s, ptr, b + "=>" + rest) && Spaces(b)
    ensures Tail(s, ptr + |b| + 2, rest)
    ensures Parse(s, ptr, WEq, key, pairs) == Parse(s, ptr + |b| + 2, WVal, key, pairs)
    decreases |b|
  {
    var t := b + "=>" + rest;
    TailChar(s, ptr, t);
    if b == [] {
      assert t == "=>" + rest && t[1..] == ">" + rest;
      TailChar(s, ptr + 1, t[1..]);
      assert t[1..][1..] == rest;
      assert Parse(s, ptr, WEq, key, pairs) == Parse(s, ptr + 1, WGt, key, pairs);
    } else {
      assert t[0] == b[0] && t[1..] == b[1..] + "=>" + rest;
      ArrowParse(s, ptr + 1, b[1..], rest, key, pairs);
    }
  }

  lemma {:induction false} CommaParse(s: string, ptr: nat, b: string, rest: string, pairs: seq<Pairs>)
    requires Tail(s, ptr, b + "," + rest) && Spaces(b)
    ensures Tail(s, ptr + |b| + 1, rest)
    ensures Parse(s, ptr, WDel, [], pairs) == Parse(s, ptr + |b| + 1, WKey, [], pairs)
    decreases |b|
  {
    var t := b + "," + rest;
    TailChar(s, ptr, t);
    if b == [] {
      assert t == "," + rest && t[1..] == rest;
    } else {
      assert t[0] == b[0] && t[1..] == b[1..] + "," + rest;
      CommaParse(s, ptr + 1, b[1..], rest, pairs);
    }
  }

  lemma {:induction false} SpacesParse(s: string, ptr: nat, t: string, pairs: seq<Pairs>)
    requires Tail(s, ptr, t) && Spaces(t)
    ensures Parse(s, ptr, WDel, [], pairs) == Ok(pairs)
    decreases |t|
  {
    TailChar(s, ptr, t);
    if t != [] { SpacesParse(s, ptr + 1, t[1..], pairs); }
  }

  lemma NullWords(w: string)
    ensures IsNull(w) <==> IsNullWord(w)
  {
  }

  /** The place and the rest of the text behind a word. */
  lemma BehindWord(s: string, ptr: nat, t: string, b: string, u: string, rest: string, quoted: bool)
    requires Tail(s, ptr, t) && Split(t, b, u, rest)
    ensures Tail(s, ptr + |b| + |u| + After(rest, quoted), rest[After(rest, quoted)..])
  {
    assert t == b + (u + rest);
    TailDrop(s, ptr, b, u + rest);
    TailDrop(s, ptr + |b|, u, rest);
    TailChar(s, ptr + |b| + |u|, rest);
    if After(rest, quoted) == 0 { assert rest[0..] == rest; }
  }

  /** What the parser makes of a key, and of a value. */
  lemma TakesKey(s: string, ptr: nat, k: string, pairs: seq<Pairs>)
    requires ptr <= |s|
    ensures var v := Val(s, ptr, WaitVal, false, [], false); var r := Parse(s, ptr, WKey, k, pairs);
      && (v.Ok? && v.value.found && |v.value.word| <= MAX_LEN ==>
          r == Parse(s, v.value.ptr + 1, WEq, v.value.word, pairs))
      && (v.Ok? && !v.value.found ==> r == Ok(pairs))
      && (r.Ok? ==> v.Ok? && (v.value.found ==> |v.value.word| <= MAX_LEN))
  {
  }

  lemma TakesValue(s: string, ptr: nat, key: string, pairs: seq<Pairs>)
    requires ptr <= |s|
    ensures var v := Val(s, ptr, WaitVal, true, [], false); var r := Parse(s, ptr, WVal, key, pairs);
      && (v.Ok? && v.value.found && |v.value.word| <= MAX_LEN ==>
          r == Parse(s, v.value.ptr + 1, WDel, [], pairs + [PairOf(key, v.value)]))
      && (r.Ok? ==> v.Ok? && v.value.found && |v.value.word| <= MAX_LEN)
  {
  }

  lemma KeyRead(s: string, ptr: nat, t: string, b: string, u: string, rest: string, key: string, k: string,
                pairs: seq<Pairs>)
    returns (next: nat, more: string)
    requires Tail(s, ptr, t) && Split(t, b, u, rest) && KeySpelled(key, u) && Stops(rest, false)
    ensures Tail(s, next, more) && (more == rest || (rest != [] && IsSpace(rest[0]) && more == rest[1..]))
    ensures Parse(s, ptr, WKey, k, pairs) == Parse(s, next, WEq, key, pairs)
  {
    var quoted := InQuotes(key, u);
    WordScan(s, ptr, t, b, u, rest, key, false, quoted);
    BehindWord(s, ptr, t, b, u, rest, quoted);
    next, more := ptr + |b| + |u| + After(rest, quoted), rest[After(rest, quoted)..];
  }

  lemma WordOf(v: Option<string>, u: string) returns (w: string, quoted: bool)
    requires ValueSpelled(v, u)
    ensures WordSpelled(w, u, ValueWord, quoted) && |w| <= MAX_LEN
    ensures v == if !quoted && IsNull(w) then None else Some(w)
  {
    match v
    case None => w :| IsNull(w) && Bare(w, u, ValueWord); quoted := false;
    case Some(x) => w, quoted := x, InQuotes(x, u);
  }

  lemma ValueRead(s: string, ptr: nat, t: string, b: string, u: string, rest: string, x: Pairs, pairs: seq<Pairs>)
    returns (next: nat, more: string)
    requires Tail(s, ptr, t) && Split(t, b, u, rest) && ValueSpelled(x.val, u) && x.needfree && Stops(rest, true)
    ensures Tail(s, next, more) && (more == rest || (rest != [] && IsSpace(rest[0]) && more == rest[1..]))
    ensures Parse(s, ptr, WVal, x.key, pairs) == Parse(s, next, WDel, [], pairs + [x])
  {
    var w, quoted := WordOf(x.val, u);
    NullWords(w);
    WordScan(s, ptr, t, b, u, rest, w, true, quoted);
    BehindWord(s, ptr, t, b, u, rest, quoted);
    TakesValue(s, ptr, x.key, pairs);
    next, more := ptr + |b| + |u| + After(rest, quoted), rest[After(rest, quoted)..];
    SamePair(x, w, quoted, next - 1);
  }

  lemma SamePair(x: Pairs, w: string, quoted: bool, ptr: int)
    requires x.needfree && x.val == (if !quoted && IsNullWord(w) then None else Some(w)) && 0 <= ptr
    ensures PairOf(x.key, Scan(true, w, quoted, ptr)) == x
  {
  }

  lemma {:induction false} ListedParses(s: string, ptr: nat, t: string, ps: seq<Pairs>, k: string, pairs: seq<Pairs>)
    requires Tail(s, ptr, t) && Listed(t, ps)
    ensures Parse(s, ptr, WKey, k, pairs) == Ok(pairs + ps)
    decreases |ps|, 3
  {
    if ps == [] {
      assert t + "" == t && pairs + ps == pairs;
      SkipToWord(s, ptr, t, "", false);
    } else {
      var b, u, rest :| Split(t, b, u, rest) && KeySpelled(ps[0].key, u) && FromArrow(rest, ps);
      ArrowStops(rest, ps);
      var next, more := KeyRead(s, ptr, t, b, u, rest, ps[0].key, k, pairs);
      ArrowParses(s, next, more, ps, pairs);
    }
  }

  lemma {:induction false} ArrowParses(s: string, ptr: nat, t: string, ps: seq<Pairs>, pairs: seq<Pairs>)
    requires Tail(s, ptr, t) && ps != [] && FromArrow(t, ps)
    ensures Parse(s, ptr, WEq, ps[0].key, pairs) == Ok(pairs + ps)
    decreases |ps|, 2
  {
    var b, rest :| Split(t, b, "=>", rest) && FromValue(rest, ps);
    ArrowParse(s, ptr, b, rest, ps[0].key, pairs);
    ValueParses(s, ptr + |b| + 2, rest, ps, pairs);
  }

  lemma {:induction false} ValueParses(s: string, ptr: nat, t: string, ps: seq<Pairs>, pairs: seq<Pairs>)
    requires Tail(s, ptr, t) && ps != [] && FromValue(t, ps)
    ensures Parse(s, ptr, WVal, ps[0].key, pairs) == Ok(pairs + ps)
    decreases |ps|, 1
  {
    var b, u, rest :| Split(t, b, u, rest) && ValueSpelled(ps[0].val, u) && FromComma(rest, ps[1..]);
    CommaStops(rest, ps[1..]);
    var next, more := ValueRead(s, ptr, t, b, u, rest, ps[0], pairs);
    if more != rest { assert FromComma(more, ps[1..]); }
    CommaParses(s, next, more, ps[1..], pairs + [ps[0]]);
    HeadTail(pairs, ps);
  }

  lemma HeadTail<T>(a: seq<T>, b: seq<T>)
    requires b != []
    ensures a + [b[0]] + b[1..] == a + b
  {
  }

  lemma {:induction false} CommaParses(s: string, ptr: nat, t: string, ps: seq<Pairs>, pairs: seq<Pairs>)
    requires Tail(s, ptr, t) && FromComma(t, ps)
    ensures Parse(s, ptr, WDel, [], pairs) == Ok(pairs + ps)
    decreases |ps|, 4
  {
    if ps == [] && Spaces(t) {
      SpacesParse(s, ptr, t, pairs);
      assert pairs + ps == pairs;
    } else {
      var b, rest :| Split(t, b, ",", rest) && Listed(rest, ps);
      CommaParse(s, ptr, b, rest, pairs);
      ListedParses(s, ptr + |b| + 1, rest, ps, [], pairs);
    }
  }

  // ----- what is parsed is spelled -----

  /** The scan has read w, coded by u, up to where rest begins. */
  ghost predicate HasRead(r: Scan, ptr: nat, t: string, u: string, w: string, rest: string, style: Style,
                          ignoreeq: bool, word: string) {
    && t == u + rest && Coded(w, u, style) && r.found && r.word == word + w && r.escaped == style.QuotedWord?
    && if style.QuotedWord? then rest != [] && rest[0] == '"' && r.ptr == ptr + |u|
       else Stops(rest, ignoreeq) && r.ptr == ptr + |u| + After(rest, false) - 1
  }

  lemma UnitRead(r: Scan, ptr: nat, t: string, n: nat, u: string, w: string, rest: string, style: Style,
                 ignoreeq: bool, word: string)
    requires IsUnit(t, n, style) && HasRead(r, ptr + n, t[n..], u, w, rest, style, ignoreeq, word + [t[n-1]])
    ensures HasRead(r, ptr, t, t[..n] + u, [t[n-1]] + w, rest, style, ignoreeq, word)
  {
    var u', w' := t[..n] + u, [t[n-1]] + w;
    assert word + [t[n-1]] + w == word + w' && t == t[..n] + t[n..] && t == u' + rest;
    assert w'[1..] == w && u'[n..] == u;
  }

  /** No further character of the word begins here. */
  lemma ScanEnds(s: string, ptr: nat, t: string, style: Style, ignoreeq: bool, word: string)
    requires ptr > 0 && Tail(s, ptr, t) && (style.QuotedWord? || style == StyleOf(ignoreeq))
    requires !IsUnit(t, 1, style) && !IsUnit(t, 2, style)
    ensures var r := Val(s, ptr, Inside(style), ignoreeq, word, style.QuotedWord?);
      r.Ok? ==> HasRead(r.value, ptr, t, [], [], t, style, ignoreeq, word)
  {
    TailChar(s, ptr, t);
    assert word + [] == word && [] + t == t;
    if t != [] && t[0] == '\\' { TailChar(s, ptr + 1, t[1..]); }
  }

  /** A word read to its end has been coded by the text up to there. */
  lemma {:induction false} ScanCoded(s: string, ptr: nat, t: string, style: Style, ignoreeq: bool, word: string)
    returns (u: string, w: string, rest: string)
    requires ptr > 0 && Tail(s, ptr, t) && (style.QuotedWord? || style == StyleOf(ignoreeq))
    ensures var r := Val(s, ptr, Inside(style), ignoreeq, word, style.QuotedWord?);
      r.Ok? ==> HasRead(r.value, ptr, t, u, w, rest, style, ignoreeq, word)
    decreases |t|
  {
    if !IsUnit(t, 1, style) && !IsUnit(t, 2, style) {
      u, w, rest := [], [], t;
      ScanEnds(s, ptr, t, style, ignoreeq, word);
    } else {
      var n := if IsUnit(t, 1, style) then 1 else 2;
      UnitStep(s, ptr, t, n, style, ignoreeq, word);
      var v, x;
      v, x, rest := ScanCoded(s, ptr + n, t[n..], style, ignoreeq, word + [t[n-1]]);
      u, w := t[..n] + v, [t[n-1]] + x;
      var r := Val(s, ptr, Inside(style), ignoreeq, word, style.QuotedWord?);
      if r.Ok? { UnitRead(r.value, ptr, t, n, v, x, rest, style, ignoreeq, word); }
    }
  }

  /** What the scanner has read from the start of a word on: the word, then the rest. */
  ghost predicate WordRead(r: Scan, ptr: nat, t: string, u: string, rest: string, ignoreeq: bool) {
    && t == u + rest && r.found && WordSpelled(r.word, u, StyleOf(ignoreeq), r.escaped)
    && r.ptr + 1 == ptr + |u| + After(rest, r.escaped)
  }

  lemma QuotedRead(s: string, ptr: nat, t: string, ignoreeq: bool) returns (u: string, rest: string)
    requires Tail(s, ptr, t) && t != [] && t[0] == '"'
    ensures var r := Val(s, ptr, WaitVal, ignoreeq, [], false);
      r.Ok? ==> WordRead(r.value, ptr, t, u, rest, ignoreeq)
  {
    TailChar(s, ptr, t);
    var v, w;
    v, w, rest := ScanCoded(s, ptr + 1, t[1..], QuotedWord, ignoreeq, []);
    u := ['"'] + v + ['"'];
    var r := Val(s, ptr, WaitVal, ignoreeq, [], false);
    if r.Ok? {
      assert u[1..|u|-1] == v && [] + w == w;
      assert t == ['"'] + (v + rest) && rest == ['"'] + rest[1..];
      rest := rest[1..];
      assert t == u + rest;
    }
  }

  /** A bare word, from its second character on. */
  lemma BareRest(s: string, ptr: nat, t: string, n: nat, ignoreeq: bool) returns (u: string, rest: string)
    requires Tail(s, ptr, t) && 1 <= n <= |t| && Tail(s, ptr + n, t[n..]) && t[0] != '"'
    requires IsUnit(t, n, StyleOf(ignoreeq)) || (n == 1 && ignoreeq && t[0] == ',')
    ensures var r := Val(s, ptr + n, InVal, ignoreeq, [t[n-1]], false);
      r.Ok? ==> WordRead(r.value, ptr, t, u, rest, ignoreeq) && !r.value.escaped && Stops(rest, ignoreeq)
  {
    var v, w;
    v, w, rest := ScanCoded(s, ptr + n, t[n..], StyleOf(ignoreeq), ignoreeq, [t[n-1]]);
    u := t[..n] + v;
    if Val(s, ptr + n, InVal, ignoreeq, [t[n-1]], false).Ok? { BareParts(t, n, v, w, rest, StyleOf(ignoreeq)); }
  }

  lemma BareParts(t: string, n: nat, v: string, w: string, rest: string, style: Style)
    requires 1 <= n <= |t| && t[n..] == v + rest && Coded(w, v, style) && t[0] != '"'
    requires IsUnit(t, n, style) || (n == 1 && style == ValueWord && t[0] == ',')
    ensures t == t[..n] + v + rest && Bare([t[n-1]] + w, t[..n] + v, style)
  {
    var u, w' := t[..n] + v, [t[n-1]] + w;
    assert t == t[..n] + t[n..] && w'[1..] == w && u[n..] == v;
  }

  lemma BareRead(s: string, ptr: nat, t: string, ignoreeq: bool) returns (u: string, rest: string)
    requires Tail(s, ptr, t) && t != [] && !IsSpace(t[0]) && t[0] != '"'
    ensures var r := Val(s, ptr, WaitVal, ignoreeq, [], false);
      r.Ok? ==> WordRead(r.value, ptr, t, u, rest, ignoreeq) && !r.value.escaped && Stops(rest, ignoreeq)
  {
    TailChar(s, ptr, t);
    u, rest := [], t;
    assert [] + [t[0]] == [t[0]];
    if t[0] == '\\' {
      if |t| >= 2 {
        EscapeScan(s, ptr, t, ignoreeq, []);
        assert [] + [t[1]] == [t[1]];
        u, rest := BareRest(s, ptr, t, 2, ignoreeq);
      } else {
        TailChar(s, ptr + 1, t[1..]);
      }
    } else if ignoreeq || t[0] != '=' {
      u, rest := BareRest(s, ptr, t, 1, ignoreeq);
    }
  }

  /** The same with white space in front; without a word there is nothing else. */
  lemma {:induction false} WordFrom(s: string, ptr: nat, t: string, ignoreeq: bool)
    returns (b: string, u: string, rest: string)
    requires Tail(s, ptr, t)
    ensures var r := Val(s, ptr, WaitVal, ignoreeq, [], false);
      && (r.Ok? && !r.value.found ==> Spaces(t))
      && (r.Ok? && r.value.found ==> Found(r.value, ptr, t, b, u, rest, ignoreeq))
    decreases |t|
  {
    TailChar(s, ptr, t);
    b, u, rest := [], [], t;
    if t != [] {
      if IsSpace(t[0]) {
        var b';
        b', u, rest := WordFrom(s, ptr + 1, t[1..], ignoreeq);
        b := [t[0]] + b';
        if Val(s, ptr, WaitVal, ignoreeq, [], false).Ok? { SpaceFound(t, b', u, rest); }
      } else if t[0] == '"' {
        u, rest := QuotedRead(s, ptr, t, ignoreeq);
        assert [] + u == u;
      } else {
        u, rest := BareRead(s, ptr, t, ignoreeq);
        assert [] + u == u;
      }
    }
  }

  ghost predicate Found(r: Scan, ptr: nat, t: string, b: string, u: string, rest: string, ignoreeq: bool) {
    && Split(t, b, u, rest) && WordSpelled(r.word, u, StyleOf(ignoreeq), r.escaped)
    && r.ptr + 1 == ptr + |b| + |u| + After(rest, r.escaped)
  }

  lemma SpaceFound(t: string, b: string, u: string, rest: string)
    requires t != [] && IsSpace(t[0])
    ensures Split(t[1..], b, u, rest) ==> Split(t, [t[0]] + b, u, rest)
  {
    if t[1..] == b + u + rest {
      assert t == [t[0]] + t[1..] && t == [t[0]] + b + u + rest;
    }
  }

  /** White space in front of what follows a word changes nothing. */
  lemma ArrowMore(t: string, ps: seq<Pairs>)
    requires t != [] && IsSpace(t[0]) && ps != [] && FromArrow(t[1..], ps)
    ensures FromArrow(t, ps)
  {
    var b, rest :| Split(t[1..], b, "=>", rest) && FromValue(rest, ps);
    SpaceFound(t, b, "=>", rest);
  }

  lemma CommaMore(t: string, ps: seq<Pairs>)
    requires t != [] && IsSpace(t[0]) && FromComma(t[1..], ps)
    ensures FromComma(t, ps)
  {
    if ps == [] && Spaces(t[1..]) {
      assert forall i :: 0 < i < |t| ==> t[i] == t[1..][i-1];
    } else {
      var b, rest :| Split(t[1..], b, ",", rest) && Listed(rest, ps);
      SpaceFound(t, b, ",", rest);
    }
  }

  lemma KeyFound(r: Scan, ptr: nat, t: string, b: string, u: string, rest: string, ps: seq<Pairs>)
    requires Found(r, ptr, t, b, u, rest, false) && |r.word| <= MAX_LEN
    requires ps != [] && ps[0].key == r.word && FromArrow(rest[After(rest, r.escaped)..], ps)
    ensures Listed(t, ps)
  {
    if After(rest, r.escaped) == 1 { ArrowMore(rest, ps); } else { assert rest[0..] == rest; }
    assert KeySpelled(ps[0].key, u);
  }

  lemma ValueFound(r: Scan, ptr: nat, t: string, b: string, u: string, rest: string, key: string, more: seq<Pairs>)
    requires Found(r, ptr, t, b, u, rest, true) && |r.word| <= MAX_LEN
    requires FromComma(rest[After(rest, r.escaped)..], more)
    ensures FromValue(t, [PairOf(key, r)] + more)
  {
    if After(rest, r.escaped) == 1 { CommaMore(rest, more); } else { assert rest[0..] == rest; }
    NullWords(r.word);
    var ps := [PairOf(key, r)] + more;
    assert ValueSpelled(ps[0].val, u) && ps[1..] == more;
  }

  lemma {:induction false} ParsesListed(s: string, ptr: nat, t: string, k: string, pairs: seq<Pairs>)
    returns (ps: seq<Pairs>)
    requires Tail(s, ptr, t)
    ensures var r := Parse(s, ptr, WKey, k, pairs); r.Ok? ==> r.value == pairs + ps && Listed(t, ps)
    decreases |s| - ptr, 0
  {
    ps := [];
    var b, u, rest := WordFrom(s, ptr, t, false);
    var v := Val(s, ptr, WaitVal, false, [], false);
    assert pairs + ps == pairs;
    if v.Ok? && v.value.found && |v.value.word| <= MAX_LEN {
      BehindWord(s, ptr, t, b, u, rest, v.value.escaped);
      ps := ParsesArrow(s, v.value.ptr + 1, rest[After(rest, v.value.escaped)..], v.value.word, pairs);
      if Parse(s, ptr, WKey, k, pairs).Ok? { KeyFound(v.value, ptr, t, b, u, rest, ps); }
    }
  }

  lemma {:induction false} ParsesArrow(s: string, ptr: nat, t: string, key: string, pairs: seq<Pairs>)
    returns (ps: seq<Pairs>)
    requires Tail(s, ptr, t)
    ensures var r := Parse(s, ptr, WEq, key, pairs);
      r.Ok? ==> ps != [] && ps[0].key == key && r.value == pairs + ps && FromArrow(t, ps)
    decreases |s| - ptr, 1
  {
    ps := [];
    TailChar(s, ptr, t);
    if t != [] {
      TailChar(s, ptr + 1, t[1..]);
      if IsSpace(t[0]) {
        ps := ParsesArrow(s, ptr + 1, t[1..], key, pairs);
        if Parse(s, ptr, WEq, key, pairs).Ok? { ArrowMore(t, ps); }
      } else if t[0] == '=' && |t| >= 2 && t[1] == '>' {
        ps := ParsesValue(s, ptr + 2, t[2..], key, pairs);
        assert t[1..][1..] == t[2..] && Split(t, [], "=>", t[2..]);
      }
    }
  }

  lemma {:induction false} ParsesValue(s: string, ptr: nat, t: string, key: string, pairs: seq<Pairs>)
    returns (ps: seq<Pairs>)
    requires Tail(s, ptr, t)
    ensures var r := Parse(s, ptr, WVal, key, pairs);
      r.Ok? ==> ps != [] && ps[0].key == key && r.value == pairs + ps && FromValue(t, ps)
    decreases |s| - ptr, 1
  {
    ps := [];
    var b, u, rest := WordFrom(s, ptr, t, true);
    var v := Val(s, ptr, WaitVal, true, [], false);
    TakesValue(s, ptr, key, pairs);
    if v.Ok? && v.value.found && |v.value.word| <= MAX_LEN {
      var x := PairOf(key, v.value);
      BehindWord(s, ptr, t, b, u, rest, v.value.escaped);
      var more := ParsesComma(s, v.value.ptr + 1, rest[After(rest, v.value.escaped)..], pairs + [x]);
      ps := [x] + more;
      if Parse(s, ptr, WVal, key, pairs).Ok? { ValueFound(v.value, ptr, t, b, u, rest, key, more); }
      HeadTail(pairs, ps);
      assert ps[0] == x && ps[1..] == more;
    }
  }

  lemma {:induction false} ParsesComma(s: string, ptr: nat, t: string, pairs: seq<Pairs>) returns (ps: seq<Pairs>)
    requires Tail(s, ptr, t)
    ensures var r := Parse(s, ptr, WDel, [], pairs); r.Ok? ==> r.value == pairs + ps && FromComma(t, ps)
    decreases |s| - ptr, 1
  {
    ps := [];
    TailChar(s, ptr, t);
    assert pairs + ps == pairs;
    if t != [] {
      if IsSpace(t[0]) {
        ps := ParsesComma(s, ptr + 1, t[1..], pairs);
        if Parse(s, ptr, WDel, [], pairs).Ok? { CommaMore(t, ps); }
      } else if t[0] == ',' {
        ps := ParsesListed(s, ptr + 1, t[1..], [], pairs);
        assert Split(t, [], ",", t[1..]);
      }
    }
  }

  /** A text is parsed to a list of pairs exactly if, as a C string, it spells the list. */
  lemma ParseIffListed(text: string, ps: seq<Pairs>)
    ensures Parse(text, 0, WKey, [], []) == Ok(ps) <==> Listed(CString(text), ps)
  {
    var t := CString(text);
    CStringTail(text, 0);
    assert text[0..] == text;
    if Listed(t, ps) {
      ListedParses(text, 0, t, ps, [], []);
      assert [] + ps == ps;
    }
    var qs := ParsesListed(text, 0, t, [], []);
    assert [] + qs == qs;
  }

  /** The text spells some list of pairs. */
  ghost predicate IsListed(text: string) {
    exists ps :: Listed(CString(text), ps)
  }

  /** The parser accepts exactly the texts that spell a list, and delivers the only list they spell. */
  lemma AcceptedIffListed(text: string)
    ensures Parse(text, 0, WKey, [], []).Ok? <==> IsListed(text)
    ensures forall ps :: Listed(CString(text), ps) ==> Parse(text, 0, WKey, [], []) == Ok(ps)
  {
    var r := Parse(text, 0, WKey, [], []);
    if r.Ok? { ParseIffListed(text, r.value); }
    forall ps | Listed(CString(text), ps) ensures r == Ok(ps) { ParseIffListed(text, ps); }
  }
}
