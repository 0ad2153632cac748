/**
 hstore_in, and its round trip with hstore_out: reading printed text rebuilds the packed
 value, whatever order qsort chooses for equal pairs.
 */
module HStoreInOut {
  import opened HStorePairs
  import opened HStoreLayout
  import opened HStoreOps
  import opened HStoreUnique
  import opened HStoreText
  import opened HStorePrinter
  import HStoreGrammar

  // ----- text at a place -----

  ghost predicate At(s: string, ptr: nat, t: string) {
    ptr + |t| <= |s| && s[ptr..ptr+|t|] == t
  }

  lemma AtSplit(s: string, ptr: nat, t: string, u: string)
    requires At(s, ptr, t + u)
    ensures At(s, ptr, t) && At(s, ptr + |t|, u)
  {
    var w := s[ptr..ptr+|t|+|u|];
    assert w[..|t|] == t && w[|t|..] == u;
  }

  lemma AtChar(s: string, ptr: nat, t: string)
    requires At(s, ptr, t) && t != []
    ensures ptr < |s| && CharAt(s, ptr) == t[0] && At(s, ptr + 1, t[1..])
  {
    assert t == [t[0]] + t[1..];
    AtSplit(s, ptr, [t[0]], t[1..]);
    assert s[ptr..ptr+1][0] == t[0];
  }

  ghost predicate Clean(s: string) { NUL !in s }

  ghost predicate CleanPair(x: Pair) { Clean(x.key) && (x.val.Some? ==> Clean(x.val.value)) }

  /** No key and no value holds a zero byte. */
  ghost predicate CleanList(p: seq<Pair>) { p == [] || (CleanPair(p[0]) && CleanList(p[1..])) }

  // ----- words -----

  ghost function Mark(c: char): string { if NeedsEscape(c) then ['\\', c] else [c] }

  lemma EscapedCons(w: string)
    requires w != []
    ensures Escaped(w) + "\"" == Mark(w[0]) + (Escaped(w[1..]) + "\"")
      && |Escaped(w)| == |Mark(w[0])| + |Escaped(w[1..])|
  {
  }

  /** One character, escaped or not. */
  lemma MarkStep(s: string, ptr: nat, ignoreeq: bool, word: string, c: char)
    requires 0 < ptr && At(s, ptr, Mark(c)) && c != NUL
    ensures Val(s, ptr, InEscVal, ignoreeq, word, true) == Val(s, ptr + |Mark(c)|, InEscVal, ignoreeq, word + [c], true)
  {
    AtChar(s, ptr, Mark(c));
    if NeedsEscape(c) {
      AtChar(s, ptr + 1, [c]);
      TwoSteps(s, ptr, ignoreeq, word, c);
    }
  }

  /** Inside quotes the scanner undoes the escaping. */
  lemma {:induction false} EscapedScan(s: string, ptr: nat, w: string, ignoreeq: bool, word: string)
    requires 0 < ptr && At(s, ptr, Escaped(w) + "\"") && Clean(w)
    ensures Val(s, ptr, InEscVal, ignoreeq, word, true) == Ok(Scan(true, word + w, true, ptr + |Escaped(w)|))
    decreases |w|
  {
    if w == [] {
      AtChar(s, ptr, Escaped(w) + "\"");
      assert word + w == word;
    } else {
      var c, rest := w[0], w[1..];
      assert c in w && Clean(rest);
      ghost var u := Escaped(rest) + "\"";
      EscapedCons(w);
      AtSplit(s, ptr, Mark(c), u);
      MarkStep(s, ptr, ignoreeq, word, c);
      EscapedScan(s, ptr + |Mark(c)|, rest, ignoreeq, word + [c]);
      assert word + [c] + rest == word + w;
    }
  }

  lemma TwoSteps(s: string, ptr: nat, ignoreeq: bool, word: string, c: char)
    requires 0 < ptr && ptr + 1 < |s| && CharAt(s, ptr) == '\\' && CharAt(s, ptr + 1) == c != NUL
    ensures Val(s, ptr, InEscVal, ignoreeq, word, true) == Val(s, ptr + 2, InEscVal, ignoreeq, word + [c], true)
  {
    assert Val(s, ptr, InEscVal, ignoreeq, word, true) == Val(s, ptr + 1, WaitEscEscIn, ignoreeq, word, true);
  }

  /** A quoted string is read as the word it stands for. */
  lemma QuotedScan(s: string, ptr: nat, w: string, ignoreeq: bool)
    requires At(s, ptr, Quoted(w)) && Clean(w)
    ensures Val(s, ptr, WaitVal, ignoreeq, [], false) == Ok(Scan(true, w, true, ptr + |Quoted(w)| - 1))
  {
    var t := Escaped(w) + "\"";
    assert Quoted(w) == "\"" + t;
    AtChar(s, ptr, Quoted(w));
    assert Quoted(w)[1..] == t;
    EscapedScan(s, ptr + 1, w, ignoreeq, []);
    assert [] + w == w;
  }

  /** The unquoted word NULL, before a comma or the end. */
  lemma NullScan(s: string, ptr: nat)
    requires At(s, ptr, "NULL") && (ptr + 4 == |s| || s[ptr+4] == ',')
    ensures Val(s, ptr, WaitVal, true, [], false) == Ok(Scan(true, "NULL", false, ptr + 3))
  {
    var w := s[ptr..ptr+4];
    assert s[ptr] == w[0] && s[ptr+1] == w[1] && s[ptr+2] == w[2] && s[ptr+3] == w[3];
    assert Val(s, ptr, WaitVal, true, [], false) == Val(s, ptr + 1, InVal, true, [] + ['N'], false);
    assert [] + ['N'] == "N" && "N" + ['U'] == "NU" && "NU" + ['L'] == "NUL" && "NUL" + ['L'] == "NULL";
    assert Val(s, ptr + 1, InVal, true, "N", false) == Val(s, ptr + 2, InVal, true, "NU", false);
    assert Val(s, ptr + 2, InVal, true, "NU", false) == Val(s, ptr + 3, InVal, true, "NUL", false);
    assert Val(s, ptr + 3, InVal, true, "NUL", false) == Val(s, ptr + 4, InVal, true, "NULL", false);
  }

  // ----- items -----

  ghost function ValueText(x: Pair): string { match x.val case None => "NULL" case Some(v) => Quoted(v) }

  lemma ValueScan(s: string, ptr: nat, x: Pair)
    requires At(s, ptr, ValueText(x)) && CleanPair(x) && (ptr + |ValueText(x)| == |s| || s[ptr+|ValueText(x)|] == ',')
    ensures var w := Scan(true, if x.val.None? then "NULL" else x.val.value, x.val.Some?, ptr + |ValueText(x)| - 1);
      Val(s, ptr, WaitVal, true, [], false) == Ok(w) && PairOf(x.key, w) == Pairs(x.key, x.val, true)
  {
    match x.val
    case None => NullScan(s, ptr);
    case Some(v) => QuotedScan(s, ptr, v, true);
  }

  ghost predicate ShortPair(x: Pair) { |x.key| <= MAX_LEN && |ValText(x)| <= MAX_LEN }

  /** The arrow. */
  lemma ArrowStep(s: string, ptr: nat, key: string, pairs: seq<Pairs>)
    requires At(s, ptr, "=>")
    ensures Parse(s, ptr, WEq, key, pairs) == Parse(s, ptr + 2, WVal, key, pairs)
  {
    AtChar(s, ptr, "=>");
    AtChar(s, ptr + 1, ">");
    assert Parse(s, ptr, WEq, key, pairs) == Parse(s, ptr + 1, WGt, key, pairs);
  }

  lemma KeyStep(s: string, ptr: nat, w: string, k: string, pairs: seq<Pairs>)
    requires At(s, ptr, Quoted(w)) && Clean(w) && |w| <= MAX_LEN
    ensures Parse(s, ptr, WKey, k, pairs) == Parse(s, ptr + |Quoted(w)|, WEq, w, pairs)
  {
    QuotedScan(s, ptr, w, false);
  }

  lemma ValueStep(s: string, ptr: nat, x: Pair, pairs: seq<Pairs>)
    requires At(s, ptr, ValueText(x)) && CleanPair(x) && ShortPair(x)
      && (ptr + |ValueText(x)| == |s| || s[ptr+|ValueText(x)|] == ',')
    ensures Parse(s, ptr, WVal, x.key, pairs)
      == Parse(s, ptr + |ValueText(x)|, WDel, [], pairs + [Pairs(x.key, x.val, true)])
  {
    ValueScan(s, ptr, x);
  }

  /** The parser reads one printed item as one pair. */
  lemma ParseItem(s: string, ptr: nat, x: Pair, k: string, pairs: seq<Pairs>)
    requires At(s, ptr, ItemText(x)) && CleanPair(x) && ShortPair(x)
    requires ptr + |ItemText(x)| == |s| || s[ptr+|ItemText(x)|] == ','
    ensures Parse(s, ptr, WKey, k, pairs)
      == Parse(s, ptr + |ItemText(x)|, WDel, [], pairs + [Pairs(x.key, x.val, true)])
  {
    ghost var key, value := Quoted(x.key), ValueText(x);
    AtSplit(s, ptr, key + "=>", value);
    AtSplit(s, ptr, key, "=>");
    KeyStep(s, ptr, x.key, k, pairs);
    ArrowStep(s, ptr + |key|, x.key, pairs);
    ValueStep(s, ptr + |key| + 2, x, pairs);
  }

  lemma SkipSpace(s: string, ptr: nat, k: string, pairs: seq<Pairs>)
    requires ptr < |s| && s[ptr] == ' '
    ensures Parse(s, ptr, WKey, k, pairs) == Parse(s, ptr + 1, WKey, k, pairs)
  {
    assert Val(s, ptr, WaitVal, false, [], false) == Val(s, ptr + 1, WaitVal, false, [], false);
  }

  /** The pairs parse_hstore delivers for a list. */
  ghost function Freed(p: seq<Pair>): (a: seq<Pairs>)
    ensures |a| == |p|
  {
    if p == [] then [] else [Pairs(p[0].key, p[0].val, true)] + Freed(p[1..])
  }

  /** The comma and the space between two items. */
  lemma CommaStep(s: string, ptr: nat, pairs: seq<Pairs>)
    requires At(s, ptr, ", ")
    ensures Parse(s, ptr, WDel, [], pairs) == Parse(s, ptr + 2, WKey, [], pairs)
  {
    AtChar(s, ptr, ", ");
    AtChar(s, ptr + 1, " ");
    assert Parse(s, ptr, WDel, [], pairs) == Parse(s, ptr + 1, WKey, [], pairs);
    SkipSpace(s, ptr + 1, [], pairs);
  }

  /** An item with more behind it. */
  lemma ParseMore(s: string, ptr: nat, x: Pair, t: string, pairs: seq<Pairs>)
    requires At(s, ptr, ItemText(x) + (", " + t)) && CleanPair(x) && ShortPair(x)
    ensures At(s, ptr + |ItemText(x)| + 2, t)
    ensures Parse(s, ptr, WKey, [], pairs)
      == Parse(s, ptr + |ItemText(x)| + 2, WKey, [], pairs + [Pairs(x.key, x.val, true)])
  {
    var end := ptr + |ItemText(x)|;
    AtSplit(s, ptr, ItemText(x), ", " + t);
    AtSplit(s, end, ", ", t);
    AtChar(s, end, ", ");
    ParseItem(s, ptr, x, [], pairs);
    CommaStep(s, end, pairs + [Pairs(x.key, x.val, true)]);
  }

  /** The last item. */
  lemma ParseLast(s: string, ptr: nat, x: Pair, pairs: seq<Pairs>)
    requires At(s, ptr, ItemText(x)) && ptr + |ItemText(x)| == |s| && CleanPair(x) && ShortPair(x)
    ensures Parse(s, ptr, WKey, [], pairs) == Ok(pairs + [Pairs(x.key, x.val, true)])
  {
    ParseItem(s, ptr, x, [], pairs);
  }

  lemma ListShape(p: seq<Pair>)
    requires p != []
    ensures |p| == 1 ==> ListText(p) == ItemText(p[0])
    ensures |p| > 1 ==> ListText(p) == ItemText(p[0]) + (", " + ListText(p[1..]))
  {
  }

  ghost predicate Readable(p: seq<Pair>) {
    p == [] || (CleanPair(p[0]) && ShortPair(p[0]) && Readable(p[1..]))
  }

  lemma {:induction false} AllReadable(p: seq<Pair>, n: nat)
    requires CleanList(p) && ShortList(p, n) && n <= MAX_LEN
    ensures Readable(p)
  {
    if p != [] { AllReadable(p[1..], n); }
  }

  /** No key and no value is longer than n. */
  ghost predicate ShortList(p: seq<Pair>, n: nat) {
    p == [] || (|p[0].key| + |ValText(p[0])| <= n && ShortList(p[1..], n))
  }

  lemma {:induction false} PartsShort(p: seq<Pair>, i: nat)
    requires i <= |p|
    ensures ShortList(p[i..], |Data(p)|)
    decreases |p| - i
  {
    if i < |p| {
      DataStep(p, i);
      PartsShort(p, i + 1);
      assert p[i..][1..] == p[i+1..];
    }
  }

  /** The list of pairs as the parser lets it grow. */
  ghost function FreedOnto(pairs: seq<Pairs>, p: seq<Pair>): seq<Pairs>
    decreases |p|
  {
    if p == [] then pairs else FreedOnto(pairs + [Pairs(p[0].key, p[0].val, true)], p[1..])
  }

  lemma {:induction false} FreedOntoIsFreed(pairs: seq<Pairs>, p: seq<Pair>)
    ensures FreedOnto(pairs, p) == pairs + Freed(p)
    decreases |p|
  {
    if p != [] {
      var next := Pairs(p[0].key, p[0].val, true);
      FreedOntoIsFreed(pairs + [next], p[1..]);
      assert pairs + [next] + Freed(p[1..]) == pairs + ([next] + Freed(p[1..]));
    }
  }

  /** The parser reads a printed list as the list. */
  lemma {:induction false} ParseList(s: string, ptr: nat, p: seq<Pair>, pairs: seq<Pairs>)
    requires p != [] && At(s, ptr, ListText(p)) && ptr + |ListText(p)| == |s| && Readable(p)
    ensures Parse(s, ptr, WKey, [], pairs) == Ok(FreedOnto(pairs, p))
    decreases |p|
  {
    var x, rest := p[0], p[1..];
    ghost var more, t := pairs + [Pairs(x.key, x.val, true)], ListText(rest);
    ListShape(p);
    if |p| == 1 {
      ParseLast(s, ptr, x, pairs);
      assert FreedOnto(more, rest) == more;
    } else {
      ParseMore(s, ptr, x, t, pairs);
      ParseList(s, ptr + |ItemText(x)| + 2, rest, more);
    }
  }

  /** Printing and parsing gives the pairs back. */
  lemma ParseText(p: seq<Pair>)
    requires Readable(p)
    ensures Parse(ListText(p), 0, WKey, [], []) == Ok(Freed(p))
  {
    var s := ListText(p);
    if p != [] {
      assert s[0..|s|] == s;
      ParseList(s, 0, p, []);
      FreedOntoIsFreed([], p);
      assert [] + Freed(p) == Freed(p);
    }
  }

  // ----- the packed value comes back -----

  lemma {:induction false} FreedAt(p: seq<Pair>, i: nat)
    requires i < |p|
    ensures Freed(p)[i] == Pairs(p[i].key, p[i].val, true)
  {
    if i > 0 { FreedAt(p[1..], i - 1); }
  }

  lemma FreedHas(p: seq<Pair>, x: Pairs)
    ensures x in Freed(p) ==> Pair(x.key, x.val) in p
    ensures Pair(x.key, x.val) in p && x.needfree ==> x in Freed(p)
  {
    var a := Freed(p);
    if x in a {
      var i :| 0 <= i < |a| && a[i] == x;
      FreedAt(p, i);
    }
    if Pair(x.key, x.val) in p && x.needfree {
      var i :| 0 <= i < |p| && p[i] == Pair(x.key, x.val);
      FreedAt(p, i);
    }
  }

  /** Keys being distinct, removing duplicates after any sorting gives the list itself. */
  lemma UniqueRestores(p: seq<Pair>, order: seq<Pairs>)
    requires Sorted(p) && QsortOf(order, Freed(p))
    ensures AsPairs(Firsts(order)) == p
  {
    var r := AsPairs(Firsts(order));
    FirstsMeaning(Freed(p), order, r);
    forall k ensures k in MapOf(r) <==> k in MapOf(p) {
      MapHas(p, k);
      if k in MapOf(p) {
        var i :| 0 <= i < |p| && p[i].key == k;
        FreedHas(p, Pairs(k, p[i].val, true));
      }
      if k in MapOf(r) { SameUnder(p, order, r, k); }
    }
    forall k <- MapOf(r) ensures MapOf(r)[k] == MapOf(p)[k] {
      SameUnder(p, order, r, k);
    }
    SortedUnique(r, p);
  }

  lemma SameUnder(p: seq<Pair>, order: seq<Pairs>, r: seq<Pair>, k: string)
    requires Sorted(p) && k in MapOf(r)
    requires forall k <- MapOf(r) :: exists x :: x in Freed(p) && x.key == k && x.val == MapOf(r)[k]
    ensures k in MapOf(p) && MapOf(r)[k] == MapOf(p)[k]
  {
    var x :| x in Freed(p) && x.key == k && x.val == MapOf(r)[k];
    FreedHas(p, x);
    var i :| 0 <= i < |p| && p[i] == Pair(x.key, x.val);
    MapAt(p, i);
  }

  /**
   Printing a packed value without zero bytes and parsing the text gives its pairs, null,
   "NULL" and "" included; UniqueRestores then gives back the list.
   */
  lemma RoundTrip(p: seq<Pair>)
    requires Fits(p) && CleanList(p)
    ensures Parse(ListText(p), 0, WKey, [], []) == Ok(Freed(p))
  {
    PartsShort(p, 0);
    assert p[0..] == p;
    AllReadable(p, |Data(p)|);
    ParseText(p);
  }

  /** Different values have different texts. */
  lemma TextInjective(p: seq<Pair>, q: seq<Pair>)
    requires Fits(p) && CleanList(p) && Fits(q) && CleanList(q)
    requires ListText(p) == ListText(q)
    ensures p == q
  {
    RoundTrip(p);
    RoundTrip(q);
    forall i | 0 <= i < |p| ensures |p| == |q| && p[i] == q[i] {
      FreedAt(p, i);
      FreedAt(q, i);
    }
  }

  /** The outcome of hstore_in: an error of the parser, palloc's refusal, or a packed value. */
  datatype Input = Refused(error: Error) | TooLarge | Made(value: array<Cell>)

  /** The list hstore_in packs, given what qsort leaves. */
  ghost function InputList(order: seq<Pairs>): seq<Pair> { AsPairs(Firsts(order)) }

  method UniqueAndPack(pairs: seq<Pairs>, order: seq<Pairs>) returns (out: Option<array<Cell>>)
    requires QsortOf(order, pairs)
    ensures out.None? <==> Pack(InputList(order)).size > MAX_ALLOC
    ensures out.Some? ==> fresh(out.value) && Stored(out.value[..], Pack(InputList(order))) && Fits(InputList(order))
  {
    var a := new Pairs[|pairs|](i requires 0 <= i < |pairs| => pairs[i]);
    assert a[..|pairs|] == pairs;
    var n, buflen := UniquePairs(a, |pairs|, order);
    TotalIsData(a[..n]);
    out := PackPairs(a[..n], buflen);
  }

  /** hstore_in. */
  method HStoreIn(text: string, order: seq<Pairs>) returns (out: Input)
    requires var r := Parse(text, 0, WKey, [], []); r.Ok? ==> QsortOf(order, r.value)
    ensures match Parse(text, 0, WKey, [], [])
      case Err(e) => out == Refused(e)
      case Ok(pairs) =>
        var r := InputList(order);
        if Pack(r).size > 0x3fff_ffff then out == TooLarge
        else out.Made? && fresh(out.value) && Packed(Pack(r), r) && Stored(out.value[..], Pack(r))
    ensures out.Refused? <==> !HStoreGrammar.IsListed(text)
    ensures forall ps :: HStoreGrammar.Listed(HStoreGrammar.CString(text), ps) ==> QsortOf(order, ps)
  {
    HStoreGrammar.AcceptedIffListed(text);
    var state := new HSParser(text);
    var e := state.ParseHstore();
    if e.Some? { return Refused(e.value); }
    FirstsMeaning(state.pairs, order, InputList(order));
    var made := UniqueAndPack(state.pairs, order);
    out := if made.None? then TooLarge else Made(made.value);
  }

  /** Out and in again: the value is stored anew, bit for bit. */
  method PrintAndRead(h: HStore, order: seq<Pairs>, ghost p: seq<Pair>) returns (out: Input)
    requires Packed(h, p) && CleanList(p) && QsortOf(order, Freed(p)) && h.size <= MAX_ALLOC
    ensures out.Made? && Stored(out.value[..], h)
  {
    PackedReads(h, p);
    RoundTrip(p);
    UniqueRestores(p, order);
    var text, len := HStoreOut(h, p);
    out := HStoreIn(text[..len], order);
  }

  // ----- whatever is accepted -----

  /** A word ends before the first zero byte. */
  lemma {:induction false} ValClean(s: string, ptr: nat, st: ValState, ignoreeq: bool, word: string, escaped: bool)
    requires ptr <= |s| && (st != WaitVal ==> ptr > 0) && Clean(word)
    ensures var r := Val(s, ptr, st, ignoreeq, word, escaped); r.Ok? ==> Clean(r.value.word)
    decreases |s| - ptr
  {
    var c := CharAt(s, ptr);
    if c != NUL {
      ValClean(s, ptr + 1, InEscVal, ignoreeq, word, true);
      ValClean(s, ptr + 1, WaitEscIn, ignoreeq, word, escaped);
      ValClean(s, ptr + 1, WaitEscEscIn, ignoreeq, word, escaped);
      ValClean(s, ptr + 1, WaitVal, ignoreeq, word, escaped);
      ValClean(s, ptr + 1, InVal, ignoreeq, word + [c], escaped);
      ValClean(s, ptr + 1, InEscVal, ignoreeq, word + [c], escaped);
    }
  }

  ghost predicate CleanPairs(a: seq<Pairs>) { forall x <- a :: CleanPair(Pair(x.key, x.val)) }

  lemma {:induction false} ParseClean(s: string, ptr: nat, st: ParseState, key: string, pairs: seq<Pairs>)
    requires ptr <= |s| && Clean(key) && CleanPairs(pairs)
    ensures var r := Parse(s, ptr, st, key, pairs); r.Ok? ==> CleanPairs(r.value)
    decreases |s| - ptr
  {
    match st
    case WKey =>
      ValClean(s, ptr, WaitVal, false, [], false);
      var v := Val(s, ptr, WaitVal, false, [], false);
      if v.Ok? && v.value.found { ParseClean(s, v.value.ptr + 1, WEq, v.value.word, pairs); }
    case WVal =>
      ValClean(s, ptr, WaitVal, true, [], false);
      var v := Val(s, ptr, WaitVal, true, [], false);
      if v.Ok? && v.value.found { ParseClean(s, v.value.ptr + 1, WDel, [], pairs + [PairOf(key, v.value)]); }
    case _ =>
      if ptr < |s| {
        ParseClean(s, ptr + 1, st, key, pairs);
        var next := if st == WEq then WGt else if st == WGt then WVal else WKey;
        ParseClean(s, ptr + 1, next, if st == WDel then [] else key, pairs);
      }
  }

  lemma {:induction false} AllClean(p: seq<Pair>)
    requires forall x <- p :: CleanPair(x)
    ensures CleanList(p)
  {
    if p != [] { AllClean(p[1..]); }
  }

  /** The value hstore_in makes of a text holds no zero byte, whatever the text. */
  lemma AcceptedIsClean(text: string, order: seq<Pairs>)
    requires var r := Parse(text, 0, WKey, [], []); r.Ok? && QsortOf(order, r.value)
    ensures CleanList(InputList(order))
  {
    var a, p := Parse(text, 0, WKey, [], []).value, InputList(order);
    ParseClean(text, 0, WKey, [], []);
    FirstsOfOrdered(order);
    forall x <- p ensures CleanPair(x) {
      var i :| 0 <= i < |p| && p[i] == x;
      AsPairsAt(Firsts(order), i);
      FirstIsInput(a, order, Firsts(order), i);
    }
    AllClean(p);
  }

  /**
   In, out and in again, for every text that makes a value: the printed text is accepted, and
   whatever qsort does both times, the list packed is the same.
   */
  lemma ReadPrintRead(text: string, order: seq<Pairs>, again: seq<Pairs>)
    requires var r := Parse(text, 0, WKey, [], []); r.Ok? && QsortOf(order, r.value)
    requires Fits(InputList(order)) && QsortOf(again, Freed(InputList(order)))
    ensures Parse(ListText(InputList(order)), 0, WKey, [], []) == Ok(Freed(InputList(order)))
    ensures InputList(again) == InputList(order)
  {
    AcceptedIsClean(text, order);
    RoundTrip(InputList(order));
    FirstsMeaning(Parse(text, 0, WKey, [], []).value, order, InputList(order));
    UniqueRestores(InputList(order), again);
  }
}
