/**
 The printer of hstore_io.c: cpw and hstore_out, which writes into a buffer whose size it
 has estimated before.
 */
module HStorePrinter {
  import opened HStorePairs
  import opened HStoreLayout
  import opened HStoreOps

  // ----- the text -----

  predicate NeedsEscape(c: char) { c == '"' || c == '\\' }

  function Escaped(s: string): string {
    if s == [] then [] else (if NeedsEscape(s[0]) then ['\\', s[0]] else [s[0]]) + Escaped(s[1..])
  }

  function Quoted(s: string): string { "\"" + Escaped(s) + "\"" }

  function ItemText(x: Pair): string {
    Quoted(x.key) + "=>" + (match x.val case None => "NULL" case Some(v) => Quoted(v))
  }

  function ListText(p: seq<Pair>): string {
    if p == [] then "" else ItemText(p[0]) + (if |p| == 1 then "" else ", " + ListText(p[1..]))
  }

  // ----- what the text looks like -----

  /** Neither of the two characters that a quoted string cannot hold as they are. */
  predicate NoMarks(s: string) { '"' !in s && '\\' !in s }

  /** A backslash is put before quotes and backslashes, and nothing else is added. */
  lemma {:induction false} EscapedCount(s: string)
    ensures |Escaped(s)| == |s| + multiset(s)['"'] + multiset(s)['\\']
  {
    if s != [] {
      EscapedCount(s[1..]);
      assert s == [s[0]] + s[1..];
      assert multiset(s) == multiset([s[0]]) + multiset(s[1..]);
    }
  }

  /** What holds none of them is printed as it is. */
  lemma {:induction false} EscapedPlain(s: string)
    requires NoMarks(s)
    ensures Escaped(s) == s && Quoted(s) == "\"" + s + "\""
  {
    if s != [] {
      assert s[0] in s;
      EscapedPlain(s[1..]);
    }
  }

  /** It stands right before the first such character; the rest is printed in the same way. */
  lemma {:induction false} EscapedFirst(a: string, c: char, b: string)
    requires NoMarks(a) && (c == '"' || c == '\\')
    ensures Escaped(a + [c] + b) == a + ['\\', c] + Escaped(b)
  {
    var s := a + [c] + b;
    if a == [] {
      assert s[1..] == b;
    } else {
      assert a[0] in a && s[0] == a[0] && s[1..] == a[1..] + [c] + b;
      EscapedFirst(a[1..], c, b);
    }
  }

  /** An item of words without marks. */
  lemma ItemPlain(x: Pair)
    requires NoMarks(x.key) && (x.val.Some? ==> NoMarks(x.val.value))
    ensures ItemText(x) == if x.val.None? then "\"" + x.key + "\"=>NULL"
      else "\"" + x.key + "\"=>\"" + x.val.value + "\""
  {
    EscapedPlain(x.key);
    if x.val.Some? { EscapedPlain(x.val.value); }
  }

  lemma ListCons(x: Pair, p: seq<Pair>)
    ensures ListText([x] + p) == ItemText(x) + (if p == [] then "" else ", " + ListText(p))
  {
    assert ([x] + p)[1..] == p;
  }

  lemma OneItem(x: Pair)
    ensures ListText([x]) == ItemText(x)
  {
  }

  /** Lists are printed item by item, with a comma and a blank between neighbours. */
  lemma {:induction false} ListJoin(p: seq<Pair>, q: seq<Pair>)
    requires p != [] && q != []
    ensures ListText(p + q) == ListText(p) + ", " + ListText(q)
  {
    var x, rest := p[0], p[1..];
    assert p == [x] + rest;
    assert p + q == [x] + (rest + q);
    ListCons(x, rest + q);
    ListCons(x, rest);
    if rest == [] {
      assert rest + q == q;
      OneItem(x);
    } else {
      ListJoin(rest, q);
      JoinText(ItemText(x), ListText(rest), ListText(q));
    }
  }

  lemma JoinText(a: string, b: string, c: string)
    ensures a + (", " + (b + ", " + c)) == a + (", " + b) + ", " + c
  {
  }

  // ----- the estimate -----

  /** What the first loop of hstore_out adds for one item. */
  function ItemSize(x: Pair): nat {
    6 + 2 * |x.key| + 2 + (if x.val.None? then 2 else 2 * |x.val.value|)
  }

  ghost function BufferSize(p: seq<Pair>): nat {
    if p == [] then 0 else ItemSize(p[0]) + BufferSize(p[1..])
  }

  lemma {:induction false} EscapedSize(s: string)
    ensures |s| <= |Escaped(s)| <= 2 * |s|
  {
    if s != [] { EscapedSize(s[1..]); }
  }

  lemma ItemFits(x: Pair)
    ensures |ItemText(x)| + 2 <= ItemSize(x)
  {
    EscapedSize(x.key);
    if x.val.Some? { EscapedSize(x.val.value); }
  }

  /** The text and its terminator fit the estimate. */
  lemma {:induction false} TextFits(p: seq<Pair>)
    requires p != []
    ensures |ListText(p)| + 1 < BufferSize(p)
  {
    ItemFits(p[0]);
    if |p| > 1 { TextFits(p[1..]); }
  }

  // ----- the code -----

  /** The stores of punctuation. */
  method Put(out: array<char>, ptr: nat, s: string) returns (ptr': nat)
    requires ptr + |s| <= out.Length
    modifies out
    ensures ptr' == ptr + |s| && out[..ptr'] == old(out[..ptr]) + s
  {
    var k := 0;
    while k < |s|
      invariant 0 <= k <= |s| && out[..ptr+k] == old(out[..ptr]) + s[..k]
    {
      out[ptr+k] := s[k];
      k := k + 1;
      assert s[..k] == s[..k-1] + [s[k-1]];
    }
    ptr' := ptr + |s|;
  }

  lemma EscapedNext(s: string, k: nat)
    requires k < |s|
    ensures Escaped(s[k..]) == (if NeedsEscape(s[k]) then ['\\', s[k]] else [s[k]]) + Escaped(s[k+1..])
  {
    assert s[k..][1..] == s[k+1..];
  }

  /** cpw. */
  method Cpw(out: array<char>, dst: nat, src: string) returns (dst': nat)
    requires dst + |Escaped(src)| <= out.Length
    modifies out
    ensures dst' == dst + |Escaped(src)| && out[..dst'] == old(out[..dst]) + Escaped(src)
  {
    dst' := dst;
    var k := 0;
    ghost var all := old(out[..dst]) + Escaped(src);
    assert src[0..] == src;
    while k < |src|
      invariant 0 <= k <= |src| && dst' <= out.Length && out[..dst'] + Escaped(src[k..]) == all
    {
      EscapedNext(src, k);
      ghost var before, rest := out[..dst'], Escaped(src[k+1..]);
      ghost var mark := if NeedsEscape(src[k]) then ['\\', src[k]] else [src[k]];
      assert |before + (mark + rest)| == |all|;
      if NeedsEscape(src[k]) {
        out[dst'] := '\\';
        dst' := dst' + 1;
      }
      out[dst'] := src[k];
      dst' := dst' + 1;
      k := k + 1;
      assert out[..dst'] == before + mark;
      Regroup(before, mark, rest);
    }
    assert out[..dst'] + [] == out[..dst'];
  }

  lemma Regroup(a: string, b: string, c: string)
    ensures a + (b + c) == (a + b) + c
  {
  }

  method PutQuoted(out: array<char>, ptr: nat, s: string) returns (ptr': nat)
    requires ptr + |Quoted(s)| <= out.Length
    modifies out
    ensures ptr' == ptr + |Quoted(s)| && out[..ptr'] == old(out[..ptr]) + Quoted(s)
  {
    ghost var before := out[..ptr];
    ptr' := Put(out, ptr, "\"");
    ptr' := Cpw(out, ptr', s);
    ptr' := Put(out, ptr', "\"");
    Regroup(before, "\"", Escaped(s));
    Regroup(before, "\"" + Escaped(s), "\"");
  }

  /** One item. */
  method PutItem(out: array<char>, ptr: nat, h: HStore, i: nat, ghost p: seq<Pair>) returns (ptr': nat)
    requires Reads(h, p) && i < |p| && ptr + |ItemText(p[i])| <= out.Length
    modifies out
    ensures ptr' == ptr + |ItemText(p[i])| && out[..ptr'] == old(out[..ptr]) + ItemText(p[i])
  {
    ghost var before := out[..ptr];
    var key := ReadKey(h, i, p);
    var isnull, v := ReadValue(h, i, p);
    ghost var text := if isnull then "NULL" else Quoted(v);
    ptr' := PutQuoted(out, ptr, key);
    ptr' := Put(out, ptr', "=>");
    if isnull {
      ptr' := Put(out, ptr', "NULL");
    } else {
      ptr' := PutQuoted(out, ptr', v);
    }
    Regroup(before, Quoted(key), "=>");
    Regroup(before, Quoted(key) + "=>", text);
  }

  lemma ListNext(p: seq<Pair>, i: nat)
    requires i < |p|
    ensures ListText(p[i..]) == ItemText(p[i]) + (if i + 1 == |p| then "" else ", " + ListText(p[i+1..]))
    ensures BufferSize(p[i..]) == ItemSize(p[i]) + BufferSize(p[i+1..])
  {
    assert p[i..][1..] == p[i+1..];
  }

  method EstimateItem(h: HStore, i: nat, ghost p: seq<Pair>) returns (n: nat)
    requires Reads(h, p) && i < |p|
    ensures n == ItemSize(p[i])
  {
    ReadAt(h, p, i);
    n := 6 + 2 * KeyLen(h, i);
    n := n + 2 + if ValIsNull(h, i) then 2 else 2 * ValLen(h, i);
  }

  /** The first loop: an overestimate of the space. */
  method Estimate(h: HStore, ghost p: seq<Pair>) returns (buflen: nat)
    requires Reads(h, p)
    ensures buflen == BufferSize(p)
  {
    buflen := 0;
    var i := 0;
    assert p[0..] == p;
    while i < h.count
      invariant 0 <= i <= |p| && buflen + BufferSize(p[i..]) == BufferSize(p)
    {
      ListNext(p, i);
      var n := EstimateItem(h, i, p);
      buflen := buflen + n;
      i := i + 1;
    }
  }

  /** An item and the comma behind it. */
  method PutNext(out: array<char>, ptr: nat, h: HStore, i: nat, ghost p: seq<Pair>, ghost all: string)
    returns (ptr': nat)
    requires Reads(h, p) && i < |p| && ptr + |ListText(p[i..])| <= out.Length && out[..ptr] + ListText(p[i..]) == all
    modifies out
    ensures ptr' + |ListText(p[i+1..])| == ptr + |ListText(p[i..])| && out[..ptr'] + ListText(p[i+1..]) == all
  {
    ListNext(p, i);
    ghost var before, rest := out[..ptr], ListText(p[i+1..]);
    ptr' := PutItem(out, ptr, h, i, p);
    if i + 1 != h.count {
      ptr' := Put(out, ptr', ", ");
      Regroup(before, ItemText(p[i]), ", " + rest);
      Regroup(before + ItemText(p[i]), ", ", rest);
    } else {
      assert ItemText(p[i]) + "" == ItemText(p[i]);
      assert rest == "";
    }
  }

  /** hstore_out: the text of the value and a zero byte, inside the buffer. */
  method HStoreOut(h: HStore, ghost p: seq<Pair>) returns (out: array<char>, len: nat)
    requires Reads(h, p)
    ensures fresh(out) && len < out.Length && out[len] == '\0' && out[..len] == ListText(p)
    ensures out.Length == if p == [] then 1 else BufferSize(p)
  {
    if h.count == 0 {
      out := new char[1](_ => '\0');
      return out, 0;
    }
    TextFits(p);
    var buflen := Estimate(h, p);
    out := new char[buflen](_ => 'x');
    len := 0;
    var i := 0;
    assert p[0..] == p;
    while i < h.count
      invariant 0 <= i <= |p| && len + |ListText(p[i..])| == |ListText(p)|
        && out[..len] + ListText(p[i..]) == ListText(p)
    {
      len := PutNext(out, len, h, i, p, ListText(p));
      i := i + 1;
    }
    assert out[..len] + [] == out[..len];
    out[len] := '\0';
  }
}
