/**
 The packed form of hstore.h: a header of two words, one end position for every key and
 one for every value, then all keys and values in one buffer.  Memory is a row of cells,
 each holding one word (four bytes) or one byte of text.
 */
module HStoreLayout {
  import opened HStorePairs

  const HENTRY_ISFIRST: int := 0x8000_0000
  const HENTRY_ISNULL: int := 0x4000_0000
  const HENTRY_POSMASK: int := 0x3fff_ffff
  const HS_FLAG_NEWVERSION: int := 0x8000_0000
  const HS_COUNTMASK: int := 0x0fff_ffff
  const HSHRDSIZE: nat := 8

  /** CALCDATASIZE. */
  function CalcDataSize(count: nat, lenstr: nat): nat { count * 8 + HSHRDSIZE + lenstr }

  datatype Cell = Word(w: int) | Text(c: char)

  ghost predicate WordsAt(m: seq<Cell>, off: nat, ws: seq<int>) {
    off + |ws| <= |m| && forall i {:trigger ws[i]} :: 0 <= i < |ws| ==> m[off+i] == Word(ws[i])
  }

  ghost predicate TextAt(m: seq<Cell>, off: nat, s: string) {
    off + |s| <= |m| && forall i {:trigger s[i]} :: 0 <= i < |s| ==> m[off+i] == Text(s[i])
  }

  // ----- entries -----

  /** The bits of a uint32 entry, taken apart without division. */
  predicate IsFirst(w: int) { w >= HENTRY_ISFIRST }

  function DropFirst(w: int): int { if IsFirst(w) then w - HENTRY_ISFIRST else w }

  predicate IsNull(w: int) { DropFirst(w) >= HENTRY_ISNULL }

  function EndPos(w: int): int { if IsNull(w) then DropFirst(w) - HENTRY_ISNULL else DropFirst(w) }

  ghost function ValText(x: Pair): string { if x.val.Some? then x.val.value else [] }

  ghost function Data(p: seq<Pair>): string {
    if p == [] then [] else Data(p[..|p|-1]) + (p[|p|-1].key + ValText(p[|p|-1]))
  }

  ghost function KeyWord(front: seq<Pair>, x: Pair): int { |Data(front)| + |x.key| }

  ghost function ValWord(front: seq<Pair>, x: Pair): int {
    |Data(front)| + |x.key| + |ValText(x)| + if x.val.None? then HENTRY_ISNULL else 0
  }

  /** The entries as they are written, before the first one is marked. */
  ghost function RawWords(p: seq<Pair>): (ws: seq<int>)
    ensures |ws| == 2 * |p|
  {
    if p == [] then []
    else
      var front, x := p[..|p|-1], p[|p|-1];
      RawWords(front) + [KeyWord(front, x), ValWord(front, x)]
  }

  ghost function Words(p: seq<Pair>): (ws: seq<int>)
    ensures |ws| == 2 * |p|
  {
    if p == [] then [] else RawWords(p)[0 := RawWords(p)[0] + HENTRY_ISFIRST]
  }

  /** End positions and the count fit their fields. */
  ghost predicate Fits(p: seq<Pair>) {
    |Data(p)| <= HENTRY_POSMASK && |p| <= HS_COUNTMASK
  }

  /** A packed value seen through its struct: VARSIZE, HS_COUNT, ARRPTR and STRPTR. */
  datatype HStore = HStore(size: nat, count: nat, entries: seq<int>, str: string)

  ghost function Pack(p: seq<Pair>): HStore {
    HStore(CalcDataSize(|p|, |Data(p)|), |p|, Words(p), Data(p))
  }

  /** The memory holds the value: header, entries, and the buffer right behind them. */
  ghost predicate Stored(m: seq<Cell>, h: HStore) {
    && 2 + |h.entries| + |h.str| <= |m|
    && m[0] == Word(h.size) && m[1] == Word(h.count + HS_FLAG_NEWVERSION)
    && WordsAt(m, 2, h.entries) && TextAt(m, 2 + |h.entries|, h.str)
  }

  lemma {:induction false} DataPrefix(p: seq<Pair>, k: nat)
    requires k <= |p|
    ensures Data(p[..k]) <= Data(p)
    decreases |p| - k
  {
    if k < |p| {
      DataPrefix(p, k + 1);
      assert p[..k+1][..k] == p[..k];
    } else {
      assert p[..k] == p;
    }
  }

  lemma DataAt(p: seq<Pair>, k: nat)
    requires k < |p|
    ensures Data(p[..k+1]) == Data(p[..k]) + p[k].key + ValText(p[k])
  {
    assert p[..k+1][..k] == p[..k];
  }

  lemma {:induction false} RawWordsAt(p: seq<Pair>, k: nat)
    requires k < |p|
    ensures RawWords(p)[2*k] == KeyWord(p[..k], p[k]) && RawWords(p)[2*k+1] == ValWord(p[..k], p[k])
  {
    var n := |p| - 1;
    if k < n {
      RawWordsAt(p[..n], k);
      assert p[..n][..k] == p[..k];
    }
  }

  /**
   The packed form in numbers: eight bytes of header and eight for each pair; the words of
   pair k are where its key and its value end, with a mark on the very first word and on
   those of nulls; the bytes are the keys and values one after the other.
   */
  lemma PackMeans(p: seq<Pair>, k: nat)
    requires k < |p|
    ensures var h, end := Pack(p), |Data(p[..k])| + |p[k].key|;
      && h.size == 8 + 8 * |p| + |h.str| && h.count == |p| && |h.entries| == 2 * |p|
      && h.entries[2*k] == end + (if k == 0 then 0x8000_0000 else 0)
      && h.entries[2*k+1] == |Data(p[..k+1])| + (if p[k].val.None? then 0x4000_0000 else 0)
      && Data(p[..k+1]) == Data(p[..k]) + p[k].key + ValText(p[k]) && Data(p[..k+1]) <= h.str
  {
    RawWordsAt(p, k);
    DataAt(p, k);
    DataPrefix(p, k + 1);
  }

  // ----- the macros that read a packed value -----

  /** HSE_OFF: the entry before is looked at unless the entry is marked as the first. */
  function EntryOff(h: HStore, i: nat): int
    requires i < |h.entries|
  {
    if IsFirst(h.entries[i]) || i == 0 then 0 else EndPos(h.entries[i-1])
  }

  /** HSE_LEN. */
  function EntryLen(h: HStore, i: nat): int
    requires i < |h.entries|
  {
    EndPos(h.entries[i]) - EntryOff(h, i)
  }

  function KeyLen(h: HStore, k: nat): int
    requires 2 * k + 1 < |h.entries|
  {
    EntryLen(h, 2 * k)
  }

  function ValLen(h: HStore, k: nat): int
    requires 2 * k + 1 < |h.entries|
  {
    EntryLen(h, 2 * k + 1)
  }

  predicate ValIsNull(h: HStore, k: nat)
    requires 2 * k + 1 < |h.entries|
  {
    IsNull(h.entries[2*k+1])
  }

  /** HS_KEY and HS_VAL, as offsets into the buffer. */
  function KeyOff(h: HStore, k: nat): int
    requires 2 * k + 1 < |h.entries|
  {
    EntryOff(h, 2 * k)
  }

  function ValOff(h: HStore, k: nat): int
    requires 2 * k + 1 < |h.entries|
  {
    EntryOff(h, 2 * k + 1)
  }

  // ----- what they read from a packed value -----

  /** The end positions of item k, marked or not. */
  lemma PackEntries(p: seq<Pair>, k: nat)
    requires Fits(p) && k < |p|
    ensures Words(p)[2*k] == KeyWord(p[..k], p[k]) + (if k == 0 then HENTRY_ISFIRST else 0)
    ensures Words(p)[2*k+1] == ValWord(p[..k], p[k])
    ensures |Data(p[..k])| + |p[k].key| + |ValText(p[k])| <= HENTRY_POSMASK
  {
    RawWordsAt(p, k);
    DataPrefix(p, k + 1);
    assert p[..k+1][..k] == p[..k];
  }

  lemma EntryFields(pos: int, isNull: bool, first: bool)
    requires 0 <= pos <= HENTRY_POSMASK
    ensures var w := pos + (if isNull then HENTRY_ISNULL else 0) + (if first then HENTRY_ISFIRST else 0);
      EndPos(w) == pos && IsNull(w) == isNull && IsFirst(w) == first && 0 <= w < 0x1_0000_0000
  {
  }

  lemma PrefixEnd(p: seq<Pair>, k: nat)
    requires Fits(p) && 0 < k <= |p|
    ensures EndPos(Words(p)[2*k-1]) == |Data(p[..k])|
  {
    var j := k - 1;
    PackEntries(p, j);
    EntryFields(|Data(p[..j])| + |p[j].key| + |ValText(p[j])|, p[j].val.None?, false);
    assert p[..k][..j] == p[..j] && p[..k][j] == p[j];
    assert 2 * j + 1 == 2 * k - 1;
  }

  /** Reading item k of a packed value gives the item. */
  lemma PackItem(p: seq<Pair>, k: nat)
    requires Fits(p) && k < |p|
    ensures var h := Pack(p);
      && KeyOff(h, k) == |Data(p[..k])| && ValOff(h, k) == |Data(p[..k])| + |p[k].key|
      && KeyLen(h, k) == |p[k].key| && ValLen(h, k) == |ValText(p[k])|
      && (ValIsNull(h, k) <==> p[k].val.None?)
  {
    var x, n := p[k], |Data(p[..k])|;
    PackEntries(p, k);
    EntryFields(n + |x.key|, false, k == 0);
    EntryFields(n + |x.key| + |ValText(x)|, x.val.None?, false);
    if k > 0 { PrefixEnd(p, k); } else { assert p[..k] == []; }
  }

  /** The bytes before item k and those of the item begin the buffer. */
  lemma DataBegins(p: seq<Pair>, k: nat)
    requires k < |p|
    ensures Data(p[..k]) + p[k].key + ValText(p[k]) <= Data(p)
  {
    DataPrefix(p, k + 1);
    DataAt(p, k);
  }

  /** Key and value of item k lie one after the other in the buffer. */
  lemma PackBytes(p: seq<Pair>, k: nat)
    requires k < |p|
    ensures var n, x, d := |Data(p[..k])|, p[k], Data(p);
      && n + |x.key| + |ValText(x)| <= |d|
      && d[n..n+|x.key|] == x.key && d[n+|x.key|..n+|x.key|+|ValText(x)|] == ValText(x)
  {
    DataBegins(p, k);
    DataSlices(Data(p), Data(p[..k]), p[k].key, ValText(p[k]));
  }

  lemma DataSlices(d: string, a: string, k: string, v: string)
    requires a + k + v <= d
    ensures |a| + |k| + |v| <= |d| && d[|a|..|a|+|k|] == k && d[|a|+|k|..|a|+|k|+|v|] == v
  {
    assert d[..|a|+|k|+|v|] == a + k + v;
  }

  /** Item k as the macros deliver it. */
  ghost function Unpack(h: HStore, k: nat): Pair
    requires 2 * k + 1 < |h.entries|
  {
    Pair(Slice(h.str, KeyOff(h, k), KeyLen(h, k)),
         if ValIsNull(h, k) then None else Some(Slice(h.str, ValOff(h, k), ValLen(h, k))))
  }

  ghost function Slice(s: string, off: int, len: int): string {
    if 0 <= off && 0 <= len && off + len <= |s| then s[off..off+len] else []
  }

  lemma UnpackPack(p: seq<Pair>, k: nat)
    requires Fits(p) && k < |p|
    ensures Unpack(Pack(p), k) == p[k]
  {
    PackItem(p, k);
    PackBytes(p, k);
  }

  /** The packed form is injective: buffer, count and entries determine the list. */
  lemma PackInjective(p: seq<Pair>, q: seq<Pair>)
    requires Fits(p) && Fits(q) && Pack(p) == Pack(q)
    ensures p == q
  {
    forall k | 0 <= k < |p| ensures p[k] == q[k] {
      UnpackPack(p, k);
      UnpackPack(q, k);
    }
  }
}
