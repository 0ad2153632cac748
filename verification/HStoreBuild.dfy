/**
 Writing a packed value into freshly allocated memory: HS_COPYITEM, HS_ADDITEM and
 HS_FINALIZE.  The entries grow upwards from the header; the string buffer begins behind
 the space reserved for room entries, and HS_FINALIZE moves it down if fewer were used.
 */
module HStoreBuild {
  import opened HStorePairs
  import opened HStoreLayout

  // ----- copying -----

  /** memcpy of len bytes of src, starting at soff, to off. */
  method CopyBytes(mem: array<Cell>, off: nat, src: string, soff: nat, len: nat)
    requires off + len <= mem.Length && soff + len <= |src|
    modifies mem
    ensures forall n {:trigger mem[n]} :: 0 <= n < mem.Length ==>
      mem[n] == if off <= n < off + len then Text(src[soff+n-off]) else old(mem[n])
  {
    var k := 0;
    while k < len
      invariant 0 <= k <= len
      invariant forall n {:trigger mem[n]} :: 0 <= n < mem.Length ==>
        mem[n] == if off <= n < off + k then Text(src[soff+n-off]) else old(mem[n])
    {
      mem[off+k] := Text(src[soff+k]);
      k := k + 1;
    }
  }

  /** memmove of len cells to a place no higher; the two stretches may overlap. */
  method MoveDown(mem: array<Cell>, to: nat, from: nat, len: nat)
    requires to <= from && from + len <= mem.Length
    modifies mem
    ensures forall n {:trigger mem[n]} :: 0 <= n < to + len ==>
      mem[n] == if n < to then old(mem[n]) else old(mem[n+from-to])
  {
    var k := 0;
    while k < len
      invariant 0 <= k <= len
      invariant forall n {:trigger mem[n]} :: 0 <= n < to + k ==>
        mem[n] == if n < to then old(mem[n]) else old(mem[n+from-to])
      invariant forall n {:trigger mem[n]} :: from + k <= n < mem.Length ==> mem[n] == old(mem[n])
    {
      mem[to+k] := mem[from+k];
      k := k + 1;
    }
  }

  // ----- the memory while it is being filled -----

  /** The count word, the entries so far, unused space, the buffer so far. */
  ghost predicate Region(m: seq<Cell>, head: int, ws: seq<int>, ds: string, ed: nat, bufd: nat, pd: nat) {
    && ed == 2 + |ws| <= bufd && pd == bufd + |ds| <= |m|
    && m[1] == Word(head) && WordsAt(m, 2, ws) && TextAt(m, bufd, ds)
  }

  lemma FirstEntry(m: seq<Cell>, head: int, ws: seq<int>, ds: string, ed: nat, bufd: nat, pd: nat, w: int)
    requires Region(m, head, ws, ds, ed, bufd, pd) && ws != []
    ensures m[2] == Word(ws[0]) && Region(m[2 := Word(w)], head, ws[0 := w], ds, ed, bufd, pd)
  {
  }

  /** The words and the buffer of the items written so far. */
  ghost predicate Holds(items: seq<Pair>, ws: seq<int>, ds: string) {
    ws == RawWords(items) && ds == Data(items)
  }

  /** The two entries of an item whose key ends at k and whose value ends at v. */
  ghost function EntryPair(k: int, v: int, vnull: bool): seq<int> {
    [EndPos(k), EndPos(v) + if vnull then HENTRY_ISNULL else 0]
  }

  lemma HoldsNext(items: seq<Pair>, x: Pair, ws: seq<int>, ds: string)
    requires Holds(items, ws, ds) && Fits(items + [x])
    ensures Holds(items + [x], ws + EntryPair(|ds| + |x.key|, |ds| + |x.key| + |ValText(x)|, x.val.None?),
                  ds + (x.key + ValText(x)))
  {
    ghost var more := items + [x];
    assert more[..|items|] == items && more[|items|] == x;
    assert |Data(more)| == |ds| + |x.key| + |ValText(x)|;
  }

  lemma StaysFit(items: seq<Pair>, x: Pair)
    requires |items| < HS_COUNTMASK && |Data(items)| + |x.key| + |ValText(x)| <= HENTRY_POSMASK
    ensures Fits(items + [x])
  {
    assert (items + [x])[..|items|] == items;
  }

  /** The items so far have their words, their bytes and their place. */
  ghost predicate Filling(items: seq<Pair>, ws: seq<int>, ds: string, room: nat, bufd: nat) {
    |items| <= room <= HS_COUNTMASK && bufd == 2 + 2 * room && Fits(items) && Holds(items, ws, ds)
  }

  lemma FillingNext(items: seq<Pair>, x: Pair, ws: seq<int>, ds: string, room: nat, bufd: nat)
    requires Filling(items, ws, ds, room, bufd) && |items| < room && |ds| + |x.key| + |ValText(x)| <= HENTRY_POSMASK
    ensures |ws| == 2 * |items|
    ensures Filling(items + [x], ws + EntryPair(|ds| + |x.key|, |ds| + |x.key| + |ValText(x)|, x.val.None?),
                    ds + (x.key + ValText(x)), room, bufd)
  {
    StaysFit(items, x);
    HoldsNext(items, x, ws, ds);
  }

  lemma FirstKeyWord(items: seq<Pair>)
    requires items != [] && Fits(items)
    ensures 0 <= RawWords(items)[0] <= HENTRY_POSMASK
  {
    RawWordsAt(items, 0);
    PackEntries(items, 0);
  }

  lemma MarkedWords(items: seq<Pair>, ws: seq<int>)
    requires ws == RawWords(items) && Fits(items)
    ensures items == [] ==> ws == Words(items)
    ensures items != [] ==> ws != [] && 0 <= ws[0] <= HENTRY_POSMASK && Words(items) == ws[0 := ws[0] + HENTRY_ISFIRST]
  {
    if items != [] { FirstKeyWord(items); }
  }

  class Builder {
    const mem: array<Cell>
    const bufd: nat
    var ed: nat
    var pd: nat
    ghost const room: nat
    ghost var ws: seq<int>
    ghost var ds: string
    ghost var items: seq<Pair>

    /** The memory holds the given entries and buffer. */
    ghost predicate Open()
      reads this, mem
    {
      Region(mem[..], room + HS_FLAG_NEWVERSION, ws, ds, ed, bufd, pd)
    }

    /** Moreover they are those of the items written so far, and every item has its place. */
    ghost predicate Valid()
      reads this, mem
    {
      Open() && Filling(items, ws, ds, room, bufd)
    }

    /** palloc of count items and len bytes, HS_SETCOUNT(out, count), and the pointers into it. */
    constructor (count: nat, len: nat)
      requires count <= HS_COUNTMASK
      ensures Valid() && fresh(mem) && items == [] && room == count && mem.Length == 2 + 2 * count + len
    {
      var m := new Cell[2 + 2 * count + len](_ => Word(0));
      mem := m;
      room := count;
      bufd, ed, pd := 2 + 2 * count, 2, 2 + 2 * count;
      ws, ds, items := [], [], [];
      new;
      mem[0] := Word(CalcDataSize(count, len));
      mem[1] := Word(count + HS_FLAG_NEWVERSION);
    }

    /** memcpy to the end of the buffer. */
    method Append(src: string, soff: nat, len: nat)
      requires Open() && soff + len <= |src| && pd + len <= mem.Length
      modifies this`pd, this`ds, mem
      ensures Open() && ds == old(ds) + src[soff..soff+len] && pd == old(pd) + len
    {
      CopyBytes(mem, pd, src, soff, len);
      pd, ds := pd + len, ds + src[soff..soff+len];
    }

    /** The two stores (dent_)++->entry = ... of an item whose key ends at k. */
    method StorePair(k: nat, vnull: bool)
      requires Open() && ed + 2 <= bufd
      modifies this`ed, this`ws, mem
      ensures Open() && ws == old(ws) + EntryPair(k, pd - bufd, vnull) && ed == old(ed) + 2
    {
      mem[ed] := Word(EndPos(k));
      mem[ed+1] := Word(EndPos(pd - bufd) + if vnull then HENTRY_ISNULL else 0);
      ws := ws + EntryPair(k, pd - bufd, vnull);
      ed := ed + 2;
    }

    /** HS_COPYITEM: key and value lie one after the other at soff in the source buffer. */
    method CopyItem(src: string, soff: nat, klen: nat, vlen: nat, vnull: bool, ghost x: Pair)
      requires Valid() && |items| < room && pd - bufd + klen + vlen <= HENTRY_POSMASK
      requires klen == |x.key| && vlen == |ValText(x)| && vnull == x.val.None?
      requires soff + klen + vlen <= |src| && src[soff..soff+klen+vlen] == x.key + ValText(x)
      requires pd + klen + vlen <= mem.Length
      modifies this, mem
      ensures Valid() && items == old(items) + [x] && pd == old(pd) + klen + vlen
    {
      FillingNext(items, x, ws, ds, room, bufd);
      Append(src, soff, klen + vlen);
      StorePair(pd - bufd - vlen, vnull);
      items := items + [x];
    }

    /** The bytes of HS_ADDITEM; a null value is not copied. */
    method AppendPair(key: string, val: Option<string>) returns (k: nat)
      requires Open() && pd + |key| + |ValText(Pair(key, val))| <= mem.Length
      modifies this`pd, this`ds, mem
      ensures Open() && ds == old(ds) + (key + ValText(Pair(key, val))) && k == |old(ds)| + |key|
      ensures pd == old(pd) + |key| + |ValText(Pair(key, val))|
    {
      ghost var d := ds;
      Append(key, 0, |key|);
      k := pd - bufd;
      if val.Some? {
        Append(val.value, 0, |val.value|);
        assert ds == d + (key + val.value);
      }
    }

    /** HS_ADDITEM: key and value come from different places. */
    method AddItem(key: string, val: Option<string>)
      requires Valid() && |items| < room && pd - bufd + |key| + |ValText(Pair(key, val))| <= HENTRY_POSMASK
      requires pd + |key| + |ValText(Pair(key, val))| <= mem.Length
      modifies this, mem
      ensures Valid() && items == old(items) + [Pair(key, val)] && pd == old(pd) + |key| + |ValText(Pair(key, val))|
    {
      FillingNext(items, Pair(key, val), ws, ds, room, bufd);
      var k := AppendPair(key, val);
      StorePair(k, val.None?);
      items := items + [Pair(key, val)];
    }

    /** ARRPTR(hsp_)[0].entry |= HENTRY_ISFIRST, if there is an item. */
    method MarkFirst(count: nat)
      requires Valid() && count == |items|
      modifies this`ws, mem
      ensures Open() && ws == Words(items)
    {
      MarkedWords(items, ws);
      if count != 0 { SetFirst(); }
    }

    method SetFirst()
      requires Open() && ws != [] && 0 <= ws[0] <= HENTRY_POSMASK
      modifies this`ws, mem
      ensures Open() && ws == old(ws)[0 := old(ws[0]) + HENTRY_ISFIRST]
    {
      FirstEntry(mem[..], room + HS_FLAG_NEWVERSION, ws, ds, ed, bufd, pd, ws[0] + HENTRY_ISFIRST);
      var w := mem[2].w;
      mem[2] := Word(if IsFirst(w) then w else w + HENTRY_ISFIRST);
      ws := ws[0 := w + HENTRY_ISFIRST];
    }

    /** HS_SETCOUNT and the memmove to the new STRPTR, if fewer items than planned were written. */
    method CloseUp(count: nat)
      requires Open() && |ws| == 2 * count && count <= room <= HS_COUNTMASK && bufd == 2 + 2 * room
      modifies mem
      ensures Region(mem[..], count + HS_FLAG_NEWVERSION, ws, ds, ed, ed, ed + |ds|)
    {
      var buflen := pd - bufd;
      if count != mem[1].w - HS_FLAG_NEWVERSION {
        mem[1] := Word(count + HS_FLAG_NEWVERSION);
        MoveDown(mem, 2 + 2 * count, bufd, buflen);
      }
    }

    /** HS_FINALIZE: whatever room was reserved, the memory now holds exactly the packed items. */
    method Finalize(count: nat)
      requires Valid() && count == |items|
      modifies this, mem
      ensures Stored(mem[..], Pack(items)) && items == old(items)
    {
      var buflen := pd - bufd;
      MarkFirst(count);
      CloseUp(count);
      mem[0] := Word(CalcDataSize(count, buflen));
    }
  }
}
