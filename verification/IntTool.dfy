/** Sorted integer arrays: _int_tool.c. */
module IntTool {
  ghost predicate Ascending(s: seq<int>) {
    forall i, j :: 0 <= i < j < |s| ==> s[i] <= s[j]
  }

  /** Sorted and free of duplicates. */
  ghost predicate Strict(s: seq<int>) {
    forall i, j :: 0 <= i < j < |s| ==> s[i] < s[j]
  }

  ghost predicate SameElements(s: seq<int>, t: seq<int>) {
    forall x :: x in s <==> x in t
  }

  ghost predicate HasDuplicate(m: multiset<int>) {
    exists x :: m[x] >= 2
  }

  /** Insertion sort in place (of two elements at least); tells whether any duplicates were found. */
  method ISort(a: array<int>) returns (r: bool)
    requires a.Length >= 2
    modifies a
    ensures Ascending(a[..]) && multiset(a[..]) == multiset(old(a[..]))
    ensures r <==> HasDuplicate(multiset(a[..]))
  {
    r := false;
    var pcur := 1;
    assert a[..1] == [a[0]];
    assert !HasDuplicate(multiset([a[0]]));
    while pcur < a.Length
      invariant 1 <= pcur <= a.Length
      invariant Ascending(a[..pcur])
      invariant r <==> HasDuplicate(multiset(a[..pcur]))
      invariant multiset(a[..]) == multiset(old(a[..]))
    {
      var equal := SortStep(a, pcur);
      if equal { r := true; }
      pcur := pcur + 1;
    }
    assert a[..pcur] == a[..];
  }

  method SortStep(a: array<int>, pcur: nat) returns (equal: bool)
    requires 0 < pcur < a.Length && Ascending(a[..pcur])
    modifies a
    ensures Ascending(a[..pcur+1]) && multiset(a[..]) == multiset(old(a[..]))
    ensures HasDuplicate(multiset(a[..pcur+1])) <==> equal || HasDuplicate(multiset(old(a[..pcur])))
  {
    ghost var s := a[..];
    assert s[..pcur] == a[..pcur];
    var pprev;
    pprev, equal := Insert(a, pcur);
    Inserted(s, pcur, pprev + 1, a[..]);
    assert a[..][..pcur+1] == a[..pcur+1];
  }

  /** The inner loop: move a[pcur] down to its place behind the elements not above it. */
  method Insert(a: array<int>, pcur: nat) returns (pprev: int, equal: bool)
    requires 0 < pcur < a.Length && Ascending(a[..pcur])
    modifies a
    ensures -1 <= pprev < pcur
    ensures a[..] == old(a[..pprev+1] + [a[pcur]] + a[pprev+1..pcur] + a[pcur+1..])
    ensures forall k :: 0 <= k <= pprev ==> old(a[k]) <= old(a[pcur])
    ensures forall k :: pprev < k < pcur ==> old(a[k]) > old(a[pcur])
    ensures equal <==> old(a[pcur] in a[..pcur])
  {
    var cur := a[pcur];
    ghost var s := a[..];
    equal := false;
    pprev := pcur - 1;
    while pprev >= 0
      invariant Hole(s, a[..], pprev, pcur) && !equal
      invariant forall k {:trigger s[k]} :: pprev < k < pcur ==> s[k] > cur
    {
      var prev := a[pprev];
      if prev <= cur {
        if prev == cur { equal := true; }
        break;
      }
      HoleStep(s, a[..], pprev, pcur);
      a[pprev+1] := prev;
      pprev := pprev - 1;
    }
    HoleFilled(s, a[..], pprev, pcur);
    a[pprev+1] := cur;
    NotAbove(s[..pcur], pprev, cur);
  }

  /** The elements after p, up to n, have moved up by one. */
  ghost predicate Hole(s: seq<int>, t: seq<int>, p: int, n: int) {
    && -1 <= p < n < |s| == |t|
    && (forall k {:trigger t[k]} :: 0 <= k < |s| && (k <= p || n < k) ==> t[k] == s[k])
    && (forall k {:trigger t[k]} :: p + 1 < k <= n ==> t[k] == s[k-1])
  }

  lemma HoleStep(s: seq<int>, t: seq<int>, p: int, n: int)
    requires Hole(s, t, p, n) && 0 <= p
    ensures Hole(s, t[p+1 := t[p]], p - 1, n)
  {
  }

  lemma HoleFilled(s: seq<int>, t: seq<int>, p: int, n: int)
    requires Hole(s, t, p, n)
    ensures t[p+1 := s[n]] == s[..p+1] + [s[n]] + s[p+1..n] + s[n+1..]
  {
  }

  lemma NotAbove(t: seq<int>, p: int, cur: int)
    requires Ascending(t) && -1 <= p < |t| && (p >= 0 ==> t[p] <= cur)
    requires forall k :: p < k < |t| ==> t[k] > cur
    ensures forall k :: 0 <= k <= p ==> t[k] <= cur
    ensures cur in t <==> p >= 0 && t[p] == cur
  {
  }

  lemma Inserted(s: seq<int>, n: nat, p: nat, t: seq<int>)
    requires p <= n < |s| && t == s[..p] + [s[n]] + s[p..n] + s[n+1..]
    requires Ascending(s[..n])
    requires forall k :: 0 <= k < p ==> s[k] <= s[n]
    requires forall k :: p <= k < n ==> s[k] > s[n]
    ensures Ascending(t[..n+1]) && multiset(t) == multiset(s)
    ensures HasDuplicate(multiset(t[..n+1])) <==> HasDuplicate(multiset(s[..n])) || s[n] in s[..n]
  {
    var u, front := t[..n+1], s[..n];
    assert u == s[..p] + [s[n]] + s[p..n];
    InsertedSorted(front, s[n], p, u);
    assert front == s[..p] + s[p..n];
    assert multiset(u) == multiset(front) + multiset{s[n]};
    assert t == u + s[n+1..] && s == front + [s[n]] + s[n+1..];
    OneMore(front, s[n], multiset(u));
  }

  lemma InsertedSorted(front: seq<int>, cur: int, p: nat, u: seq<int>)
    requires p <= |front| && u == front[..p] + [cur] + front[p..]
    requires Ascending(front)
    requires forall k :: 0 <= k < p ==> front[k] <= cur
    requires forall k :: p <= k < |front| ==> front[k] > cur
    ensures Ascending(u)
  {
  }

  lemma OneMore(front: seq<int>, cur: int, m: multiset<int>)
    requires m == multiset(front) + multiset{cur}
    ensures HasDuplicate(m) <==> HasDuplicate(multiset(front)) || cur in front
  {
    var base := multiset(front);
    if HasDuplicate(base) { var x :| base[x] >= 2; assert m[x] >= 2; }
    if cur in front { assert base[cur] >= 1 && m[cur] >= 2; }
    if HasDuplicate(m) { var x :| m[x] >= 2; assert x != cur ==> base[x] >= 2; }
  }

  /** Remove duplicates in place; the result is the first num elements. */
  method IntUnique(r: array<int>) returns (num: nat)
    requires Ascending(r[..])
    modifies r
    ensures num <= r.Length && Strict(r[..num]) && SameElements(r[..num], old(r[..]))
  {
    if r.Length < 2 { assert r[..r.Length] == r[..]; return r.Length; }
    var tmp, dr := 0, 0;
    ghost var s := r[..];
    while tmp < r.Length
      invariant Compact(s, r[..], tmp, dr)
      decreases r.Length - tmp
    {
      CompactStep(s, r[..], tmp, dr);
      if r[tmp] != r[dr] {
        dr := dr + 1;
        r[dr] := r[tmp];
      }
      tmp := tmp + 1;
    }
    num := dr + 1;
    KeptDistinct(s, tmp);
    assert s[..tmp] == s && r[..num] == r[..][..num];
  }

  /** t starts with what is kept of the first n elements of s, and has the others in place. */
  ghost predicate Compact(s: seq<int>, t: seq<int>, n: int, dr: int) {
    && |s| == |t| && 0 <= dr <= n <= |s| && dr < |s| && (n == 0 ==> dr == 0)
    && t[..dr+1] == Kept(s, n) && t[n..] == s[n..]
  }

  lemma CompactStep(s: seq<int>, t: seq<int>, n: int, dr: int)
    requires Compact(s, t, n, dr) && n < |s|
    ensures t[n] == t[dr] ==> Compact(s, t, n + 1, dr)
    ensures t[n] != t[dr] ==> dr + 1 < |s| && Compact(s, t[dr+1 := t[n]], n + 1, dr + 1)
  {
    var u := t[..dr+1];
    assert u[dr] == t[dr] && t[n] == t[n..][0] == s[n..][0] == s[n];
    assert t[n+1..] == t[n..][1..] && s[n+1..] == s[n..][1..];
    if t[n] != t[dr] {
      assert t[dr+1 := t[n]][..dr+2] == u + [t[n]];
      assert t[dr+1 := t[n]][n+1..] == t[n+1..];
    }
  }

  /** What is kept of the first n elements (of the first one, if n is 0). */
  ghost function Kept(s: seq<int>, n: nat): (u: seq<int>)
    requires s != [] && n <= |s|
    ensures u != []
  {
    if n == 0 then [s[0]]
    else
      var u := Kept(s, n - 1);
      if s[n-1] != u[|u|-1] then u + [s[n-1]] else u
  }

  lemma {:induction false} KeptDistinct(s: seq<int>, n: nat)
    requires Ascending(s) && s != [] && n <= |s|
    ensures var u := Kept(s, n);
      Strict(u) && u[|u|-1] == s[if n == 0 then 0 else n - 1] && (n > 0 ==> SameElements(u, s[..n]))
  {
    if n > 0 {
      KeptDistinct(s, n - 1);
      assert s[..n] == s[..n-1] + [s[n-1]];
    }
  }

  /** PREPAREARR: sort, and remove duplicates if there were any. */
  method PrepareArr(x: array<int>) returns (num: nat)
    modifies x
    ensures num <= x.Length && Strict(x[..num]) && SameElements(x[..num], old(x[..]))
  {
    num := x.Length;
    if x.Length > 1 {
      var dups := ISort(x);
      assert SameElements(x[..], old(x[..])) by {
        assert forall v :: v in x[..] <==> v in multiset(x[..]);
        assert forall v :: v in old(x[..]) <==> v in multiset(old(x[..]));
      }
      if dups {
        num := IntUnique(x);
      } else {
        NoDuplicates(x[..]);
      }
    }
    assert x[..x.Length] == x[..];
  }

  lemma NoDuplicates(s: seq<int>)
    requires Ascending(s) && !HasDuplicate(multiset(s))
    ensures Strict(s)
  {
    forall i, j | 0 <= i < j < |s| ensures s[i] < s[j] {
      if s[i] == s[j] { TwoEqual(s, i, j); }
    }
  }

  lemma TwoEqual(s: seq<int>, i: nat, j: nat)
    requires i < j < |s| && s[i] == s[j]
    ensures HasDuplicate(multiset(s))
  {
    assert s == s[..i] + [s[i]] + s[i+1..j] + [s[j]] + s[j+1..];
    assert multiset(s)[s[i]] >= 2;
  }

  /** Does a hold every element of b? */
  method InnerIntContains(a: seq<int>, b: seq<int>) returns (r: bool)
    requires Strict(a) && Strict(b)
    ensures r <==> forall x :: x in b ==> x in a
  {
    var i, j, n := 0, 0, 0;
    while i < |a| && j < |b|
      invariant 0 <= i <= |a| && 0 <= j == n <= |b|
      invariant forall k :: 0 <= k < j ==> b[k] in a
      invariant forall k :: 0 <= k < i && j < |b| ==> a[k] < b[j]
      decreases |a| - i
    {
      if a[i] < b[j] {
        i := i + 1;
      } else if a[i] == b[j] {
        n := n + 1;
        i := i + 1;
        j := j + 1;
      } else {
        break;
      }
    }
    assert j < |b| ==> b[j] !in a;
    r := n == |b|;
  }

  /** Do a and b share an element? */
  method InnerIntOverlap(a: seq<int>, b: seq<int>) returns (r: bool)
    requires Ascending(a) && Ascending(b)
    ensures r <==> exists x :: x in a && x in b
  {
    var i, j := 0, 0;
    while i < |a| && j < |b|
      invariant 0 <= i <= |a| && 0 <= j <= |b|
      invariant forall k, l :: 0 <= k < |a| && 0 <= l < |b| && (k < i || l < j) ==> a[k] != b[l]
      decreases |a| - i + |b| - j
    {
      if a[i] < b[j] {
        i := i + 1;
      } else if a[i] == b[j] {
        assert a[i] in a && a[i] in b;
        return true;
      } else {
        j := j + 1;
      }
    }
    r := false;
  }

  /** Two-index merge of a and b, then duplicates removed. */
  method InnerIntUnion(a: seq<int>, b: seq<int>) returns (r: seq<int>)
    requires Ascending(a) && Ascending(b)
    ensures Strict(r) && forall x :: x in r <==> x in a || x in b
  {
    var out: array<int>;
    if |a| == 0 && |b| == 0 {
      return [];
    } else if |a| == 0 {
      out := new int[|b|](k requires 0 <= k < |b| => b[k]);
      assert out[..] == b;
    } else if |b| == 0 {
      out := new int[|a|](k requires 0 <= k < |a| => a[k]);
      assert out[..] == a;
    } else {
      out := Merge(a, b);
    }
    var num := out.Length;
    if out.Length > 1 {
      num := IntUnique(out);
    }
    assert out[..out.Length] == out[..];
    r := out[..num];
  }

  method Merge(a: seq<int>, b: seq<int>) returns (r: array<int>)
    requires Ascending(a) && Ascending(b)
    ensures fresh(r) && Ascending(r[..]) && forall x :: x in r[..] <==> x in a || x in b
  {
    var buf := new int[|a| + |b|];
    var i, j, dr := MergeBoth(a, b, buf);
    dr := MergeRest(a, b, buf, i, j, dr);
    MergeDone(a, b, buf[..dr]);
    r := new int[dr](k requires 0 <= k < dr reads buf => buf[k]);
    assert r[..] == buf[..dr];
  }

  /** The loop that runs while both arrays last. */
  method MergeBoth(a: seq<int>, b: seq<int>, buf: array<int>) returns (i: nat, j: nat, dr: nat)
    requires Ascending(a) && Ascending(b) && buf.Length == |a| + |b|
    modifies buf
    ensures i <= |a| && j <= |b| && dr <= i + j && (i == |a| || j == |b|) && Merged(a, b, i, j, buf[..dr])
  {
    i, j, dr := 0, 0, 0;
    while i < |a| && j < |b|
      invariant i <= |a| && j <= |b| && dr <= i + j
      invariant Merged(a, b, i, j, buf[..dr])
    {
      MergeStep(a, b, i, j, buf[..dr]);
      ghost var before := buf[..dr];
      if a[i] == b[j] {
        buf[dr] := a[i];
        i := i + 1;
        j := j + 1;
      } else if a[i] < b[j] {
        buf[dr] := a[i];
        i := i + 1;
      } else {
        buf[dr] := b[j];
        j := j + 1;
      }
      dr := dr + 1;
      assert buf[..dr] == before + [buf[dr-1]];
    }
  }

  /** The loops that copy what is left of one of them. */
  method MergeRest(a: seq<int>, b: seq<int>, buf: array<int>, i0: nat, j0: nat, dr0: nat) returns (dr: nat)
    requires Ascending(a) && Ascending(b) && buf.Length == |a| + |b|
    requires i0 <= |a| && j0 <= |b| && dr0 <= i0 + j0 && (i0 == |a| || j0 == |b|) && Merged(a, b, i0, j0, buf[..dr0])
    modifies buf
    ensures dr <= buf.Length && Merged(a, b, |a|, |b|, buf[..dr])
  {
    var i, j := i0, j0;
    dr := dr0;
    while i < |a|
      invariant i <= |a| && j <= |b| && dr <= i + j && (i == |a| || j == |b|)
      invariant Merged(a, b, i, j, buf[..dr])
    {
      MergeStep(a, b, i, j, buf[..dr]);
      ghost var before := buf[..dr];
      buf[dr] := a[i];
      i := i + 1;
      dr := dr + 1;
      assert buf[..dr] == before + [buf[dr-1]];
    }
    while j < |b|
      invariant i == |a| && j <= |b| && dr <= i + j
      invariant Merged(a, b, i, j, buf[..dr])
    {
      MergeStep(a, b, i, j, buf[..dr]);
      ghost var before := buf[..dr];
      buf[dr] := b[j];
      j := j + 1;
      dr := dr + 1;
      assert buf[..dr] == before + [buf[dr-1]];
    }
  }

  lemma MergeDone(a: seq<int>, b: seq<int>, s: seq<int>)
    requires Merged(a, b, |a|, |b|, s)
    ensures Ascending(s) && forall x :: x in s <==> x in a || x in b
  {
    assert a[..|a|] == a && b[..|b|] == b;
  }

  /** s is sorted, holds the first i of a and j of b and no more, and nothing above what is still to come. */
  ghost predicate Merged(a: seq<int>, b: seq<int>, i: nat, j: nat, s: seq<int>)
    requires i <= |a| && j <= |b|
  {
    && Ascending(s)
    && (forall x :: x in s <==> x in a[..i] || x in b[..j])
    && (forall x :: x in s ==> (i < |a| ==> x <= a[i]) && (j < |b| ==> x <= b[j]))
  }

  lemma MergeStep(a: seq<int>, b: seq<int>, i: nat, j: nat, s: seq<int>)
    requires i <= |a| && j <= |b| && Ascending(a) && Ascending(b) && Merged(a, b, i, j, s)
    ensures i < |a| && j < |b| && a[i] == b[j] ==> Merged(a, b, i + 1, j + 1, s + [a[i]])
    ensures i < |a| && (j < |b| ==> a[i] < b[j]) ==> Merged(a, b, i + 1, j, s + [a[i]])
    ensures j < |b| && (i < |a| ==> b[j] < a[i]) ==> Merged(a, b, i, j + 1, s + [b[j]])
  {
    assert forall k :: 0 <= k < |s| ==> s[k] in s;
    if i < |a| {
      assert a[..i+1] == a[..i] + [a[i]];
      assert forall x :: x in s + [a[i]] <==> x in s || x == a[i];
    }
    if j < |b| {
      assert b[..j+1] == b[..j] + [b[j]];
      assert forall x :: x in s + [b[j]] <==> x in s || x == b[j];
    }
  }
}
