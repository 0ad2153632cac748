/**
 Comparison of byte strings: memcmp, and memcmp followed by the lengths, which is the
 lexicographic order with prefixes first.
 */
module Memcmp {
  /** The sign of memcmp over the shorter length; strings of any length. */
  function MemCmp(a: string, b: string): (r: int)
    ensures -1 <= r <= 1
  {
    if a == [] || b == [] then 0
    else if a[0] < b[0] then -1
    else if a[0] > b[0] then 1
    else MemCmp(a[1..], b[1..])
  }

  /** Behind a common start the first bytes that differ decide, the smaller byte being the smaller string. */
  lemma {:induction false} MemCmpMeaning(a: string, b: string, d: nat)
    requires d <= |a| && d <= |b| && a[..d] == b[..d]
    ensures d < |a| && d < |b| && a[d] != b[d] ==> MemCmp(a, b) == if a[d] < b[d] then -1 else 1
    ensures d == |a| || d == |b| ==> MemCmp(a, b) == 0
  {
    if d > 0 {
      assert a[0] == a[..d][0] == b[..d][0] == b[0];
      assert a[1..][..d-1] == a[..d][1..] && b[1..][..d-1] == b[..d][1..];
      MemCmpMeaning(a[1..], b[1..], d - 1);
    }
  }

  lemma {:induction false} MemCmpOrder(a: string, b: string)
    requires |a| == |b|
    ensures MemCmp(a, b) == 0 <==> a == b
    ensures MemCmp(b, a) == -MemCmp(a, b)
  {
    if a != [] {
      MemCmpOrder(a[1..], b[1..]);
      assert a == [a[0]] + a[1..] && b == [b[0]] + b[1..];
    }
  }

  lemma {:induction false} MemCmpTransitive(a: string, b: string, c: string)
    requires |a| == |b| == |c| && MemCmp(a, b) <= 0 && MemCmp(b, c) <= 0
    ensures MemCmp(a, c) <= 0 && (MemCmp(a, b) < 0 || MemCmp(b, c) < 0 ==> MemCmp(a, c) < 0)
  {
    if a != [] && a[0] == b[0] == c[0] { MemCmpTransitive(a[1..], b[1..], c[1..]); }
  }

  type Comparer = (string, string) -> int

  /** C promises the sign of memcmp only. */
  ghost predicate IsMemcmp(mc: Comparer) { forall a, b :: Sign(mc(a, b), 0) == MemCmp(a, b) }

  /** The difference of two bytes, at most. */
  ghost predicate ByteSized(mc: Comparer) { forall a, b :: -255 <= mc(a, b) <= 255 }

  function Sign(a: int, b: int): int { if a > b then 1 else if a < b then -1 else 0 }

  /** memcmp over the shorter length, then the lengths. */
  function BufferCmp(a: string, b: string): int {
    if MemCmp(a, b) != 0 then MemCmp(a, b) else Sign(|a|, |b|)
  }

  /** The same with the lengths: what goes on behind the end of the other is the greater. */
  lemma BufferMeaning(a: string, b: string, d: nat)
    requires d <= |a| && d <= |b| && a[..d] == b[..d]
    ensures d < |a| && d < |b| && a[d] != b[d] ==> BufferCmp(a, b) == if a[d] < b[d] then -1 else 1
    ensures d == |a| < |b| ==> BufferCmp(a, b) == -1
    ensures d == |b| < |a| ==> BufferCmp(a, b) == 1
  {
    MemCmpMeaning(a, b, d);
  }

  lemma BufferStep(a: string, b: string)
    requires a != [] && b != []
    ensures BufferCmp(a, b) == if a[0] < b[0] then -1 else if a[0] > b[0] then 1 else BufferCmp(a[1..], b[1..])
  {
  }

  lemma {:induction false} BufferOrder(a: string, b: string)
    ensures BufferCmp(b, a) == -BufferCmp(a, b) && (BufferCmp(a, b) == 0 <==> a == b)
  {
    if a != [] && b != [] {
      BufferStep(a, b);
      BufferStep(b, a);
      BufferOrder(a[1..], b[1..]);
      assert a == [a[0]] + a[1..] && b == [b[0]] + b[1..];
    }
  }

  lemma {:induction false} BufferTransitive(a: string, b: string, c: string)
    requires BufferCmp(a, b) <= 0 && BufferCmp(b, c) <= 0
    ensures BufferCmp(a, c) <= 0 && (BufferCmp(a, c) == 0 ==> BufferCmp(a, b) == 0 && BufferCmp(b, c) == 0)
  {
    if a != [] && b != [] && c != [] {
      BufferStep(a, b);
      BufferStep(b, c);
      BufferStep(a, c);
      if a[0] == b[0] == c[0] { BufferTransitive(a[1..], b[1..], c[1..]); }
    }
  }

  lemma {:induction false} MemCmpShorter(a: string, b: string, m: nat)
    requires m <= |a| && m <= |b| && (m == |a| || m == |b|)
    ensures MemCmp(a[..m], b[..m]) == MemCmp(a, b)
  {
    if m > 0 {
      MemCmpShorter(a[1..], b[1..], m - 1);
      assert a[..m][1..] == a[1..][..m-1] && b[..m][1..] == b[1..][..m-1];
    }
  }
}
