/** Byte buffers and the C library's view of them. */
module Bytes {
  import opened Options

  type U8 = b: int | 0 <= b < 256

  const NUL8: U8 := 0
  const SPACE: U8 := 32
  const QUOTE: U8 := 34
  const MINUS: U8 := 45
  const ZERO: U8 := 48

  /** `c` is not among the bytes from `i` up to `n`. */
  ghost predicate Without(b: seq<U8>, c: U8, i: nat, n: nat)
    requires n <= |b|
  {
    forall k | i <= k < n :: b[k] != c
  }

  /** A C string begins at `i`. */
  ghost predicate Terminated(b: seq<U8>, i: nat) {
    exists n | i <= n < |b| :: b[n] == NUL8
  }

  /** Where the C string at `i` ends. */
  function StrEnd(b: seq<U8>, i: nat): (n: nat)
    requires Terminated(b, i)
    ensures i <= n < |b| && b[n] == NUL8 && Without(b, NUL8, i, n)
    decreases |b| - i
  {
    if b[i] == NUL8 then i else StrEnd(b, i + 1)
  }

  /** The C string at `i`. */
  function CString(b: seq<U8>, i: nat): seq<U8>
    requires Terminated(b, i)
  {
    b[i..StrEnd(b, i)]
  }

  /** `strchr` for a character other than NUL. */
  function StrChr(b: seq<U8>, i: nat, c: U8): (r: Option<nat>)
    requires Terminated(b, i) && c != NUL8
    ensures r.Some? ==> i <= r.value < StrEnd(b, i) && b[r.value] == c && Without(b, c, i, r.value)
    ensures r == None ==> Without(b, c, i, StrEnd(b, i))
    decreases |b| - i
  {
    if b[i] == c then Some(i) else if b[i] == NUL8 then None else StrChr(b, i + 1, c)
  }

  lemma StrEndIs(b: seq<U8>, i: nat, n: nat)
    requires i <= n < |b| && b[n] == NUL8 && Without(b, NUL8, i, n)
    ensures Terminated(b, i) && StrEnd(b, i) == n
  {
  }

  lemma StrChrIs(b: seq<U8>, i: nat, c: U8, r: nat)
    requires Terminated(b, i) && c != NUL8 && i <= r < StrEnd(b, i) && b[r] == c && Without(b, c, i, r)
    ensures StrChr(b, i, c) == Some(r)
  {
  }

  /** Writing behind a C string leaves it alone. */
  lemma CStringKept(b: seq<U8>, b': seq<U8>, i: nat, pos: nat)
    requires Terminated(b, i) && StrEnd(b, i) < pos <= |b| == |b'|
    requires forall k | i <= k < pos :: b'[k] == b[k]
    ensures Terminated(b', i) && CString(b', i) == CString(b, i) && StrEnd(b', i) == StrEnd(b, i)
  {
    StrEndIs(b', i, StrEnd(b, i));
  }

  /** `memcpy` */
  method Copy(buf: array<U8>, p: nat, t: seq<U8>)
    requires p + |t| <= buf.Length
    modifies buf
    ensures buf[..p + |t|] == old(buf[..p]) + t
    ensures forall k | p + |t| <= k < buf.Length :: buf[k] == old(buf[k])
  {
    var k := 0;
    while k < |t|
      invariant 0 <= k <= |t|
      invariant buf[..p + k] == old(buf[..p]) + t[..k]
      invariant forall j | p + k <= j < buf.Length :: buf[j] == old(buf[j])
    {
      buf[p + k] := t[k];
      k := k + 1;
    }
  }
}
