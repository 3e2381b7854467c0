/** The text reader, case by case: what it makes of every text, in characters. Between them the cases
    cover all texts: 32 is the space, 34 the quote. */
module TextCases {
  import opened Options
  import opened Bytes
  import opened Arguments
  import opened TextReader
  import opened TextCodec

  function Spaces(n: nat): seq<U8> {
    seq(n, _ => 32)
  }

  /** An argument was found: the C string `w` at `begin`, with the reader behind it at `src`. */
  ghost predicate Finds(n: Next, begin: nat, w: seq<U8>, src: Option<nat>) {
    && n.ok && n.src == src && n.begin == begin
    && Terminated(n.b, begin) && CString(n.b, begin) == w
  }

  /** No argument was found, and nothing was written. */
  ghost predicate Nothing(n: Next, b: seq<U8>, begin: nat, src: Option<nat>) {
    !n.ok && n.b == b && n.begin == begin && n.src == src
  }

  lemma HoldingNoNul(b: seq<U8>, i: nat, t: seq<U8>)
    requires Holding(b, i, t)
    ensures NoNul(t)
  {
  }

  lemma SplitAt(b: seq<U8>, i: nat, u: seq<U8>, v: seq<U8>)
    requires Holding(b, i, u + v)
    ensures forall k | 0 <= k < |u| :: b[i + k] == u[k]
    ensures Holding(b, i + |u|, v)
  {
    HoldingDrop(b, i, u, v);
  }

  /** The last word, if it does not begin with a quote, is handed over as it is; nothing is left. */
  lemma LastWord(b: seq<U8>, i: nat, w: seq<U8>)
    requires Holding(b, i, w) && 32 !in w && (w != [] ==> w[0] != 34)
    ensures Terminated(b, i)
    ensures var n := NextArgument(b, i);
            n == Next(w != [], b, None, i) && Terminated(n.b, i) && CString(n.b, i) == w
  {
    HoldingEnd(b, i, w);
    NotFound(b, i, w, SPACE);
    if w != [] { assert b[i + 0] == w[0]; }
  }

  lemma BackTo(b: seq<U8>, begin: nat, end: int, q: int)
    requires begin <= q <= end < |b| && (q == begin || b[q] == QUOTE)
    requires forall k | q < k <= end :: b[k] != QUOTE
    ensures Back(b, begin, end) == q
    decreases end
  {
    if end > q { BackTo(b, begin, end - 1, q); }
  }

  /** The last argument in quotes is what is between the first and the last of them. */
  lemma LastQuoted(b: seq<U8>, i: nat, w: seq<U8>, z: seq<U8>)
    requires Holding(b, i, [34] + w + [34] + z) && w != [] && 32 !in w && 32 !in z && 34 !in z
    ensures Terminated(b, i) && Finds(NextArgument(b, i), i + 1, w, None)
    ensures NextArgument(b, i).b == b[i + 1 + |w| := 0]
  {
    var q := i + 1 + |w|;
    WhereLastQuoted(b, i, w, z);
    LastShape(b, i, q);
    hide NextArgument, Holding, StrChr, Back;
    var b' := b[q := NUL8];
    WordAt(b', i + 1, w);
  }

  lemma WordAt(b: seq<U8>, begin: nat, w: seq<U8>)
    requires begin + |w| < |b| && b[begin + |w|] == NUL8
    requires forall k | begin <= k < begin + |w| :: b[k] == w[k - begin] != NUL8
    ensures Terminated(b, begin) && CString(b, begin) == w
  {
    StrEndIs(b, begin, begin + |w|);
  }

  lemma WhereLastQuoted(b: seq<U8>, i: nat, w: seq<U8>, z: seq<U8>)
    requires Holding(b, i, [34] + w + [34] + z) && w != [] && 32 !in w && 32 !in z && 34 !in z
    ensures Terminated(b, i) && StrChr(b, i, SPACE) == None && b[i] == 34 && Terminated(b, i + 1)
    ensures i + 1 + |w| < |b| && Back(b, i + 1, StrEnd(b, i + 1) - 1) == i + 1 + |w|
    ensures forall k | i + 1 <= k < i + 1 + |w| :: b[k] == w[k - i - 1] != NUL8
  {
    var v := w + ([34] + z);
    var t := [34] + v;
    assert t == [34] + w + [34] + z;
    assert 32 !in t;
    HoldingEnd(b, i, t);
    NotFound(b, i, t, SPACE);
    EndBehind(b, i, 34, v);
    LastQuoteAt(b, i + 1, w, z);
  }

  lemma LastQuoteAt(b: seq<U8>, begin: nat, w: seq<U8>, z: seq<U8>)
    requires Holding(b, begin, w + ([34] + z)) && w != [] && 34 !in z
    ensures Terminated(b, begin) && begin + |w| < |b| && Back(b, begin, StrEnd(b, begin) - 1) == begin + |w|
    ensures forall k | begin <= k < begin + |w| :: b[k] == w[k - begin] != NUL8
  {
    var v, q := w + ([34] + z), begin + |w|;
    HoldingEnd(b, begin, v);
    SplitAt(b, begin, w, [34] + z);
    SplitAt(b, q, [34], z);
    assert b[q + 0] == [34][0];
    forall k | q < k < begin + |v|
      ensures b[k] != QUOTE
    {
      assert b[q + 1 + (k - q - 1)] == z[k - q - 1] && z[k - q - 1] in z;
    }
    BackTo(b, begin, begin + |v| - 1, q);
    forall k | begin <= k < q
      ensures b[k] == w[k - begin] != NUL8
    {
      assert b[begin + (k - begin)] == w[k - begin] == v[k - begin];
    }
  }

  /** A quote that nothing but other characters follow, or a quote right behind it, is refused, and
      the reader goes on behind it. */
  lemma LastUnclosed(b: seq<U8>, i: nat, v: seq<U8>)
    requires Holding(b, i, [34] + v) && v != [] && 32 !in v && 34 !in v[1..]
    ensures Terminated(b, i) && Nothing(NextArgument(b, i), b, i + 1, Some(i + 1))
  {
    var t := [34] + v;
    HoldingEnd(b, i, t);
    NotFound(b, i, t, SPACE);
    SplitAt(b, i, [34], v);
    HoldingEnd(b, i + 1, v);
    assert b[i + 0] == [34][0];
    forall k | i + 1 < k < i + |t|
      ensures b[k] != QUOTE
    {
      assert b[i + 1 + (k - i - 1)] == v[k - i - 1] && v[1..][k - i - 2] in v[1..];
    }
    BackTo(b, i + 1, i + |t| - 1, i + 1);
  }

  /** A quote that is all there is makes the reader step back over it: it is overwritten, nothing is
      found and nothing is left. */
  lemma LoneQuote(b: seq<U8>, i: nat)
    requires Holding(b, i, [34])
    ensures Terminated(b, i) && NextArgument(b, i) == Next(false, b[i := 0], None, i + 1)
  {
    HoldingEnd(b, i, [34]);
    NotFound(b, i, [34], SPACE);
    assert [QUOTE] + [] == [QUOTE];
    SplitAt(b, i, [QUOTE], []);
    HoldingEnd(b, i + 1, []);
    assert b[i + 0] == [34][0];
  }

  /** A quote that is not closed, with a space somewhere behind it, is refused, and so is all the rest. */
  lemma UnclosedWithSpace(b: seq<U8>, i: nat, v: seq<U8>)
    requires Holding(b, i, [34] + v) && 32 in v && 34 !in v
    ensures Terminated(b, i) && Nothing(NextArgument(b, i), b, i + 1, None)
  {
    HasSpace(b, i, [34] + v);
    SplitAt(b, i, [34], v);
    NotFound(b, i + 1, v, QUOTE);
    assert b[i + 0] == [34][0];
  }

  lemma HasSpace(b: seq<U8>, i: nat, t: seq<U8>)
    requires Holding(b, i, t) && 32 in t
    ensures Terminated(b, i) && StrChr(b, i, SPACE).Some?
  {
    HoldingEnd(b, i, t);
    var k :| 0 <= k < |t| && t[k] == 32;
    assert b[i + k] == 32;
  }

  lemma {:induction false} SkipSpaces(b: seq<U8>, i: nat, n: nat, u: seq<U8>)
    requires Holding(b, i, Spaces(n) + u) && (u != [] ==> u[0] != 32)
    ensures Terminated(b, i) && Skip(b, i) == i + n && Holding(b, i + n, u)
    decreases n
  {
    HoldingEnd(b, i, Spaces(n) + u);
    if n == 0 {
      assert Spaces(0) + u == u;
      if u != [] { assert b[i + 0] == u[0]; }
    } else {
      assert Spaces(n) + u == [32] + (Spaces(n - 1) + u);
      SplitAt(b, i, [32], Spaces(n - 1) + u);
      assert b[i + 0] == [32][0];
      SkipSpaces(b, i + 1, n - 1, u);
    }
  }

  lemma WordShape(b: seq<U8>, i: nat, e: nat)
    requires Terminated(b, i) && StrChr(b, i, SPACE) == Some(e) && b[i] != QUOTE
    ensures Terminated(b[e := NUL8], e + 1)
    ensures NextArgument(b, i) == Next(true, b[e := NUL8], Some(Skip(b[e := NUL8], e + 1)), i)
  {
    TerminatedAfter(b, i, e);
  }

  lemma QuotedShape(b: seq<U8>, i: nat, q: nat)
    requires Terminated(b, i) && StrChr(b, i, SPACE).Some? && b[i] == QUOTE
    requires Terminated(b, i + 1) && StrChr(b, i + 1, QUOTE) == Some(q)
    ensures Terminated(b[q := NUL8], q + 1)
    ensures NextArgument(b, i) == Next(true, b[q := NUL8], Some(Skip(b[q := NUL8], q + 1)), i + 1)
  {
    TerminatedAfter(b, i + 1, q);
  }

  lemma LastShape(b: seq<U8>, i: nat, q: nat)
    requires Terminated(b, i) && StrChr(b, i, SPACE) == None && b[i] == QUOTE && Terminated(b, i + 1)
    requires Back(b, i + 1, StrEnd(b, i + 1) - 1) == q && i + 1 < q < |b|
    ensures NextArgument(b, i) == Next(b[q := NUL8][i + 1] != NUL8, b[q := NUL8], None, i + 1)
  {
  }

  /** What lies behind the first character, when there is one. */
  lemma EndBehind(b: seq<U8>, i: nat, c: U8, v: seq<U8>)
    requires Holding(b, i, [c] + v)
    ensures b[i] == c && Holding(b, i + 1, v) && Terminated(b, i + 1) && StrEnd(b, i + 1) == i + 1 + |v|
  {
    SplitAt(b, i, [c], v);
    HoldingEnd(b, i + 1, v);
    assert b[i + 0] == [c][0];
  }

  /** The terminator at `e`, behind the argument `w`, and the reader past the spaces. */
  lemma Ended(b: seq<U8>, begin: nat, w: seq<U8>, e: nat, n: nat, u: seq<U8>)
    requires NoNul(w) && begin + |w| == e < |b| && forall k | 0 <= k < |w| :: b[begin + k] == w[k]
    requires Holding(b, e + 1, Spaces(n) + u) && (u != [] ==> u[0] != 32)
    ensures var b' := b[e := NUL8];
            && Terminated(b', begin) && CString(b', begin) == w
            && Terminated(b', e + 1) && Skip(b', e + 1) == e + 1 + n && Holding(b', e + 1 + n, u)
  {
    var b' := b[e := NUL8];
    assert forall k | begin <= k < e :: b'[k] == b[begin + (k - begin)] == w[k - begin] != NUL8;
    StrEndIs(b', begin, e);
    assert CString(b', begin) == w;
    assert Holding(b', e + 1, Spaces(n) + u);
    SkipSpaces(b', e + 1, n, u);
  }

  /** So the argument was found, with the reader where it should be. */
  lemma EndedThere(r: Next, b: seq<U8>, begin: nat, w: seq<U8>, e: nat, n: nat, u: seq<U8>)
    requires NoNul(w) && begin + |w| == e < |b| && forall k | 0 <= k < |w| :: b[begin + k] == w[k]
    requires Holding(b, e + 1, Spaces(n) + u) && (u != [] ==> u[0] != 32) && Terminated(b[e := NUL8], e + 1)
    requires r == Next(true, b[e := NUL8], Some(Skip(b[e := NUL8], e + 1)), begin)
    ensures Finds(r, begin, w, Some(e + 1 + n)) && Holding(r.b, e + 1 + n, u)
  {
    Ended(b, begin, w, e, n, u);
    hide Holding, Skip, Spaces;
  }

  lemma SpaceInRest(n: nat, u: seq<U8>)
    requires n > 0 || 32 in u
    ensures 32 in Spaces(n) + u
  {
    assert n > 0 ==> Spaces(n)[0] == 32;
  }

  /** A word that does not begin with a quote ends at its space; the spaces behind it are skipped. */
  lemma FirstWord(b: seq<U8>, i: nat, w: seq<U8>, n: nat, u: seq<U8>)
    requires Holding(b, i, w + ([32] + (Spaces(n) + u))) && 32 !in w
    requires (w != [] ==> w[0] != 34) && (u != [] ==> u[0] != 32)
    ensures Terminated(b, i) && Finds(NextArgument(b, i), i, w, Some(i + |w| + 1 + n))
    ensures Holding(NextArgument(b, i).b, i + |w| + 1 + n, u)
  {
    WhereWord(b, i, w, Spaces(n) + u);
    WordShape(b, i, i + |w|);
    hide Holding, StrChr, Skip, NextArgument, Spaces, Finds, NoNul;
    EndedThere(NextArgument(b, i), b, i, w, i + |w|, n, u);
  }

  lemma WhereWord(b: seq<U8>, i: nat, w: seq<U8>, rest: seq<U8>)
    requires Holding(b, i, w + ([32] + rest)) && 32 !in w && (w != [] ==> w[0] != 34)
    ensures Terminated(b, i) && StrChr(b, i, SPACE) == Some(i + |w|) && b[i] != 34 && Holding(b, i + |w| + 1, rest)
    ensures NoNul(w) && forall k | 0 <= k < |w| :: b[i + k] == w[k]
  {
    HoldingEnd(b, i, w + ([32] + rest));
    FindEnd(b, i, w, [32] + rest, SPACE);
    HoldingDrop(b, i, w, [32] + rest);
    EndBehind(b, i + |w|, 32, rest);
    if w != [] { assert b[i + 0] == w[0]; }
  }

  /** With a space anywhere, an argument in quotes ends at the second quote, and the spaces behind it,
      if any, are skipped. */
  lemma FirstQuoted(b: seq<U8>, i: nat, w: seq<U8>, n: nat, u: seq<U8>)
    requires Holding(b, i, [34] + (w + ([34] + (Spaces(n) + u)))) && 34 !in w && (u != [] ==> u[0] != 32)
    requires 32 in w || n > 0 || 32 in u
    ensures Terminated(b, i) && Finds(NextArgument(b, i), i + 1, w, Some(i + |w| + 2 + n))
    ensures Holding(NextArgument(b, i).b, i + |w| + 2 + n, u)
  {
    hide Holding, StrChr, Skip, NextArgument, Spaces, Finds, NoNul, Terminated;
    if n > 0 || 32 in u { SpaceInRest(n, u); }
    WhereQuoted(b, i, w, Spaces(n) + u);
    QuotedShape(b, i, i + 1 + |w|);
    EndedThere(NextArgument(b, i), b, i + 1, w, i + 1 + |w|, n, u);
  }

  lemma WhereQuoted(b: seq<U8>, i: nat, w: seq<U8>, rest: seq<U8>)
    requires Holding(b, i, [34] + (w + ([34] + rest))) && 34 !in w && (32 in w || 32 in rest)
    ensures Terminated(b, i) && StrChr(b, i, SPACE).Some? && b[i] == 34 && Terminated(b, i + 1)
    ensures StrChr(b, i + 1, QUOTE) == Some(i + 1 + |w|) && Holding(b, i + 2 + |w|, rest)
    ensures NoNul(w) && forall k | 0 <= k < |w| :: b[i + 1 + k] == w[k]
  {
    var v := w + ([34] + rest);
    assert forall c | c in w || c in rest :: c in [34] + v;
    HasSpace(b, i, [34] + v);
    EndBehind(b, i, 34, v);
    FindEnd(b, i + 1, w, [34] + rest, QUOTE);
    HoldingDrop(b, i + 1, w, [34] + rest);
    EndBehind(b, i + 1 + |w|, 34, rest);
  }

  // ---------------------------------------------------------------- what callers get

  /** Where the text has ended nothing is stored and nothing changes. */
  lemma ShiftAtEnd(b: seq<U8>, i: nat, k: Kind)
    requires i < |b| && b[i] == 0
    ensures Terminated(b, i) && UnshiftText(b, i, k) == Shift(b, Some(i), Unset)
  {
  }

  /** An argument that is found is handed over as the string it is, or as the number it reads as. */
  lemma ShiftFound(b: seq<U8>, i: nat, k: Kind, begin: nat, w: seq<U8>, src: Option<nat>)
    requires Terminated(b, i) && b[i] != 0 && Finds(NextArgument(b, i), begin, w, src) && !k.DataKind?
    ensures var r := UnshiftText(b, i, k);
            && r.src == src && r.b == NextArgument(b, i).b
            && match k
               case TextKind => r.got == Pointer(begin) && Terminated(r.b, begin) && CString(r.b, begin) == w
               case _ => r.got == Value(if Strtoul(w) < 0x8000_0000 then Strtoul(w) else Strtoul(w) - 0x1_0000_0000)
  {
    hide NextArgument, Strtoul;
  }

  /** One that is not found is still a string for who asks for one, but not a number. */
  lemma ShiftMissed(b: seq<U8>, i: nat, k: Kind)
    requires Terminated(b, i) && b[i] != 0 && !NextArgument(b, i).ok && !k.DataKind?
    ensures var r, n := UnshiftText(b, i, k), NextArgument(b, i);
            r.src == n.src && r.b == n.b && r.got == if k.TextKind? then Pointer(n.begin) else Unset
  {
    hide NextArgument, Strtoul;
  }

  // ---------------------------------------------------------------- there are no other cases

  lemma {:induction false} SplitFirst(t: seq<U8>, c: U8) returns (w: seq<U8>, rest: seq<U8>)
    requires c in t
    ensures t == w + ([c] + rest) && c !in w
    decreases |t|
  {
    if t[0] == c {
      w, rest := [], t[1..];
    } else {
      w, rest := SplitFirst(t[1..], c);
      w := [t[0]] + w;
    }
  }

  lemma {:induction false} SplitLast(t: seq<U8>, c: U8) returns (w: seq<U8>, rest: seq<U8>)
    requires c in t
    ensures t == w + ([c] + rest) && c !in rest
    decreases |t|
  {
    var n := |t| - 1;
    if t[n] == c {
      w, rest := t[..n], [];
    } else {
      w, rest := SplitLast(t[..n], c);
      rest := rest + [t[n]];
    }
  }

  lemma {:induction false} SplitSpaces(t: seq<U8>) returns (n: nat, u: seq<U8>)
    ensures t == Spaces(n) + u && (u != [] ==> u[0] != 32)
    decreases |t|
  {
    if t == [] || t[0] != 32 {
      n, u := 0, t;
    } else {
      n, u := SplitSpaces(t[1..]);
      n := n + 1;
      assert Spaces(n) == [32] + Spaces(n - 1);
    }
  }

  ghost predicate IsLastWord(t: seq<U8>) {
    32 !in t && (t != [] ==> t[0] != 34)
  }

  ghost predicate IsFirstWord(t: seq<U8>, w: seq<U8>, n: nat, u: seq<U8>) {
    t == w + ([32] + (Spaces(n) + u)) && 32 !in w && (w != [] ==> w[0] != 34) && (u != [] ==> u[0] != 32)
  }

  ghost predicate IsFirstQuoted(v: seq<U8>, w: seq<U8>, n: nat, u: seq<U8>) {
    && v == w + ([34] + (Spaces(n) + u)) && 34 !in w && (u != [] ==> u[0] != 32)
    && (32 in w || n > 0 || 32 in u)
  }

  ghost predicate IsLastQuoted(v: seq<U8>, w: seq<U8>, z: seq<U8>) {
    v == w + ([34] + z) && w != [] && 32 !in w && 32 !in z && 34 !in z
  }

  /** Every text is one of those above: `t` as a whole, or `v` behind its quote. */
  lemma NoOtherCase(t: seq<U8>)
    ensures || IsLastWord(t) || t == [34]
            || (exists w, n, u :: IsFirstWord(t, w, n, u))
            || (t != [] && t[0] == 34 &&
                var v := t[1..];
                || (v != [] && 32 !in v && 34 !in v[1..])
                || (32 in v && 34 !in v)
                || (exists w, z :: IsLastQuoted(v, w, z))
                || (exists w, n, u :: IsFirstQuoted(v, w, n, u)))
  {
    if t != [] && t[0] == 34 {
      var v := t[1..];
      if 32 in v && 34 in v {
        var w, rest := SplitFirst(v, 34);
        var n, u := SplitSpaces(rest);
        assert IsFirstQuoted(v, w, n, u);
      } else if 32 !in v && v != [] && 34 in v[1..] {
        var w, z := SplitLast(v, 34);
        assert IsLastQuoted(v, w, z);
      } else if v == [] {
        assert t == [34];
      }
    } else if 32 in t {
      var w, rest := SplitFirst(t, 32);
      var n, u := SplitSpaces(rest);
      assert IsFirstWord(t, w, n, u);
    }
  }
}
