/** When the text form does not work: which arguments cannot be read back. */
module TextLimits {
  import opened Options
  import opened Bytes
  import opened Arguments
  import opened TextReader
  import opened TextCodec

  /** The part of a text from `y` on, when the text begins at `x`. */
  lemma HoldingSuffix(b: seq<U8>, x: nat, w: seq<U8>, y: nat)
    requires Holding(b, x, w) && x <= y <= x + |w|
    ensures Holding(b, y, w[y - x..])
  {
    assert w == w[..y - x] + w[y - x..];
    HoldingDrop(b, x, w[..y - x], w[y - x..]);
  }

  /** Whatever it takes, the reader goes on strictly later in the same text, or nowhere. */
  lemma NextSuffix(b: seq<U8>, x: nat, w: seq<U8>)
    requires Holding(b, x, w) && w != []
    ensures Terminated(b, x) && b[x] == w[0] != NUL8
    ensures var n := NextArgument(b, x);
            && x <= n.begin <= x + 1
            && (n.src.Some? ==> x < n.src.value <= x + |w| && Holding(n.b, n.src.value, w[n.src.value - x..]))
  {
    HoldingEnd(b, x, w);
    assert b[x + 0] == w[0];
    var n := NextArgument(b, x);
    if n.src.Some? {
      var y := n.src.value;
      SkipWithin(b, x, x + |w|);
      HoldingSuffix(b, x, w, y);
      assert forall k | y <= k < |b| :: n.b[k] == b[k];
    }
  }

  /** Positions handed on lie within the string. */
  lemma SkipWithin(b: seq<U8>, x: nat, end: nat)
    requires Terminated(b, x) && b[x] != NUL8 && StrEnd(b, x) == end
    ensures var n := NextArgument(b, x);
            n.src.Some? ==> x < n.src.value <= end && forall k | n.src.value <= k < |b| :: n.b[k] == b[k]
  {
    hide Skip, Back, StrChr, StrEnd, Without, Terminated;
    match StrChr(b, x, SPACE)
    case Some(e) =>
      if b[x] != QUOTE {
        SkipAfterCut(b, x, e);
      } else {
        NextTerminated(b, x);
        if StrChr(b, x + 1, QUOTE).Some? {
          SkipAfterCut(b, x + 1, StrChr(b, x + 1, QUOTE).value);
        }
      }
    case None =>
      NextTerminated(b, x);
  }

  lemma NextTerminated(b: seq<U8>, x: nat)
    requires Terminated(b, x) && b[x] != NUL8
    ensures Terminated(b, x + 1) && StrEnd(b, x + 1) == StrEnd(b, x)
  {
  }

  lemma SkipAfterCut(b: seq<U8>, x: nat, e: nat)
    requires Terminated(b, x) && x <= e < StrEnd(b, x)
    ensures Terminated(b[e := NUL8], e + 1) && e < Skip(b[e := NUL8], e + 1) <= StrEnd(b, x)
  {
    SkipBefore(b[e := NUL8], e + 1, StrEnd(b, x));
  }

  lemma {:induction false} SkipBefore(b: seq<U8>, i: nat, end: nat)
    requires i <= end < |b| && b[end] == NUL8
    ensures Terminated(b, i) && Skip(b, i) <= end
    decreases end - i
  {
    if b[i] == SPACE {
      SkipBefore(b, i + 1, end);
    }
  }

  /** Unpacking changes bytes only into NULs. */
  lemma {:induction false} OnlyNuls(b: seq<U8>, src: Option<nat>, kinds: seq<Kind>)
    requires src.Some? ==> Terminated(b, src.value)
    ensures var r := UnpackText(b, src, kinds);
            r.Unpacked? ==> forall k | 0 <= k < |b| :: r.b[k] == b[k] || r.b[k] == NUL8
    decreases |kinds|
  {
    if kinds != [] && src.Some? {
      var s := UnshiftText(b, src.value, kinds[0]);
      OnlyNuls(s.b, s.src, kinds[1..]);
    }
  }

  /** A run that returns its arguments returns the rest of them from where the first left off. */
  lemma ReturnsRest(b: seq<U8>, x: nat, args: seq<Arg>)
    requires Terminated(b, x) && args != []
    ensures var s := UnshiftText(b, x, KindOf(args[0]));
            var r := UnpackText(s.b, s.src, Kinds(args[1..]));
            Returns(UnpackText(b, Some(x), Kinds(args)), args) ==>
              Returns(r, args[1..]) && Stands(r.b, s.got, args[0]) && (s.src == None ==> args[1..] == [])
  {
    var s := UnshiftText(b, x, KindOf(args[0]));
    var whole := UnpackText(b, Some(x), Kinds(args));
    var r := UnpackText(s.b, s.src, Kinds(args[1..]));
    if Returns(whole, args) {
      assert whole.got == [s.got] + r.got;
      assert Stands(r.b, whole.got[0], args[0]);
      forall k | 0 <= k < |args[1..]|
        ensures Stands(r.b, r.got[k], args[1..][k])
      {
        assert Stands(r.b, whole.got[k + 1], args[k + 1]);
      }
    }
  }

  /** Nothing is stored for an argument where the text has ended. */
  lemma NothingThere(b: seq<U8>, x: nat, args: seq<Arg>)
    requires Holding(b, x, []) && args != []
    ensures Terminated(b, x) && !Returns(UnpackText(b, Some(x), Kinds(args)), args)
  {
    HoldingEnd(b, x, []);
    ReturnsRest(b, x, args);
  }

  /** The arguments do not come back. */
  ghost predicate Failing(b: seq<U8>, src: Option<nat>, args: seq<Arg>)
    requires src.Some? ==> Terminated(b, src.value)
  {
    !Returns(UnpackText(b, src, Kinds(args)), args)
  }

  lemma RestFailing(b: seq<U8>, x: nat, args: seq<Arg>)
    requires Terminated(b, x) && b[x] != NUL8 && args != []
    requires Failing(NextArgument(b, x).b, NextArgument(b, x).src, args[1..])
    ensures Failing(b, Some(x), args)
  {
    ReturnsRest(b, x, args);
  }

  lemma NoneFailing(b: seq<U8>, args: seq<Arg>)
    requires args != []
    ensures Failing(b, None, args)
  {
  }

  /** One argument not returned, or the rest not, is enough. */
  lemma NotReturned(b: seq<U8>, x: nat, args: seq<Arg>)
    requires Terminated(b, x) && b[x] != NUL8 && args != [] && args[0].Text?
    requires var n := NextArgument(b, x);
             || (n.src == None && args[1..] != [])
             || (var r := UnpackText(n.b, n.src, Kinds(args[1..]));
                 !Returns(r, args[1..]) || !Stands(r.b, Pointer(n.begin), args[0]))
    ensures !Returns(UnpackText(b, Some(x), Kinds(args)), args)
  {
    ReturnsRest(b, x, args);
  }

  // ---------------------------------------------------------------- strings beginning with a quote

  ghost predicate Erased(b: seq<U8>, b': seq<U8>) {
    |b'| == |b| && forall k | 0 <= k < |b| :: b'[k] == b[k] || b'[k] == NUL8
  }

  /** A string found in a text without spaces has none either, and is no longer. */
  lemma FoundBytes(b: seq<U8>, x: nat, w: seq<U8>, b': seq<U8>, p: nat, s: seq<U8>)
    requires Holding(b, x, w) && w != [] && SPACE !in w && Erased(b, b')
    requires x <= p <= x + 1 && Terminated(b', p) && CString(b', p) == s
    ensures |s| <= |w| - (p - x) && SPACE !in s
  {
    assert b'[x + |w|] == NUL8;
    assert StrEnd(b', p) <= x + |w|;
    forall k | 0 <= k < |s|
      ensures s[k] != SPACE
    {
      assert s[k] == b'[p + k] && b[x + (p - x + k)] == w[p - x + k] && w[p - x + k] in w;
    }
  }

  lemma QuoteFirstCase(b: seq<U8>, x: nat)
    requires Terminated(b, x) && b[x] != NUL8
    requires NextArgument(b, x).b[NextArgument(b, x).begin] == QUOTE
    ensures StrChr(b, x, SPACE) == None && b[x] == QUOTE && NextArgument(b, x).begin == x + 1
    ensures Erased(b, NextArgument(b, x).b)
  {
    hide Skip;
  }

  /** What the reader can have found where it stores a string beginning with a quote: a text with
      no space, beginning with a quote itself. */
  lemma QuoteFirst(b: seq<U8>, x: nat, w: seq<U8>, s: seq<U8>, kinds: seq<Kind>)
    requires Holding(b, x, w) && w != [] && s != [] && s[0] == QUOTE
    requires Terminated(b, x) && var n := NextArgument(b, x); var r := UnpackText(n.b, n.src, kinds);
                                                              r.Unpacked? && Stands(r.b, Pointer(n.begin), Text(s))
    ensures w[0] == QUOTE && SPACE !in w && SPACE !in s && |s| < |w|
  {
    HoldingEnd(b, x, w);
    NextSuffix(b, x, w);
    var n := NextArgument(b, x);
    var r := UnpackText(n.b, n.src, kinds);
    OnlyNuls(n.b, n.src, kinds);
    assert CString(r.b, n.begin)[0] == QUOTE;
    hide NextArgument, UnpackText;
    QuoteFirstCase(b, x);
    forall k | 0 <= k < |w|
      ensures w[k] != SPACE
    {
      assert b[x + k] == w[k];
    }
    FoundBytes(b, x, w, r.b, x + 1, s);
  }

  // ---------------------------------------------------------------- a reader that got ahead

  lemma NextErases(b: seq<U8>, x: nat)
    requires Terminated(b, x)
    ensures Erased(b, NextArgument(b, x).b)
  {
    hide Skip, StrChr, StrEnd, Terminated, Without;
  }

  /** From less than the last argument, and no spaces, that argument cannot be had. */
  lemma {:induction false} Short(b: seq<U8>, x: nat, w: seq<U8>, args: seq<Arg>)
    requires Printable(args) && args != [] && Holding(b, x, w) && SPACE !in w
    requires var a := args[|args| - 1]; a.Text? && |w| < |Printed(a)|
    ensures Terminated(b, x) && Failing(b, Some(x), args)
    decreases |args|
  {
    if w == [] {
      NothingThere(b, x, args);
    } else if |args| == 1 {
      ShortOne(b, x, w, args);
    } else {
      RestPrintable(args);
      NextSuffix(b, x, w);
      var n, rest := NextArgument(b, x), args[1..];
      assert rest[|rest| - 1] == args[|args| - 1];
      hide NextArgument, Holding, Printed, Failing, Terminated, Printable;
      if n.src.Some? {
        var d := n.src.value - x;
        assert forall c | c in w[d..] :: c in w;
        Short(n.b, n.src.value, w[d..], rest);
      } else {
        NoneFailing(n.b, rest);
      }
      RestFailing(b, x, args);
    }
  }

  lemma ShortOne(b: seq<U8>, x: nat, w: seq<U8>, args: seq<Arg>)
    requires |args| == 1 && args[0].Text? && Holding(b, x, w) && w != [] && SPACE !in w && |w| < |Printed(args[0])|
    ensures Terminated(b, x) && Failing(b, Some(x), args)
  {
    NextSuffix(b, x, w);
    NextErases(b, x);
    ReturnsRest(b, x, args);
    var n := NextArgument(b, x);
    hide NextArgument, Skip;
    FoundBytes(b, x, w, n.b, n.begin, CString(n.b, n.begin));
  }

  /** The first argument that prints anything is a string beginning with a quote. */
  ghost predicate QuoteLed(args: seq<Arg>)
    requires Printable(args)
    decreases |args|
  {
    args != [] &&
    if Printed(args[0]) == [] then QuoteLed(args[1..])
    else args[0].Text? && args[0].s[0] == QUOTE
  }

  lemma RestPrintable(args: seq<Arg>)
    requires Printable(args) && args != []
    ensures Printable(args[1..])
  {
    assert forall k | 0 <= k < |args[1..]| :: args[1..][k] == args[k + 1];
  }

  /** The text after the last space is part of the last argument. */
  lemma {:induction false} LastPart(args: seq<Arg>, u: seq<U8>, w: seq<U8>)
    requires Printable(args) && Tail(args) == u + w && w != [] && SPACE !in w
    ensures args != [] && var p := Printed(args[|args| - 1]);
                       |w| <= |p| && forall c | c in w :: c in p
    decreases |args|
  {
    if args != [] {
      var p, rest := Printed(args[0]), args[1..];
      RestPrintable(args);
      TailShape(rest);
      Assoc([SPACE], p, Tail(rest));
      var t := Tail(rest);
      if rest == [] {
        EndsWithin(u, w, [SPACE], p);
        assert forall c | c in p[|p| - |w|..] :: c in p;
      } else {
        EndsWithin(u, w, [SPACE] + p, t);
        LastPart(rest, t[..|t| - |w|], w);
      }
    }
  }

  /** An end without spaces does not reach back over one. */
  lemma EndsWithin(u: seq<U8>, w: seq<U8>, a: seq<U8>, b: seq<U8>)
    requires u + w == a + b && SPACE !in w && |a| > 0
    requires a[|a| - 1] == SPACE || (b != [] && b[0] == SPACE)
    ensures |w| <= |b| && b == b[..|b| - |w|] + w
  {
    var t := u + w;
    forall j | |u| <= j < |t|
      ensures t[j] != SPACE
    {
      assert t[j] == w[j - |u|] && w[j - |u|] in w;
    }
    assert t[|a| - 1] == a[|a| - 1] && (b != [] ==> t[|a|] == b[0]);
    assert b == t[|a|..] && w == t[|u|..];
  }

  /** `w` is the end of `t`, but not all of it. */
  ghost predicate ProperEnd(t: seq<U8>, w: seq<U8>) {
    |w| < |t| && t[|t| - |w|..] == w
  }

  lemma LaterEnd(t: seq<U8>, w: seq<U8>, d: nat)
    requires ProperEnd(t, w) && d <= |w|
    ensures ProperEnd(t, w[d..])
  {
  }

  /** An end without spaces that begins with a quote is part of a string at the very end. */
  lemma LastIsText(s: seq<U8>, rest: seq<Arg>, w: seq<U8>)
    requires Printable(rest) && rest != [] && s != [] && ProperEnd(s + Tail(rest), w)
    requires w != [] && w[0] == QUOTE && SPACE !in w
    ensures var last := rest[|rest| - 1]; last.Text? && |w| <= |Printed(last)|
  {
    TailShape(rest);
    var t := Tail(rest);
    EndsWithin((s + t)[..|s + t| - |w|], w, s, t);
    LastPart(rest, t[..|t| - |w|], w);
    PrintedPlain(rest[|rest| - 1]);
    assert w[0] in w;
  }

  /** Once the reader is ahead of a string that begins with a quote, it cannot return it. */
  lemma {:induction false} Ahead(b: seq<U8>, x: nat, w: seq<U8>, args: seq<Arg>)
    requires Printable(args) && QuoteLed(args)
    requires Holding(b, x, w) && ProperEnd(Print([], args), w)
    ensures Terminated(b, x) && Failing(b, Some(x), args)
    decreases |args|, 1
  {
    var a, rest := args[0], args[1..];
    RestPrintable(args);
    PrintFirst(args);
    PrintedPlain(a);
    hide NextArgument, Print, Tail, Skip, Returns, UnpackText, Stands, Decimal;
    if w == [] {
      NothingThere(b, x, args);
    } else {
      NextSuffix(b, x, w);
      if Printed(a) == [] {
        assert a == Text([]) && Print([], args) == Print([], rest);
        hide ProperEnd, Holding, Printable, Printed;
        AheadPast(b, x, w, args);
      } else {
        AheadHere(b, x, w, a, rest);
        NotReturned(b, x, args);
      }
    }
  }

  lemma {:induction false} AheadPast(b: seq<U8>, x: nat, w: seq<U8>, args: seq<Arg>)
    requires args != [] && args[0] == Text([]) && Printable(args) && Printable(args[1..]) && QuoteLed(args[1..])
    requires Holding(b, x, w) && w != [] && ProperEnd(Print([], args[1..]), w)
    ensures Terminated(b, x) && Failing(b, Some(x), args)
    decreases |args|, 0
  {
    var rest := args[1..];
    NextSuffix(b, x, w);
    var n := NextArgument(b, x);
    hide NextArgument, Terminated, Holding, Failing;
    if n.src.Some? {
      var d := n.src.value - x;
      LaterEnd(Print([], rest), w, d);
      hide Print, Printable, QuoteLed, ProperEnd;
      Ahead(n.b, n.src.value, w[d..], rest);
    } else {
      NoneFailing(n.b, rest);
    }
    RestFailing(b, x, args);
  }

  lemma AheadHere(b: seq<U8>, x: nat, w: seq<U8>, a: Arg, rest: seq<Arg>)
    requires Printable(rest) && IsArg(a) && a.Text? && a.s != [] && a.s[0] == QUOTE
    requires Holding(b, x, w) && w != [] && ProperEnd(Printed(a) + Tail(rest), w)
    ensures Terminated(b, x)
    ensures var n := NextArgument(b, x); var r := UnpackText(n.b, n.src, Kinds(rest));
                                         !Returns(r, rest) || !Stands(r.b, Pointer(n.begin), a)
  {
    NextSuffix(b, x, w);
    TailShape(rest);
    var n := NextArgument(b, x);
    var r := UnpackText(n.b, n.src, Kinds(rest));
    if w[0] == QUOTE && SPACE !in w && SPACE !in a.s && rest != [] {
      LastIsText(a.s, rest, w);
      hide NextArgument, Print, Tail, Printed, ProperEnd;
      ShortNext(b, x, w, rest);
    } else if r.Unpacked? && Stands(r.b, Pointer(n.begin), a) {
      hide NextArgument, Print, Tail;
      QuoteFirst(b, x, w, a.s, Kinds(rest));
    }
  }

  lemma ShortNext(b: seq<U8>, x: nat, w: seq<U8>, rest: seq<Arg>)
    requires Printable(rest) && rest != [] && Holding(b, x, w) && w != [] && SPACE !in w
    requires var a := rest[|rest| - 1]; a.Text? && |w| <= |Printed(a)|
    ensures Terminated(b, x) && Failing(NextArgument(b, x).b, NextArgument(b, x).src, rest)
  {
    NextSuffix(b, x, w);
    var n := NextArgument(b, x);
    hide NextArgument, Holding, Printed, Failing, Printable, Terminated;
    if n.src.Some? {
      var d := n.src.value - x;
      assert forall c | c in w[d..] :: c in w;
      Short(n.b, n.src.value, w[d..], rest);
    } else {
      NoneFailing(n.b, rest);
    }
  }

  // ---------------------------------------------------------------- which arguments fail

  /** A string with a space and a quote is cut at its first quote. */
  lemma FailQuoted(b: seq<U8>, i: nat, s: seq<U8>, rest: seq<Arg>)
    requires Printable(rest) && NoNul(s) && SPACE in s && QUOTE in s
    requires Holding(b, i, [QUOTE] + s + [QUOTE] + Tail(rest))
    ensures Terminated(b, i)
    ensures var n := NextArgument(b, i); var r := UnpackText(n.b, n.src, Kinds(rest));
                                         r.Unpacked? ==> !Stands(r.b, Pointer(n.begin), Text(s))
  {
    hide Print, Tail, Skip, Back, StrEnd, StrChr;
    var u := [QUOTE] + Tail(rest);
    Assoc([QUOTE] + s, [QUOTE], Tail(rest));
    Assoc([QUOTE], s, u);
    QuotedHasSpace(b, i, s, u);
    FindCut(b, i, s, u);
    hide Holding;
    CutString(b, i, i + 1 + FirstQuote(s));
    hide NextArgument, NoNul;
    StillCut(NextArgument(b, i), i + 1 + FirstQuote(s), s, Kinds(rest));
  }

  lemma FindCut(b: seq<U8>, i: nat, s: seq<U8>, u: seq<U8>)
    requires Holding(b, i, [QUOTE] + (s + u)) && QUOTE in s
    ensures Terminated(b, i + 1) && StrChr(b, i + 1, QUOTE) == Some(i + 1 + FirstQuote(s))
  {
    var f := FirstQuote(s);
    HoldingDrop(b, i, [QUOTE], s + u);
    assert s == s[..f] + s[f..];
    hide Holding;
    Assoc(s[..f], s[f..], u);
    FindEnd(b, i + 1, s[..f], s[f..] + u, QUOTE);
  }

  lemma StillCut(n: Next, q: nat, s: seq<U8>, kinds: seq<Kind>)
    requires n.src.Some? && Terminated(n.b, n.src.value) && q < n.src.value
    requires Terminated(n.b, n.begin) && StrEnd(n.b, n.begin) == q < n.begin + |s|
    ensures var r := UnpackText(n.b, n.src, kinds); r.Unpacked? ==> !Stands(r.b, Pointer(n.begin), Text(s))
  {
    UnpackKeeps(n.b, n.src, kinds, q + 1);
    var r := UnpackText(n.b, n.src, kinds);
    if r.Unpacked? {
      CStringKept(n.b, r.b, n.begin, q + 1);
    }
  }

  function FirstQuote(s: seq<U8>): (f: nat)
    requires QUOTE in s
    ensures f < |s| && s[f] == QUOTE && QUOTE !in s[..f]
  {
    if s[0] == QUOTE then 0
    else
      var f := 1 + FirstQuote(s[1..]);
      assert s[..f] == [s[0]] + s[1..][..f - 1];
      f
  }

  lemma CutString(b: seq<U8>, i: nat, q: nat)
    requires Terminated(b, i) && StrChr(b, i, SPACE).Some? && b[i] == QUOTE
    requires Terminated(b, i + 1) && StrChr(b, i + 1, QUOTE) == Some(q)
    ensures var n := NextArgument(b, i);
            && n.begin == i + 1 && Terminated(n.b, i + 1) && StrEnd(n.b, i + 1) == q
            && n.src.Some? && n.src.value > q
  {
    TerminatedAfter(b, i + 1, q);
    StrEndIs(b[q := NUL8], i + 1, q);
  }

  /** What can be said of a text whose first argument is not led by a quote of its own. */
  lemma {:induction false} NotLed(rest: seq<Arg>)
    requires Printable(rest) && Print([], rest) != [] && !QuoteLed(rest)
    ensures var w := Print([], rest);
            w[0] != SPACE && (w[0] != QUOTE || (|w| > 1 && w[1] != QUOTE && SPACE in w))
    decreases |rest|
  {
    PrintFirst(rest);
    PrintedPlain(rest[0]);
    RestPrintable(rest);
    if Printed(rest[0]) == [] {
      NotLed(rest[1..]);
    } else {
      var p := Printed(rest[0]);
      assert Print([], rest)[0] == p[0];
      if rest[0].Number? {
        assert p[0] in p;
      } else if SPACE in rest[0].s {
        assert p[1] == rest[0].s[0] && SPACE in p;
        assert Print([], rest)[1] == p[1];
      }
    }
  }

  /** Found there, the reader's string is not empty, and stays so. */
  lemma NotEmpty(b: seq<U8>, i: nat, w: seq<U8>, kinds: seq<Kind>)
    requires Holding(b, i, w) && w != [] && w[0] != SPACE
    requires w[0] != QUOTE || (|w| > 1 && w[1] != QUOTE && SPACE in w)
    ensures Terminated(b, i) && var n := NextArgument(b, i);
                             n.src.Some? ==> n.begin < n.src.value && n.b[n.begin] != NUL8
  {
    HoldingEnd(b, i, w);
    assert b[i + 0] == w[0];
    if w[0] == QUOTE {
      assert b[i + 1] == w[1];
      var k :| 0 <= k < |w| && w[k] == SPACE;
      assert b[i + k] == SPACE;
    }
    NextSuffix(b, i, w);
    NotEmptyCase(b, i);
  }

  lemma NotEmptyCase(b: seq<U8>, i: nat)
    requires Terminated(b, i) && b[i] != NUL8 && b[i] != SPACE
    requires b[i] == QUOTE ==> b[i + 1] != NUL8 && b[i + 1] != QUOTE && StrChr(b, i, SPACE).Some?
    ensures var n := NextArgument(b, i); n.src.Some? ==> n.begin < n.src.value && n.b[n.begin] != NUL8
  {
  }

  lemma FailEmpty(b: seq<U8>, i: nat, rest: seq<Arg>)
    requires Printable(rest) && Holding(b, i, Print([], rest))
    ensures var args := [Text([])] + rest;
            Terminated(b, i) && !Returns(UnpackText(b, Some(i), Kinds(args)), args)
  {
    var args, w := [Text([])] + rest, Print([], rest);
    assert args[0] == Text([]) && args[1..] == rest;
    if w == [] {
      NothingThere(b, i, args);
    } else {
      NextSuffix(b, i, w);
      var n := NextArgument(b, i);
      if QuoteLed(rest) {
        FailLed(b, i, rest);
      } else {
        NotLed(rest);
        FailNotLed(b, i, w, Kinds(rest));
      }
      hide NextArgument, Print;
      NotReturned(b, i, args);
    }
  }

  lemma FailLed(b: seq<U8>, i: nat, rest: seq<Arg>)
    requires Printable(rest) && QuoteLed(rest) && Holding(b, i, Print([], rest)) && Print([], rest) != []
    ensures Terminated(b, i) && Failing(NextArgument(b, i).b, NextArgument(b, i).src, rest)
  {
    var w := Print([], rest);
    NextSuffix(b, i, w);
    var n := NextArgument(b, i);
    hide NextArgument, Print, Holding, Failing, Terminated;
    if n.src.Some? {
      Ahead(n.b, n.src.value, w[n.src.value - i..], rest);
    } else {
      NoneFailing(n.b, rest);
    }
  }

  lemma FailNotLed(b: seq<U8>, i: nat, w: seq<U8>, kinds: seq<Kind>)
    requires Holding(b, i, w) && w != [] && w[0] != SPACE
    requires w[0] != QUOTE || (|w| > 1 && w[1] != QUOTE && SPACE in w)
    ensures Terminated(b, i) && var n := NextArgument(b, i); var r := UnpackText(n.b, n.src, kinds);
                                                             r.Unpacked? && n.src.Some? ==> !Stands(r.b, Pointer(n.begin), Text([]))
  {
    NotEmpty(b, i, w, kinds);
    var n := NextArgument(b, i);
    hide NextArgument;
    if n.src.Some? {
      UnpackKeeps(n.b, n.src, kinds, n.src.value);
    }
  }

  /** An unreadable argument spoils the round trip, wherever it stands and whatever follows. */
  lemma {:induction false} Fails(b: seq<U8>, i: nat, args: seq<Arg>)
    requires Printable(args) && !AllReadable(args) && Holding(b, i, Print([], args))
    ensures Terminated(b, i) && !Returns(UnpackText(b, Some(i), Kinds(args)), args)
    decreases |args|
  {
    var a, rest := args[0], args[1..];
    assert args == [a] + rest;
    RestPrintable(args);
    PrintFirst(args);
    PrintedPlain(a);
    HoldingEnd(b, i, Print([], args));
    if Readable(a) {
      Take(b, i, a, rest);
      ReturnsRest(b, i, args);
      assert !AllReadable(rest) by {
        var k :| 0 <= k < |args| && !Readable(args[k]);
        assert rest[k - 1] == args[k];
      }
      var n := NextArgument(b, i);
      Fails(n.b, n.src.value, rest);
      assert n.src == Some(n.src.value);
    } else if a.s == [] {
      FailEmpty(b, i, rest);
    } else {
      assert b[i + 0] == Print([], args)[0];
      FailUnreadable(b, i, a.s, rest);
      hide NextArgument, Print;
      NotReturned(b, i, args);
    }
  }

  lemma FailUnreadable(b: seq<U8>, i: nat, s: seq<U8>, rest: seq<Arg>)
    requires Printable(rest) && NoNul(s) && s != [] && !Readable(Text(s))
    requires Holding(b, i, Printed(Text(s)) + Tail(rest))
    ensures Terminated(b, i)
    ensures var n := NextArgument(b, i); var r := UnpackText(n.b, n.src, Kinds(rest));
                                         r.Unpacked? ==> !Stands(r.b, Pointer(n.begin), Text(s))
  {
    var w := Printed(Text(s)) + Tail(rest);
    HoldingEnd(b, i, w);
    TailShape(rest);
    var n := NextArgument(b, i);
    var r := UnpackText(n.b, n.src, Kinds(rest));
    hide NextArgument, UnpackText, Tail;
    if SPACE in s {
      FailQuoted(b, i, s, rest);
    } else if r.Unpacked? && Stands(r.b, Pointer(n.begin), Text(s)) {
      assert rest != [] ==> w[|s|] == SPACE;
      QuoteFirst(b, i, w, s, Kinds(rest));
    }
  }

  /** The exact limits of the text form: what was printed comes back, whatever lies behind it in the
      buffer, if and only if every argument is readable. */
  lemma TextRoundTripIff(args: seq<Arg>, b: seq<U8>)
    requires Printable(args) && Holding(b, 0, Print([], args))
    ensures Terminated(b, 0)
    ensures Returns(UnpackText(b, Some(0), Kinds(args)), args) <==> AllReadable(args)
  {
    HoldingEnd(b, 0, Print([], args));
    if AllReadable(args) {
      TextRoundTrip(args, b);
    } else {
      Fails(b, 0, args);
    }
  }
}
