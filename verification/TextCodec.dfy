/** The text form of a command: arguments printed with spaces between them, and read back. */
module TextCodec {
  import opened Options
  import opened Bytes
  import opened Arguments
  import opened TextReader

  // ---------------------------------------------------------------- printing

  /** How one argument is printed; data arguments have no text form. */
  function Printed(a: Arg): seq<U8>
    requires !a.Data?
  {
    match a
    case Number(v) => Decimal(v)
    case Text(s) => if SPACE in s then [QUOTE] + s + [QUOTE] else s
  }

  ghost predicate Printable(args: seq<Arg>) {
    AreArgs(args) && forall k | 0 <= k < |args| :: !args[k].Data?
  }

  /** What `_flush` makes of the text `d` so far: a space goes before every argument but one that
      finds nothing printed yet. */
  function Print(d: seq<U8>, args: seq<Arg>): seq<U8>
    requires forall k | 0 <= k < |args| :: !args[k].Data?
    decreases |args|
  {
    if args == [] then d else Print(d + (if d == [] then [] else [SPACE]) + Printed(args[0]), args[1..])
  }

  /** Flushing argument by argument prints what one flush of them all does. */
  lemma {:induction false} PrintInSteps(d: seq<U8>, a: seq<Arg>, b: seq<Arg>)
    requires forall k | 0 <= k < |a| :: !a[k].Data?
    requires forall k | 0 <= k < |b| :: !b[k].Data?
    ensures Print(Print(d, a), b) == Print(d, a + b)
    decreases |a|
  {
    if a == [] {
      assert a + b == b;
    } else {
      assert (a + b)[1..] == a[1..] + b;
      PrintInSteps(d + (if d == [] then [] else [SPACE]) + Printed(a[0]), a[1..], b);
    }
  }

  /** How arguments look in text: numbers in decimals, strings with a space in quotes (34), others as
      they are, and a space (32) in front of every one but those that find nothing printed yet. */
  lemma PrintLast(d: seq<U8>, args: seq<Arg>, a: Arg)
    requires Printable(args) && !a.Data?
    ensures forall k | 0 <= k < |args + [a]| :: !(args + [a])[k].Data?
    ensures Print(d, args + [a])
         == Print(d, args)
            + (if Print(d, args) == [] then [] else [32])
            + match a
              case Number(v) => Decimal(v)
              case Text(s) => if 32 in s then [34] + s + [34] else s
  {
    PrintInSteps(d, args, [a]);
    var p := Print(d, args);
    assert Print(p, [a]) == Print(p + (if p == [] then [] else [SPACE]) + Printed(a), [a][1..]);
  }

  /** Arguments that follow something. */
  function Tail(args: seq<Arg>): seq<U8>
    requires forall k | 0 <= k < |args| :: !args[k].Data?
    decreases |args|
  {
    if args == [] then [] else [SPACE] + Printed(args[0]) + Tail(args[1..])
  }

  lemma Assoc(a: seq<U8>, b: seq<U8>, c: seq<U8>)
    ensures (a + b) + c == a + (b + c)
  {
  }

  lemma {:induction false} PrintTail(d: seq<U8>, args: seq<Arg>)
    requires d != [] && forall k | 0 <= k < |args| :: !args[k].Data?
    ensures Print(d, args) == d + Tail(args)
    decreases |args|
  {
    if args == [] {
      assert d + Tail(args) == d;
    } else {
      var p, rest := Printed(args[0]), args[1..];
      PrintTail(d + [SPACE] + p, rest);
      Assoc(d + [SPACE], p, Tail(rest));
      Assoc(d, [SPACE], p + Tail(rest));
      Assoc([SPACE], p, Tail(rest));
      hide Printed;
    }
  }

  lemma PrintFirst(args: seq<Arg>)
    requires args != [] && forall k | 0 <= k < |args| :: !args[k].Data?
    ensures Print([], args)
         == if Printed(args[0]) == [] then Print([], args[1..]) else Printed(args[0]) + Tail(args[1..])
  {
    var p := Printed(args[0]);
    assert [] + [] + p == p;
    if p != [] {
      PrintTail(p, args[1..]);
    }
  }

  // ---------------------------------------------------------------- reading

  datatype Kind = NumberKind | TextKind | DataKind

  function KindOf(a: Arg): Kind {
    match a
    case Number(_) => NumberKind
    case Text(_) => TextKind
    case Data(_) => DataKind
  }

  function Kinds(args: seq<Arg>): seq<Kind> {
    if args == [] then [] else [KindOf(args[0])] + Kinds(args[1..])
  }

  /** What one `_unshift` stores for the caller: a number, a pointer into the buffer, or nothing. */
  datatype Got = Value(v: int) | Pointer(p: nat) | Unset

  /** One `_unshift` of a text command: the buffer and the reader's position afterwards. A number
      is stored only if there is one; a string pointer is stored in any case. */
  datatype Shift = Shift(b: seq<U8>, src: Option<nat>, got: Got)

  function UnshiftText(b: seq<U8>, i: nat, k: Kind): (r: Shift)
    requires Terminated(b, i)
    ensures |r.b| == |b|
    ensures r.src.Some? ==> Terminated(r.b, r.src.value)
  {
    if b[i] == NUL8 then Shift(b, Some(i), Unset)
    else
      var n := NextArgument(b, i);
      var got := if k.TextKind? then Pointer(n.begin)
                 else if n.ok then Value(ToI32(Strtoul(CString(n.b, n.begin))))
                 else Unset;
      Shift(n.b, n.src, got)
  }

  /** A whole unpacking; reading on from the null pointer is the end of the program. */
  datatype Outcome = Crashed | Unpacked(b: seq<U8>, got: seq<Got>)

  function UnpackText(b: seq<U8>, src: Option<nat>, kinds: seq<Kind>): (r: Outcome)
    requires src.Some? ==> Terminated(b, src.value)
    ensures r.Unpacked? ==> |r.b| == |b| && |r.got| == |kinds|
    decreases |kinds|
  {
    if kinds == [] then Unpacked(b, [])
    else if src == None then Crashed
    else
      var s := UnshiftText(b, src.value, kinds[0]);
      match UnpackText(s.b, s.src, kinds[1..])
      case Crashed => Crashed
      case Unpacked(b', got) => Unpacked(b', [s.got] + got)
  }

  /** What was stored stands for the argument, in the buffer as unpacking left it. */
  ghost predicate Stands(b: seq<U8>, g: Got, a: Arg) {
    match a
    case Number(v) => g == Value(v)
    case Text(s) => g.Pointer? && Terminated(b, g.p) && CString(b, g.p) == s
    case Data(_) => false
  }

  ghost predicate Returns(r: Outcome, args: seq<Arg>) {
    r.Unpacked? && |r.got| == |args| && forall k | 0 <= k < |args| :: Stands(r.b, r.got[k], args[k])
  }

  /** The buffer holds the NUL-terminated text `t` at `i`. */
  ghost predicate Holding(b: seq<U8>, i: nat, t: seq<U8>) {
    && i + |t| < |b| && b[i + |t|] == NUL8
    && forall k | 0 <= k < |t| :: b[i + k] == t[k] != NUL8
  }

  lemma HoldingEnd(b: seq<U8>, i: nat, t: seq<U8>)
    requires Holding(b, i, t)
    ensures Terminated(b, i) && StrEnd(b, i) == i + |t| && CString(b, i) == t
  {
    assert forall k | i <= k < i + |t| :: b[k] == t[k - i];
    StrEndIs(b, i, i + |t|);
  }

  lemma HoldingDrop(b: seq<U8>, i: nat, u: seq<U8>, v: seq<U8>)
    requires Holding(b, i, u + v)
    ensures Holding(b, i + |u|, v) && forall k | 0 <= k < |u| :: b[i + k] == u[k] != NUL8
  {
    var t := u + v;
    assert forall k | 0 <= k < |u| :: t[k] == u[k];
    assert forall k | 0 <= k < |v| :: t[|u| + k] == v[k];
  }

  // ---------------------------------------------------------------- when it works

  /** An argument that can be read back from text. */
  ghost predicate Readable(a: Arg) {
    match a
    case Number(_) => true
    case Text(s) => s != [] && if SPACE in s then QUOTE !in s else s[0] != QUOTE
    case Data(_) => false
  }

  /** The characters that the reader hands over for an argument. */
  function Content(a: Arg): seq<U8>
    requires !a.Data?
  {
    match a
    case Number(v) => Decimal(v)
    case Text(s) => s
  }

  lemma PrintedPlain(a: Arg)
    requires IsArg(a) && !a.Data?
    ensures NoNul(Printed(a)) && (Printed(a) != [] ==> Printed(a)[0] != SPACE)
    ensures a.Number? ==> Printed(a) != [] && SPACE !in Printed(a) && QUOTE !in Printed(a)
  {
    if a.Number? {
      var d := Decimal(a.v);
      assert forall k | 0 <= k < |d| :: d[k] == MINUS || ZERO <= d[k] <= ZERO + 9;
    }
  }

  lemma {:induction false} TailNoNul(args: seq<Arg>)
    requires Printable(args)
    ensures NoNul(Tail(args)) && NoNul(Print([], args))
    decreases |args|
  {
    if args != [] {
      TailNoNul(args[1..]);
      PrintedPlain(args[0]);
      PrintFirst(args);
    }
  }

  lemma SkipOne(b: seq<U8>, i: nat, u: seq<U8>)
    requires Holding(b, i, [SPACE] + u)
    ensures Holding(b, i + 1, u) && Terminated(b, i + 1) && Terminated(b, i) && Skip(b, i) == Skip(b, i + 1)
    ensures u != [] && u[0] != SPACE ==> Skip(b, i) == i + 1
  {
    HoldingDrop(b, i, [SPACE], u);
    HoldingEnd(b, i, [SPACE] + u);
    HoldingEnd(b, i + 1, u);
    assert b[i + 0] == [SPACE][0];
    if u != [] { assert b[i + 1 + 0] == u[0]; }
  }

  /** Skipping the spaces in front of what follows ends at what would have been printed first. */
  lemma {:induction false} SkipTail(b: seq<U8>, i: nat, args: seq<Arg>)
    requires Printable(args) && Holding(b, i, Tail(args))
    ensures Terminated(b, i) && Holding(b, Skip(b, i), Print([], args))
    decreases |args|
  {
    HoldingEnd(b, i, Tail(args));
    if args == [] {
      assert Print([], args) == [];
    } else {
      var rest, p := args[1..], Printed(args[0]);
      PrintedPlain(args[0]);
      PrintFirst(args);
      Assoc([SPACE], p, Tail(rest));
      hide Print, Printed, StrEnd, Skip;
      SkipOne(b, i, p + Tail(rest));
      if p == [] {
        assert p + Tail(rest) == Tail(rest);
        SkipTail(b, i + 1, rest);
      }
    }
  }

  lemma {:induction false} SkipLocal(b: seq<U8>, b': seq<U8>, i: nat)
    requires Terminated(b, i) && |b'| == |b| && forall k | i <= k < |b| :: b'[k] == b[k]
    ensures Terminated(b', i) && Skip(b', i) == Skip(b, i)
    decreases |b| - i
  {
    assert b'[StrEnd(b, i)] == NUL8;
    if b[i] == SPACE {
      SkipLocal(b, b', i + 1);
    }
  }

  /** `r` took the argument with the characters `content` off the text at `i`, and left `rest`. */
  ghost predicate Took(b: seq<U8>, i: nat, r: Next, content: seq<U8>, rest: seq<Arg>)
    requires Printable(rest)
  {
    && |r.b| == |b| && (forall k | 0 <= k < i < |b| :: r.b[k] == b[k])
    && i <= r.begin && Holding(r.b, r.begin, content)
    && (match r.src
        case None => rest == []
        case Some(q) => r.begin + |content| < q && Holding(r.b, q, Print([], rest)))
  }

  /** The terminator written at `e`, and the spaces after it skipped. */
  lemma CutAt(b: seq<U8>, i: nat, begin: nat, content: seq<U8>, e: nat, rest: seq<Arg>)
    requires Printable(rest) && NoNul(content) && i <= begin
    requires begin + |content| == e < |b| && forall k | 0 <= k < |content| :: b[begin + k] == content[k]
    requires Terminated(b, e + 1) && Holding(b, Skip(b, e + 1), Print([], rest))
    ensures Terminated(b[e := NUL8], e + 1)
    ensures Took(b, i, Next(true, b[e := NUL8], Some(Skip(b[e := NUL8], e + 1)), begin), content, rest)
  {
    hide Print, Skip;
    SkipLocal(b, b[e := NUL8], e + 1);
  }

  lemma TailShape(rest: seq<Arg>)
    requires Printable(rest)
    ensures rest == [] ==> Tail(rest) == [] && Print([], rest) == []
    ensures rest != [] ==> Tail(rest) != [] && Tail(rest)[0] == SPACE
  {
  }

  /** Where the text `p` ends, seen from its beginning. */
  lemma FindEnd(b: seq<U8>, i: nat, p: seq<U8>, u: seq<U8>, c: U8)
    requires Holding(b, i, p + u) && c !in p && u != [] && u[0] == c != NUL8
    ensures Terminated(b, i) && StrChr(b, i, c) == Some(i + |p|)
  {
    HoldingEnd(b, i, p + u);
    HoldingDrop(b, i, p, u);
    assert b[i + |p| + 0] == u[0];
    forall k | i <= k < i + |p|
      ensures b[k] != c
    {
      assert b[i + (k - i)] == p[k - i] && p[k - i] in p;
    }
    StrChrIs(b, i, c, i + |p|);
  }

  lemma NotFound(b: seq<U8>, i: nat, p: seq<U8>, c: U8)
    requires Holding(b, i, p) && c !in p && c != NUL8
    ensures Terminated(b, i) && StrChr(b, i, c) == None
  {
    HoldingEnd(b, i, p);
    forall k | i <= k < i + |p|
      ensures b[k] != c
    {
      assert b[i + (k - i)] == p[k - i] && p[k - i] in p;
    }
  }

  lemma TakePlain(b: seq<U8>, i: nat, p: seq<U8>, rest: seq<Arg>)
    requires Printable(rest) && NoNul(p) && p != [] && SPACE !in p && p[0] != QUOTE && Holding(b, i, p + Tail(rest))
    ensures Terminated(b, i) && NextArgument(b, i).ok && Took(b, i, NextArgument(b, i), p, rest)
  {
    TailShape(rest);
    if rest == [] {
      assert p + Tail(rest) == p;
      TakeLast(b, i, p);
    } else {
      TakeInner(b, i, p, rest);
    }
  }

  lemma TakeLast(b: seq<U8>, i: nat, p: seq<U8>)
    requires NoNul(p) && p != [] && SPACE !in p && p[0] != QUOTE && Holding(b, i, p)
    ensures Terminated(b, i) && NextArgument(b, i) == Next(true, b, None, i)
  {
    NotFound(b, i, p, SPACE);
    assert b[i + 0] == p[0];
  }

  lemma TakeInner(b: seq<U8>, i: nat, p: seq<U8>, rest: seq<Arg>)
    requires Printable(rest) && rest != [] && NoNul(p) && p != [] && SPACE !in p && p[0] != QUOTE
    requires Holding(b, i, p + Tail(rest))
    ensures Terminated(b, i) && NextArgument(b, i).ok && Took(b, i, NextArgument(b, i), p, rest)
  {
    var e := i + |p|;
    TailShape(rest);
    hide Print, Tail, Back, StrEnd, StrChr, Skip, Without, Terminated;
    HoldingDrop(b, i, p, Tail(rest));
    assert b[i + 0] == p[0] && b[e + 0] == SPACE;
    FindEnd(b, i, p, Tail(rest), SPACE);
    SkipTail(b, e, rest);
    SkipSpace(b, e);
    NextPlain(b, i, e);
    hide Holding, Took, NextArgument;
    CutAt(b, i, i, p, e, rest);
  }

  lemma NextPlain(b: seq<U8>, i: nat, e: nat)
    requires Terminated(b, i) && StrChr(b, i, SPACE) == Some(e) && b[i] != QUOTE
    ensures Terminated(b[e := NUL8], e + 1)
    ensures NextArgument(b, i) == Next(true, b[e := NUL8], Some(Skip(b[e := NUL8], e + 1)), i)
  {
    TerminatedAfter(b, i, e);
  }

  lemma SkipSpace(b: seq<U8>, e: nat)
    requires Terminated(b, e) && b[e] == SPACE
    ensures Terminated(b, e + 1) && Skip(b, e) == Skip(b, e + 1) && e < Skip(b, e)
  {
  }

  lemma TakeQuoted(b: seq<U8>, i: nat, s: seq<U8>, rest: seq<Arg>)
    requires Printable(rest) && NoNul(s) && SPACE in s && QUOTE !in s
    requires Holding(b, i, [QUOTE] + s + [QUOTE] + Tail(rest))
    ensures Terminated(b, i) && NextArgument(b, i).ok && Took(b, i, NextArgument(b, i), s, rest)
  {
    hide Print, Tail, Back, Skip, StrEnd, StrChr;
    var u := [QUOTE] + Tail(rest);
    Assoc([QUOTE] + s, [QUOTE], Tail(rest));
    Assoc([QUOTE], s, u);
    QuotedHasSpace(b, i, s, u);
    HoldingDrop(b, i, [QUOTE], s + u);
    FindEnd(b, i + 1, s, u, QUOTE);
    HoldingDrop(b, i + 1, s, u);
    var q := i + 1 + |s|;
    HoldingDrop(b, q, [QUOTE], Tail(rest));
    SkipTail(b, q + 1, rest);
    hide Holding, Took;
    CutAt(b, i, i + 1, s, q, rest);
  }

  lemma QuotedHasSpace(b: seq<U8>, i: nat, s: seq<U8>, u: seq<U8>)
    requires Holding(b, i, [QUOTE] + (s + u)) && SPACE in s
    ensures Terminated(b, i) && StrChr(b, i, SPACE).Some? && b[i] == QUOTE
  {
    HoldingEnd(b, i, [QUOTE] + (s + u));
    HoldingDrop(b, i, [QUOTE], s + u);
    HoldingDrop(b, i + 1, s, u);
    var k :| 0 <= k < |s| && s[k] == SPACE;
    assert b[i + 1 + k] == SPACE && b[i + 0] == [QUOTE][0];
  }

  /** Reading one readable argument. */
  lemma Take(b: seq<U8>, i: nat, a: Arg, rest: seq<Arg>)
    requires Printable([a] + rest) && Readable(a) && Holding(b, i, Print([], [a] + rest))
    ensures Printable(rest) && Terminated(b, i) && b[i] != NUL8
    ensures NextArgument(b, i).ok && Took(b, i, NextArgument(b, i), Content(a), rest)
  {
    var args := [a] + rest;
    assert args[0] == a && args[1..] == rest;
    forall k | 0 <= k < |rest|
      ensures IsArg(rest[k]) && !rest[k].Data?
    {
      assert args[k + 1] == rest[k];
    }
    PrintedPlain(a);
    PrintFirst(args);
    var p := Printed(a);
    HoldingEnd(b, i, p + Tail(rest));
    assert b[i + 0] == (p + Tail(rest))[0];
    if a.Text? && SPACE in a.s {
      TakeQuoted(b, i, a.s, rest);
    } else {
      if a.Number? { assert p[0] in p; }
      TakePlain(b, i, p, rest);
    }
  }

  /** The reader never writes before its position, nor goes back. */
  lemma NextKeeps(b: seq<U8>, i: nat)
    requires Terminated(b, i)
    ensures forall k | 0 <= k < i :: NextArgument(b, i).b[k] == b[k]
    ensures NextArgument(b, i).src.Some? ==> NextArgument(b, i).src.value >= i
  {
  }

  lemma {:induction false} UnpackKeeps(b: seq<U8>, src: Option<nat>, kinds: seq<Kind>, lo: nat)
    requires src.Some? ==> Terminated(b, src.value) && lo <= src.value
    requires src == None ==> kinds == [] && lo <= |b|
    ensures UnpackText(b, src, kinds).Unpacked? ==>
              lo <= |b| && forall k | 0 <= k < lo :: UnpackText(b, src, kinds).b[k] == b[k]
    decreases |kinds|
  {
    if kinds != [] {
      NextKeeps(b, src.value);
      var s := UnshiftText(b, src.value, kinds[0]);
      if s.src.Some? || |kinds| == 1 {
        UnpackKeeps(s.b, s.src, kinds[1..], if s.src.Some? then lo else |b|);
      }
    }
  }

  ghost predicate AllReadable(args: seq<Arg>) {
    forall k | 0 <= k < |args| :: Readable(args[k])
  }

  /** What was stored for the first argument still stands when the rest has been unpacked. */
  lemma StandsToTheEnd(b: seq<U8>, i: nat, a: Arg, rest: seq<Arg>)
    requires Terminated(b, i) && b[i] != NUL8 && NextArgument(b, i).ok && Printable(rest) && !a.Data?
    requires Took(b, i, NextArgument(b, i), Content(a), rest)
    ensures var s := UnshiftText(b, i, KindOf(a));
            var r := UnpackText(s.b, s.src, Kinds(rest));
            r.Unpacked? ==> Stands(r.b, s.got, a)
  {
    var n := NextArgument(b, i);
    HoldingEnd(n.b, n.begin, Content(a));
    match a
    case Number(v) => NumberRoundTrip(v);
    case Text(s) =>
      if n.src.Some? {
        UnpackKeeps(n.b, n.src, Kinds(rest), n.src.value);
        var r := UnpackText(n.b, n.src, Kinds(rest));
        if r.Unpacked? {
          CStringKept(n.b, r.b, n.begin, n.src.value);
        }
      }
  }

  /** Unpacking from a position gives the arguments. */
  ghost predicate Coming(b: seq<U8>, src: Option<nat>, args: seq<Arg>)
    requires src.Some? ==> Terminated(b, src.value)
  {
    Returns(UnpackText(b, src, Kinds(args)), args)
  }

  lemma FirstComing(b: seq<U8>, i: nat, args: seq<Arg>)
    requires Terminated(b, i) && args != []
    requires var s := UnshiftText(b, i, KindOf(args[0]));
             && Coming(s.b, s.src, args[1..])
             && Stands(UnpackText(s.b, s.src, Kinds(args[1..])).b, s.got, args[0])
    ensures Coming(b, Some(i), args)
  {
    var s := UnshiftText(b, i, KindOf(args[0]));
    var r := UnpackText(s.b, s.src, Kinds(args[1..]));
    assert UnpackText(b, Some(i), Kinds(args)) == Unpacked(r.b, [s.got] + r.got);
    hide UnshiftText, Stands, UnpackText, Kinds, Terminated;
    forall k | 0 <= k < |args|
      ensures Stands(r.b, ([s.got] + r.got)[k], args[k])
    {
      if k > 0 { assert Stands(r.b, r.got[k - 1], args[1..][k - 1]); }
    }
  }

  lemma NoneComing(b: seq<U8>, src: Option<nat>)
    requires src.Some? ==> Terminated(b, src.value)
    ensures Coming(b, src, [])
  {
  }

  /** Reading back everything that was printed. */
  lemma {:induction false} ReadAll(b: seq<U8>, src: Option<nat>, args: seq<Arg>)
    requires Printable(args) && AllReadable(args)
    requires if src == None then args == [] else Holding(b, src.value, Print([], args))
    ensures src.Some? ==> Terminated(b, src.value)
    ensures Coming(b, src, args)
    decreases |args|
  {
    if src.Some? {
      HoldingEnd(b, src.value, Print([], args));
    }
    if args == [] {
      NoneComing(b, src);
    } else {
      var a, rest := args[0], args[1..];
      assert args == [a] + rest;
      Take(b, src.value, a, rest);
      StandsToTheEnd(b, src.value, a, rest);
      assert AllReadable(rest);
      var s := UnshiftText(b, src.value, KindOf(a));
      hide Readable, AllReadable, Stands, Printable, Print, NextArgument, Terminated, Holding;
      ReadAll(s.b, s.src, rest);
      FirstComing(b, src.value, args);
    }
  }

  /** The text round trip: whatever lies behind the terminator. */
  lemma TextRoundTrip(args: seq<Arg>, b: seq<U8>)
    requires Printable(args) && AllReadable(args) && Holding(b, 0, Print([], args))
    ensures Terminated(b, 0) && Returns(UnpackText(b, Some(0), Kinds(args)), args)
  {
    ReadAll(b, Some(0), args);
  }
}
